# Codecs, ciphers and matchers of the sensor node: a verified model

The sensor firmware carries a handful of C libraries and one sensor driver. This project models six
of them in Dafny and proves what they promise. Code that works by changing things step by step is
modelled by classes and methods with loops (streams, iterators, cipher contexts, print buffers,
in-place texts, a register device). Each of these methods is proved against a specification on plain
values, and the laws are lemmas about those specifications.

**nanopb** (`Pb*.dfy`). `PbWire` holds the wire format: varints, zigzag, tags and length-limited
streams. `PbTypes` holds descriptors and messages, with one typed slot per descriptor entry in place
of raw struct offsets. `PbEncoding` and `PbDecoding` specify the encoder and the decoder,
`PbOStream`, `PbIStream`, `PbIterator` and `PbDecoder` are the running code. `PbRoundTrip`,
`PbCanon`, `PbMerge`, `PbContinuation`, `PbPacking` and `PbEvolution` hold the laws, the last one
those of readers whose descriptor differs from the sender's. Three findings:

- A string that fills its slot without a terminator encodes but is refused by the decoder. The round
  trip therefore holds exactly for messages whose strings leave room for the terminator
  (`PbRoundTrip.RoundTrip`).
- That `a` decodes and is consumed in full is not enough for `a ++ b` to decode as `a`, then `b`
  (`PbMerge.ReadInFullIsNotEnough`). It does for every `b` that decodes exactly when `a` leaves no
  byte at the last tag that is looked at: it ends neither in a zero tag nor inside a tag
  (`PbMerge.MergesExactly`, and `PbContinuation` for descriptors with required fields).
- The branch that reports a changed submessage size cannot be taken when the two passes see the same
  message (`PbOStream.EmitsThroughSub`).

**cifra** (`Bitops`, `SubstitutionTables`, `Aes*`, `Gf128*`, `Blockwise`, `Cmac*`, `Ctr`, `Cbc`,
`Eax`). AES is inverted through its tables, row shifts, packed column mixes and round order, and its
key schedule is that of FIPS 197, byte by byte in `AesMeaning`. GF(2^128) multiplication is a
commutative, associative, bilinear product with a unit. The blockwise accumulator is generic in its
context, and streaming CMAC (RFC 4493), counter mode (NIST SP 800-38A) and EAX rest on it. `mask_u8`
in `bitops.h` compares low bytes only, although its comment promises more. The callers here compare
bytes, so none depends on the difference. CBC decryption in place is right exactly when the inverse
block function takes every ciphertext block but the last to its XOR with the block before it
(`Cbc.InPlaceIsRightExactly`).

**fnmatch** (`Glob`, `Fnmatch`). `Glob` says what a pattern means: tokens, bracket sets and a match
relation; `GlobMeaning` says what that makes of written patterns: sets, ranges, wildcards, escapes
and letter case. `Fnmatch` is the backtracking matcher with its shortcuts and its budget, proved
equal to a recursion that decides the relation unless the budget runs out. A bracket that the
pattern's end breaks off matches nothing, while one broken by a slash falls back to a literal
bracket. An escape at the very end of a pattern is compared with the terminator; the matcher then
runs over the end of the string exactly when what stands before the escape takes the whole string
and does not end in a star (`Glob.RunsOverExactly`).

**cJSON** (`Json*.dfy`). `Json` specifies printed text and parsed trees, `JsonParser`, `JsonPrinter`
and `JsonBuffer` are the parser and both printers over arrays and a growing buffer, `JsonGrowth` is
the growth policy and `JsonMinify` the minifier. `JsonLayout` says how printed text looks, and
`JsonUnicode` which code points a quoted text stands for. The parser of the integer build never sets
the floating value that the printer looks at, so a parsed tree prints zeros; it reprints to its own
text exactly when all its numbers are zero (`JsonRoundTrip.ReprintsExactlyWhenOnlyZeros`). A broken
unicode escape loses the four characters behind it, and the string buffer that is counted beforehand
is safe exactly when the counting loop passes these four in step
(`JsonEscapes.CountSufficesExactly`). One leading zero of a number is skipped, a second one ends it.
Every tree that comes out of the parser can be printed and parsed again
(`JsonParsed.ParsedTreesGoRound`). An empty object in pretty form is closed one tab short of its
depth, by both printers alike.

**BMP3** (`Bmp3Fields`, `Bmp3`). `Bmp3Fields` holds the packed bit fields, `Bmp3` the settings layer
over a device that decodes an interleaved burst and ignores an unpaired last byte. A requested rate
above the slowest one is lowered to it, in the settings as well as in the register. The timing check
looks at the oversampling values as given, before they are cut to their fields.

**nrf_fprintf** (`Fprintf*.dfy`). Integer and string formatting over a small flushed buffer, and the
scan of the format string; `FprintfMeaning` says what each conversion prints. What is printed never
depends on the buffer's size.

## Model

| member | source | states |
|---|---|---|
| PbRoundTrip.RoundTrip | nrf_sdk_16/external/nano-pb/pb_decode.c:840-960 | decoding what the encoder produced reads every byte of it and gives the message back (absent optionals as defaults, oneof choice, nested and repeated submessages), if and only if every string that was sent has room for its terminator; otherwise decoding fails |
| PbRoundTrip.ValidRoundTrip | nrf_sdk_16/external/nano-pb/pb_decode.c:948-960 | encoding and decoding both succeed exactly for valid messages: sent byte arrays fit their slots, sent strings end inside theirs, counts are within bounds; then the message arrives |
| PbRoundTrip.MessageArrives | nrf_sdk_16/external/nano-pb/pb_decode.c:840-946 | the same for a (sub)message decoded into its defaults inside a longer stream, whatever follows it |
| PbRoundTrip.FieldsArrive | nrf_sdk_16/external/nano-pb/pb_decode.c:851-910 | after the first n descriptor entries the decoder's state is the message with exactly those entries filled in and exactly those required fields seen |
| PbRoundTrip.FieldArrives | nrf_sdk_16/external/nano-pb/pb_decode.c:349-420 | each entry, of any rule and type, arrives from its own encoding, or stops the decoder when a string in it lacks room for its terminator |
| PbRoundTrip.ValueArrives | nrf_sdk_16/external/nano-pb/pb_decode.c:1150-1340 | every field decoder undoes its field encoder |
| PbRoundTrip.SeparateArrives | nrf_sdk_16/external/nano-pb/pb_decode.c:394-404 | an array of strings, bytes or submessages arrives entry by entry, in order |
| PbRoundTrip.PackedArrives | nrf_sdk_16/external/nano-pb/pb_decode.c:366-393 | a packed run arrives entry by entry, in order |
| PbRoundTrip.NarrowRestores | nrf_sdk_16/external/nano-pb/pb_decode.c:1150-1185 | a sign-extended value survives the truncation check of its field width |
| PbRoundTrip.TextArrives | nrf_sdk_16/external/nano-pb/pb_decode.c:1284-1317 | a string of n bytes in an n-byte slot encodes but is refused by the decoder; a shorter one arrives |
| PbRoundTrip.CanonEncodes | nrf_sdk_16/external/nano-pb/pb_encode.c:371-393 | what arrives encodes to the same bytes again |
| PbCanon.ArrivesUnchangedExactly | nrf_sdk_16/external/nano-pb/pb_decode.c:948-960 | decoding gives back the very message that was encoded if and only if its sent strings have room for their terminators, absent fields hold their defaults, strings end where their bytes do, and each oneof has chosen one of its entries or nothing |
| PbCanon.SettledStays | nrf_sdk_16/external/nano-pb/pb_decode.c:751-834 | those last conditions are exactly when a message is its own canonical form |
| PbCanon.CanonSettles | nrf_sdk_16/external/nano-pb/pb_decode.c:751-834 | whatever arrives satisfies them |
| PbCanon.CanonTwice | nrf_sdk_16/external/nano-pb/pb_decode.c:948-960 | so a second trip changes nothing |
| PbWire.Varint64RoundTrip | nrf_sdk_16/external/nano-pb/pb_decode.c:208-228 | the 64-bit varint reader undoes the varint writer and leaves what follows |
| PbWire.Varint32RoundTrip | nrf_sdk_16/external/nano-pb/pb_decode.c:172-206 | the 32-bit varint reader undoes it for 32-bit values |
| PbWire.VarintLength | nrf_sdk_16/external/nano-pb/pb_encode.c:414-434 | a value below 128^n takes at most n bytes |
| PbWire.ZigZagRoundTrip | nrf_sdk_16/external/nano-pb/pb_encode.c:436-445 | zigzag decoding undoes zigzag encoding |
| PbWire.UnZigZagRoundTrip | nrf_sdk_16/external/nano-pb/pb_decode.c:1103-1115 | and encoding undoes decoding, so the mapping is one to one |
| PbWire.TagRoundTrip | nrf_sdk_16/external/nano-pb/pb_decode.c:250-274 | a written tag is read back as its field number and wire type |
| PbWire.SubRoundTrip | nrf_sdk_16/external/nano-pb/pb_decode.c:321-334 | a length prefix opens a substream over exactly the payload, and leaves the parent behind it |
| PbWire.LittleRoundTrip | nrf_sdk_16/external/nano-pb/pb_decode.c:1117-1148 | little-endian bytes are read back as the value |
| PbMerge.MergesExactly | nrf_sdk_16/external/nano-pb/pb_decode.c:840-946 | for an input a that decodes and is consumed in full: decoding a ++ b is decoding a and then b, for every b that decodes in full after a, if and only if a leaves no byte at the last tag the loop looks at (neither a zero tag nor one cut short), or nothing at all decodes after a |
| PbMerge.MergesExactlyWhenNothingIsLeft | nrf_sdk_16/external/nano-pb/pb_decode.c:840-946 | with some continuation known to decode, the law holds exactly when no byte is left at the last tag |
| PbMerge.NothingDecodesInFull | nrf_sdk_16/external/nano-pb/pb_decode.c:912-943 | a descriptor without required fields always has such a continuation, the empty one |
| PbContinuation.LeastDecodesInFull | nrf_sdk_16/external/nano-pb/pb_decode.c:840-946 | the required fields alone, each once with a least value, decode in full into any message if they take less than 2^32 bytes |
| PbContinuation.MergesExactlyWhenRequiredIsShort | nrf_sdk_16/external/nano-pb/pb_decode.c:840-946 | so for every such descriptor the law holds exactly when no byte is left at the last tag |
| PbMerge.EndsCleanlyWhenNothingIsLeft | nrf_sdk_16/external/nano-pb/pb_decode.c:250-274 | for inputs that decode and are consumed in full, stopping between fields is leaving nothing at the last tag |
| PbMerge.Merge | nrf_sdk_16/external/nano-pb/pb_decode.c:840-946 | decoding a ++ b into a message equals decoding a, then b, when a stops between fields |
| PbMerge.LoopConcat | nrf_sdk_16/external/nano-pb/pb_decode.c:851-910 | the same for the field loop inside any stream, with the required fields seen so far |
| PbMerge.ReadInFullIsNotEnough | nrf_sdk_16/external/nano-pb/pb_decode.c:250-274 | the unguarded merge law fails: a lone continuation byte decodes and is consumed in full, and then swallows the next tag |
| PbMerge.SeenAdds | nrf_sdk_16/external/nano-pb/pb_decode.c:896-901 | which required fields were seen before the loop changes nothing but the final check |
| PbMerge.UnknownFieldIsTransparent | nrf_sdk_16/external/nano-pb/pb_decode.c:865-894 | an unknown field inserted at any field boundary of any input leaves the result as it is, failure included |
| PbMerge.SkippableFields | nrf_sdk_16/external/nano-pb/pb_decode.c:276-286 | every field of wire type 0, 1, 2 or 5 whose tag the descriptor lacks is such a field |
| PbMerge.LoopExt | nrf_sdk_16/external/nano-pb/pb_decode.c:840-946 | bytes behind the limit of a stream have no influence on how its field loop ends |
| PbMerge.EncodedEndsCleanly | nrf_sdk_16/external/nano-pb/pb_encode.c:371-393 | whatever the encoder writes stops between fields, so encoded messages can always be concatenated |
| PbMerge.LoopTurn | nrf_sdk_16/external/nano-pb/pb_decode.c:851-910 | the loop is the repetition of the single turn that the imperative decoder takes |
| PbEvolution.ValueIsSkipped | nrf_sdk_16/external/nano-pb/pb_encode.c:479-510 | the wire type that is announced for a value of each type is that of its bytes: skipping by it takes exactly the value, whatever follows |
| PbEvolution.FieldIsSkipped | nrf_sdk_16/external/nano-pb/pb_decode.c:865-894 | a field that was encoded, of any rule and type, is skipped entry by entry by a reader whose descriptor lacks its tag |
| PbEvolution.ForeignMessageIsSkipped | nrf_sdk_16/external/nano-pb/pb_decode.c:840-946 | a message whose tags a reader does not know leaves its message as it was, and is read to its end |
| PbEvolution.ForeignMessageIsUnset | nrf_sdk_16/external/nano-pb/pb_decode.c:751-834 | such a reader, if it requires nothing, has all its fields unset: optional ones absent with the descriptor's initial value or else zero, arrays empty, oneofs not chosen, submessages unset in turn |
| PbEvolution.FieldsArriveWithout | nrf_sdk_16/external/nano-pb/pb_decode.c:851-910 | after the first k entries a reader that lacks one of them has its message with exactly the others filled in |
| PbEvolution.ReaderWithoutEntry | nrf_sdk_16/external/nano-pb/pb_decode.c:840-946 | a reader without one entry of the sender's descriptor decodes the sent message to that message without the entry, if and only if the remaining strings have room for their terminators |
| PbPacking.PiecesDecode | nrf_sdk_16/external/nano-pb/pb_decode.c:349-420 | a repeated scalar sent as any mixture of packed runs and separate entries decodes to all items in order, or fails exactly when they exceed the array |
| PbPacking.PackingDoesNotMatter | nrf_sdk_16/external/nano-pb/pb_decode.c:349-420 | two mixtures with the same items give the same result and the same verdict, whatever follows |
| PbPacking.PackedRun | nrf_sdk_16/external/nano-pb/pb_decode.c:366-393 | a packed run is taken whole if there is room and leaves bytes in its substream otherwise |
| PbRoundTrip.IsValidExactly | nrf_sdk_16/external/nano-pb/pb_encode.c:371-393 | valid is exactly: encodes without an error, and every sent string has room for its terminator |
| PbOStream.OStream.Encode | nrf_sdk_16/external/nano-pb/pb_encode.c:371-393 | on any stream, counting or writing, the output is the message's encoding when it fits and the verdict is exact; nothing outside the written range changes |
| PbOStream.OStream.EncodeField | nrf_sdk_16/external/nano-pb/pb_encode.c:201-269 | one descriptor entry, by rule, behaves likewise |
| PbOStream.OStream.EncodeArray | nrf_sdk_16/external/nano-pb/pb_encode.c:112-197 | an array, packed or entry by entry, behaves likewise; too many entries fail |
| PbOStream.OStream.EncodePacked | nrf_sdk_16/external/nano-pb/pb_encode.c:126-167 | the length prefix of a packed array is exact at every nesting depth |
| PbOStream.PackedSize | nrf_sdk_16/external/nano-pb/pb_encode.c:131-151 | the size computed for a packed array beforehand is the size of what is then written |
| PbOStream.OStream.EncodeSubmessage | nrf_sdk_16/external/nano-pb/pb_encode.c:519-567 | sizing, then writing on a limited substream, writes the prefixed encoding; the "submsg size changed" branch is never taken |
| PbOStream.EmitsThroughSub | nrf_sdk_16/external/nano-pb/pb_encode.c:540-566 | the second pass on a stream limited to the size found succeeds and writes exactly that many bytes |
| PbOStream.OStream.Write | nrf_sdk_16/external/nano-pb/pb_encode.c:87-105 | data goes behind what was written if it fits, else nothing is written; a counting stream only counts |
| PbOStream.OStream.EncodeVarint | nrf_sdk_16/external/nano-pb/pb_encode.c:414-434 | seven bits a byte, lowest first, within the ten-byte buffer |
| PbOStream.VarintBuffer | nrf_sdk_16/external/nano-pb/pb_encode.c:425-433 | the buffer loop spells the varint of every 64-bit value in at most ten bytes |
| PbOStream.OStream.EncodeValue | nrf_sdk_16/external/nano-pb/pb_encode.c:571-688 | the field encoders, by type, emit the wire form or fail as specified |
| PbOStream.StringLength | nrf_sdk_16/external/nano-pb/pb_encode.c:656-680 | a string is measured up to its terminator and never past its slot |
| PbOStream.GetEncodedSize | nrf_sdk_16/external/nano-pb/pb_encode.c:400-409 | sizing succeeds exactly when the message has an encoding, and gives its length |
| PbOStream.SizingAgreesWithWriting | nrf_sdk_16/external/nano-pb/pb_encode.c:371-409 | encoding into a buffer succeeds exactly when sizing succeeds with no more than the room there, and then takes exactly that many bytes |
| PbOStream.ShortIfWholeIsShort | nrf_sdk_16/external/nano-pb/pb_encode.c:519-567 | a message whose own encoding is shorter than 2^32 bytes has no longer submessage in it, at any depth |
| PbOStream.EmitsBoth | nrf_sdk_16/external/nano-pb/pb_encode.c:371-393 | the stream law composes: one encoding after another is the encoding of both |
| PbOStream.PayloadLength | nrf_sdk_16/external/nano-pb/pb_encode.c:132-139 | the 4n and 8n shortcuts for fixed-size entries are exact |
| PbIStream.IStream.Read | nrf_sdk_16/external/nano-pb/pb_decode.c:89-121 | reads exactly the bytes asked for or fails as the stream model does |
| PbIStream.IStream.DecodeVarint32 | nrf_sdk_16/external/nano-pb/pb_decode.c:172-206 | shift-and-or accumulation in 32 bits computes the specified value, overflow of the fifth byte included |
| PbIStream.IStream.DecodeVarint | nrf_sdk_16/external/nano-pb/pb_decode.c:208-228 | the same in 64 bits, ten bytes at most |
| PbIStream.IStream.DecodeTag | nrf_sdk_16/external/nano-pb/pb_decode.c:250-274 | header, end of message or error, as specified |
| PbIStream.IStream.SkipField | nrf_sdk_16/external/nano-pb/pb_decode.c:276-286 | consumes exactly one field of a known wire type and refuses the others |
| PbIStream.IStream.MakeSubstream | nrf_sdk_16/external/nano-pb/pb_decode.c:321-334 | a substream limited to the prefix, the parent reduced by as much |
| PbIStream.IStream.DecodeSigned | nrf_sdk_16/external/nano-pb/pb_decode.c:1150-1185 | the cast-and-compare test of pb_dec_varint accepts exactly the values of the field's width |
| PbIStream.IStream.DecodeStringField | nrf_sdk_16/external/nano-pb/pb_decode.c:1284-1317 | strings are refused when they and their terminator do not fit the slot |
| PbIStream.NarrowIsCast | nrf_sdk_16/external/nano-pb/pb_decode.c:1150-1185 | two truncating casts and a comparison decide whether a 64-bit value fits a narrower field |
| PbIStream.ShiftedGroup | nrf_sdk_16/external/nano-pb/pb_decode.c:172-228 | shifting a group to its place in a word keeps exactly the bits that fit |
| PbDecoder.DecodeFresh | nrf_sdk_16/external/nano-pb/pb_decode.c:948-960 | pb_decode as a loop over a mutable stream computes the specified result and stream position |
| PbDecoder.DecodeMessage | nrf_sdk_16/external/nano-pb/pb_decode.c:840-946 | pb_decode_noinit with its cyclic iterator and its 64 required-field flags computes the specified result |
| PbDecoder.DecodeOne | nrf_sdk_16/external/nano-pb/pb_decode.c:851-910 | one iteration of its loop is one turn of the specification |
| PbDecoder.DecodeStaticField | nrf_sdk_16/external/nano-pb/pb_decode.c:349-420 | one field of any rule, submessages included |
| PbDecoder.CheckRequired | nrf_sdk_16/external/nano-pb/pb_decode.c:930-942 | the word-wise check accepts exactly when all required flags are set |
| PbDecoder.FlagsDecide | nrf_sdk_16/external/nano-pb/pb_decode.c:896-943 | flags numbered by the iterator are all set if and only if every required entry was seen |
| PbIterator.FieldIter.Next | nrf_sdk_16/external/nano-pb/pb_common.c:20-76 | one step, or back to the first entry; the required-field index and the slot of a oneof stay right |
| PbIterator.FieldIter.FindTag | nrf_sdk_16/external/nano-pb/pb_common.c:78-95 | from any position, succeeds exactly when the descriptor has the tag, stands on it then, and where it stood otherwise |
| Aes.InvCipherUndoesCipher | nrf_sdk_16/external/cifra_AES128-EAX/cifra_eax_aes.c:240-396 | decryption undoes encryption for every round count, every round keys and every block |
| Aes.CipherUndoesInvCipher | nrf_sdk_16/external/cifra_AES128-EAX/cifra_eax_aes.c:240-396 | encryption undoes decryption |
| Aes.RoundsMeet | nrf_sdk_16/external/cifra_AES128-EAX/cifra_eax_aes.c:240-396 | with r inverse rounds to go decryption holds the shifted, substituted state encryption had after r rounds |
| Aes.ShiftRowsRotatesRows | nrf_sdk_16/external/cifra_AES128-EAX/cifra_eax_aes.c:189-217 | row r moves r places (section 5.1.2 of FIPS 197) |
| AesMeaning.StateOfBlock | nrf_sdk_16/external/cifra_AES128-EAX/cifra_eax_aes.c:240-276 | byte 4c + r of a block is the cell in row r and column c of the state (section 3.4 of FIPS 197), on the way in and on the way out |
| AesMeaning.SubBlockByBytes | nrf_sdk_16/external/cifra_AES128-EAX/cifra_eax_aes.c:181-187 | each byte of the state goes through the table (section 5.1.1 of FIPS 197) |
| AesMeaning.AddKeyByBytes | nrf_sdk_16/external/cifra_AES128-EAX/cifra_eax_aes.c:173-179 | byte r of column c is XORed with byte r of key word 4 round + c (section 5.1.4 of FIPS 197) |
| AesMeaning.ScheduleByBytes | nrf_sdk_16/external/cifra_AES128-EAX/cifra_eax_aes.c:105-139 | the key words begin with the key, and byte r of every later one is that of the word nk back XOR that of the word before, rotated, substituted and with the round constant where section 5.2 of FIPS 197 says so |
| AesMeaning.RoundsByKey | nrf_sdk_16/external/cifra_AES128-EAX/cifra_eax_aes.c:141-171 | keys have 16, 24 or 32 bytes, for 10, 12 or 14 rounds |
| AesColumns.MixColumnInverse | nrf_sdk_16/external/cifra_AES128-EAX/cifra_eax_aes.c:341-350 | inv_mix_column and mix_column undo each other on every packed word |
| AesColumns.MixColumnIsMatrixProduct | nrf_sdk_16/external/cifra_AES128-EAX/cifra_eax_aes.c:226-230 | the packed word trick is the matrix product of section 5.1.3 of FIPS 197 |
| AesColumns.PolyMul2Bytes | nrf_sdk_16/external/cifra_AES128-EAX/cifra_eax_aes.c:219-224 | one word operation multiplies four bytes by x at once |
| AesField.XtimeReduces | nrf_sdk_16/external/cifra_AES128-EAX/cifra_eax_aes.c:219-224 | on one byte that is the shift with conditional reduction of section 4.2.1 of FIPS 197 |
| AesField.SBoxIsAffineOfInverse | nrf_sdk_16/external/cifra_AES128-EAX/cifra_eax_aes.c:23-45 | the table is the affine image of the field inverse (section 5.1.1 of FIPS 197) |
| AesField.GfMulIsProduct | nrf_sdk_16/external/cifra_AES128-EAX/cifra_eax_aes.c:23-45 | the product meant there is that of section 4.2 of FIPS 197: a factor x^k doubles k times, and sums are multiplied term by term |
| SubstitutionTables.InverseTableUndoesTable | nrf_sdk_16/external/cifra_AES128-EAX/cifra_eax_aes.c:279-301 | S_inv undoes S on all 256 bytes |
| SubstitutionTables.TableUndoesInverseTable | nrf_sdk_16/external/cifra_AES128-EAX/cifra_eax_aes.c:279-301 | S undoes S_inv |
| AesContexts.BlockRoundTrip | nrf_sdk_16/external/cifra_AES128-EAX/cifra_eax_aes.c:240-396 | the byte-level block functions undo each other |
| AesContexts.AesContext.ExpandKey | nrf_sdk_16/external/cifra_AES128-EAX/cifra_eax_aes.c:105-139 | for 16, 24 and 32-byte keys the loop with running counters computes the key expansion of section 5.2 of FIPS 197 |
| AesContexts.AesContext.Init | nrf_sdk_16/external/cifra_AES128-EAX/cifra_eax_aes.c:141-171 | 10, 12 or 14 rounds by key length, and the expanded key |
| AesContexts.CountersDivide | nrf_sdk_16/external/cifra_AES128-EAX/cifra_eax_aes.c:119-130 | the running counters are i / nk and i mod nk |
| AesContexts.ScheduleTemp | nrf_sdk_16/external/cifra_AES128-EAX/cifra_eax_aes.c:124-135 | the round constant is never read past its table |
| Bitops.RotateBytes | nrf_sdk_16/external/cifra_AES128-EAX/cifra_eax_aes.c:71-80 | rot_word turns [a0, a1, a2, a3] into [a1, a2, a3, a0] |
| AesContexts.RconIsPowerOfX | nrf_sdk_16/external/cifra_AES128-EAX/cifra_eax_aes.c:47-51 | round constant j is x^(j-1) |
| AesContexts.AesContext.Encrypt | nrf_sdk_16/external/cifra_AES128-EAX/cifra_eax_aes.c:240-276 | the in-place rounds compute the cipher, also when input and output are one buffer |
| AesContexts.AesContext.Decrypt | nrf_sdk_16/external/cifra_AES128-EAX/cifra_eax_aes.c:360-396 | the in-place inverse rounds compute the inverse cipher |
| Bitops.SelectU8 | nrf_sdk_16/external/cifra_AES128-EAX/bitops.h:188-199 | the scan that touches every table entry returns exactly the direct lookup |
| Bitops.SelectU8x4 | nrf_sdk_16/external/cifra_AES128-EAX/bitops.h:203-226 | four scans at once do |
| Bitops.MaskU32IsEquality | nrf_sdk_16/external/cifra_AES128-EAX/bitops.h:156-161 | all ones exactly for equal words |
| Bitops.MaskU8IsLowByteEquality | nrf_sdk_16/external/cifra_AES128-EAX/bitops.h:164-169 | all ones exactly when the low bytes agree, which is less than the comment promises |
| Bitops.MaskU8MissesHighBytes | nrf_sdk_16/external/cifra_AES128-EAX/bitops.h:164-169 | 0 and 256 are taken for equal |
| Gf128.MulIsDoubleSum | nrf_sdk_16/external/cifra_AES128-EAX/gf128.c:85-113 | the 128-step loop computes the symmetric double sum over bit positions of iterated doublings (section 6.3 of NIST SP 800-38D) |
| Gf128.MulCommutative | nrf_sdk_16/external/cifra_AES128-EAX/gf128.c:85-113 | the product is commutative |
| Gf128.MulLinearLeft | nrf_sdk_16/external/cifra_AES128-EAX/gf128.c:85-113 | linear over XOR in the first factor |
| Gf128.MulLinearRight | nrf_sdk_16/external/cifra_AES128-EAX/gf128.c:85-113 | linear over XOR in the second factor |
| Gf128.MulAssociative | nrf_sdk_16/external/cifra_AES128-EAX/gf128.c:85-113 | and associative |
| Gf128.MulOne | nrf_sdk_16/external/cifra_AES128-EAX/gf128.c:85-113 | the leftmost bit alone is its unit |
| Gf128Words.MulWords | nrf_sdk_16/external/cifra_AES128-EAX/gf128.c:85-113 | the loop on words with masked selection computes that product, arguments aliased or not |
| Gf128Words.SourceBitIsCoefficient | nrf_sdk_16/external/cifra_AES128-EAX/gf128.c:97-100 | the bit extracted from word i / 32 is coefficient i |
| Gf128Words.DoubleLeWords | nrf_sdk_16/external/cifra_AES128-EAX/gf128.c:57-73 | the running borrow and masked reduction are multiplication by x |
| Gf128Words.DoubleBeShiftsAndReduces | nrf_sdk_16/external/cifra_AES128-EAX/gf128.c:38-54 | the other doubling is the subkey step of section 2.3 of RFC 4493 |
| Gf128Words.Double | nrf_sdk_16/external/cifra_AES128-EAX/gf128.c:38-54 | and the loop on words computes it, in place as well |
| Gf128Words.AddWords | nrf_sdk_16/external/cifra_AES128-EAX/gf128.c:76-82 | addition is XOR of the words, arguments aliased or not |
| Gf128Words.SelectXor128 | nrf_sdk_16/external/cifra_AES128-EAX/bitops.h:229-241 | adds the chosen one of two blocks |
| Blockwise.RunIsConsume | nrf_sdk_16/external/cifra_AES128-EAX/blockwise.c:24-32 | however a byte string is cut into calls, blocks processed and bytes kept are those of the whole string |
| Blockwise.ConsumeFoldsBlocks | nrf_sdk_16/external/cifra_AES128-EAX/blockwise.c:34-100 | the callback sees exactly the whole blocks in order, the buffer keeps exactly the remainder |
| Blockwise.LastBlockGoesToLast | nrf_sdk_16/external/cifra_AES128-EAX/blockwise.c:34-100 | the final callback runs at most once and last, exactly for a nonempty whole number of blocks |
| Blockwise.BlocksAt | nrf_sdk_16/external/cifra_AES128-EAX/blockwise.c:34-100 | block k is bytes kn to (k+1)n: nothing lost, repeated or reordered |
| Blockwise.ConsumeInTwo | nrf_sdk_16/external/cifra_AES128-EAX/blockwise.c:34-100 | a cut between two calls makes no difference |
| Blockwise.Accumulator.AccumulateFinal | nrf_sdk_16/external/cifra_AES128-EAX/blockwise.c:34-100 | the three-phase buffer code does that |
| Blockwise.Accumulator.AccByte | nrf_sdk_16/external/cifra_AES128-EAX/blockwise.c:132-162 | n equal bytes, the fill-once shortcut included |
| Blockwise.Accumulator.AccPad | nrf_sdk_16/external/cifra_AES128-EAX/blockwise.c:164-197 | the padding pattern as if accumulated in one piece, for every length |
| Cmac.StreamingIsOneShot | nrf_sdk_16/external/cifra_AES128-EAX/cifra_cmac.c:108-143 | however a message is cut into updates (the last one nonempty unless the message is empty) the tag is that of section 2.4 of RFC 4493, finalised, every block processed once |
| Cmac.NotFinalisedBefore | nrf_sdk_16/external/cifra_AES128-EAX/cifra_cmac.c:83-143 | the final-block step never runs before the final update |
| Cmac.FinishIsTagFrom | nrf_sdk_16/external/cifra_AES128-EAX/cifra_cmac.c:75-143 | the padded key is used exactly when the message is empty or not a whole number of blocks |
| Cmac.Subkeys | nrf_sdk_16/external/cifra_AES128-EAX/cifra_cmac.c:25-48 | the two keys are the encrypted zero block doubled once and twice |
| Cmac.DoubleIsDoubled | nrf_sdk_16/external/cifra_AES128-EAX/cifra_cmac.c:33-41 | doubling through words is, byte by byte, the shift to the left by one bit with 0x87 added to the last byte when a bit falls out (section 2.3 of RFC 4493) |
| Cmac.KeysAreDoubled | nrf_sdk_16/external/cifra_AES128-EAX/cifra_cmac.c:25-48 | the keys are the encrypted block of sixteen zero bytes doubled that way once and twice |
| CmacStreams.CmacStream.Update | nrf_sdk_16/external/cifra_AES128-EAX/cifra_cmac.c:108-143 | an update consumes its data; a final one finishes the tag |
| CmacStreams.CmacStream.Sign | nrf_sdk_16/external/cifra_AES128-EAX/cifra_cmac.c:50-57 | one-shot signing gives the tag of RFC 4493 |
| CmacStreams.PadIsPadding | nrf_sdk_16/external/cifra_AES128-EAX/cifra_cmac.c:136-142 | the accumulator's padding is 10* padding |
| Ctr.ChunkingInvariance | nrf_sdk_16/external/cifra_AES128-EAX/modes.c:87-94 | every split across calls gives the output of one call |
| Ctr.CryptTwice | nrf_sdk_16/external/cifra_AES128-EAX/modes.c:87-94 | applying the mode twice from the same start is the identity |
| Ctr.CryptBytes | nrf_sdk_16/external/cifra_AES128-EAX/modes.c:80-94 | output byte i is input byte i XOR byte i mod 16 of the encrypted block whose value is nonce + i / 16 mod 2^128; the first one is the nonce itself |
| Ctr.AdvanceAdds | nrf_sdk_16/external/cifra_AES128-EAX/modes.c:80-85 | counter block k is (nonce + k) mod 2^128 (section 6.5 of NIST SP 800-38A) |
| Ctr.IncrementAddsOne | nrf_sdk_16/external/cifra_AES128-EAX/bitops.h:260-271 | incr_be adds one modulo 256^len |
| Ctr.CtrContext.Cipher | nrf_sdk_16/external/cifra_AES128-EAX/blockwise.c:102-130 | byte i of a call is input XOR keystream byte position + i, in place or not, with the unused key material below a block between calls |
| Cbc.CbcRoundTrip | nrf_sdk_16/external/cifra_AES128-EAX/modes.c:31-59 | decrypting what was encrypted gives the message back, for any block function and its inverse |
| Cbc.AesCbcRoundTrip | nrf_sdk_16/external/cifra_AES128-EAX/modes.c:31-59 | the same for AES, under any round keys |
| Cbc.CbcInTwo | nrf_sdk_16/external/cifra_AES128-EAX/modes.c:31-44 | cutting a message between calls changes nothing, since the context keeps the link |
| Cbc.CbcContext.EncryptBlocks | nrf_sdk_16/external/cifra_AES128-EAX/modes.c:31-44 | the loop computes the chained blocks and keeps the last link, in place or not, and touches nothing behind them |
| Cbc.CbcContext.DecryptBlocks | nrf_sdk_16/external/cifra_AES128-EAX/modes.c:46-59 | between different buffers the loop computes the unchained blocks; in place it links to plaintext instead of ciphertext |
| Cbc.InPlaceIsRightExactly | nrf_sdk_16/external/cifra_AES128-EAX/modes.c:46-59 | decrypting in place is right if and only if the inverse block function takes every ciphertext block but the last to its XOR with the block before it |
| Cbc.InPlaceKeepsBlocks | nrf_sdk_16/external/cifra_AES128-EAX/modes.c:46-59 | that is, every block but the last is its own plaintext |
| Cbc.InPlaceCanGoWrong | nrf_sdk_16/external/cifra_AES128-EAX/modes.c:46-59 | two zero blocks under the identity are decrypted wrongly in place |
| Eax.RoundTrip | nrf_sdk_16/external/cifra_AES128-EAX/eax.c:45-115 | decryption of an encryption is accepted and restores the plaintext, for every block function, nonce, header and tag length 1..16 |
| Eax.AesEaxRoundTrip | nrf_sdk_16/external/cifra_AES128-EAX/eax.c:45-115 | the same for AES under every key size |
| Eax.TagIsSum | nrf_sdk_16/external/cifra_AES128-EAX/eax.c:21-78 | byte i of the tag is the XOR of byte i of the CMACs of nonce, header and ciphertext behind the blocks whose values are 0, 1 and 2 |
| Eax.CiphertextBytes | nrf_sdk_16/external/cifra_AES128-EAX/eax.c:57-66 | byte i of the ciphertext is byte i of the plaintext XOR byte i mod 16 of the encrypted block whose value is the CMAC of the nonce + i / 16 mod 2^128 |
| Eax.Encrypt | nrf_sdk_16/external/cifra_AES128-EAX/eax.c:45-78 | the driver code computes ciphertext and truncated XOR of the three tweaked CMACs |
| Eax.Decrypt | nrf_sdk_16/external/cifra_AES128-EAX/eax.c:80-115 | returns 0 exactly when the supplied tag is that XOR over the supplied ciphertext; otherwise the output is untouched |
| Eax.CmacComputeN | nrf_sdk_16/external/cifra_AES128-EAX/eax.c:21-43 | tweak block and data as separate updates give the CMAC of their concatenation |
| Fnmatch.FnMatch | nrf_sdk_16/external/fnmatch/fnmatch.c:204-207 | for every pattern and string and every combination of NOESCAPE, PATHNAME, CASEFOLD and LEADING_DIR: 0 exactly when the declarative glob relation holds, the string is overrun exactly when a lone escape at the end of the pattern meets the end of the string, FNM_NORES only beyond 63 star groups, and then exactly when the recursion with budget 64 says so |
| Glob.RunsOverExactly | nrf_sdk_16/external/fnmatch/fnmatch.c:187-198 | a pattern that ends in a lone escape overruns the string if and only if what stands before the escape matches all of it and does not end in a star |
| Glob.OverNeedsDangling | nrf_sdk_16/external/fnmatch/fnmatch.c:187-198 | no other pattern overruns, and such a pattern never matches |
| Fnmatch.FnmatchX | nrf_sdk_16/external/fnmatch/fnmatch.c:102-202 | the loop over both texts is the recursion on what is left of them, for every budget |
| Fnmatch.AnswerIsRight | nrf_sdk_16/external/fnmatch/fnmatch.c:102-202 | each verdict of that recursion is right, the overrun included, and running out of the budget needs that many star groups |
| Fnmatch.BudgetRunsOut | nrf_sdk_16/external/fnmatch/fnmatch.c:112-171 | as many star groups as the budget are too many, although the string matches: "*a" n times over against n or more letters |
| Fnmatch.AtStar | nrf_sdk_16/external/fnmatch/fnmatch.c:132-171 | collapsing stars, the end-of-pattern case and the jump to the next slash either decide or leave the question as it is |
| Fnmatch.TryEach | nrf_sdk_16/external/fnmatch/fnmatch.c:157-171 | the retry loop asks the rest of the pattern at every place the star may reach, and the first verdict that is not a mismatch counts |
| Fnmatch.RangeMatch | nrf_sdk_16/external/fnmatch/fnmatch.c:56-99 | bracket sets: negation, ranges, folding, first-position ']', unfinished sets and the fallback to a literal '[' |
| Fnmatch.TakeOne | nrf_sdk_16/external/fnmatch/fnmatch.c:121-198 | one character against '?', a bracket, an escape or a literal, the terminators compared when a lone escape meets the end |
| GlobMeaning.PlainPattern | nrf_sdk_16/external/fnmatch/fnmatch.c:102-202 | a pattern of plain and escaped characters matches exactly what it spells, up to letter case under CASEFOLD, and under LEADING_DIR also what goes on with a slash |
| GlobMeaning.BracketTakes | nrf_sdk_16/external/fnmatch/fnmatch.c:56-99 | a written set of characters and ranges, plain or negated by "!" or "^", takes exactly one character that is or is not among them, and no slash under PATHNAME |
| GlobMeaning.RangeTakes | nrf_sdk_16/external/fnmatch/fnmatch.c:84-96 | so [a-b] takes exactly the characters from a to b, both included, and [!a-b] the others |
| GlobMeaning.QuestionTakes | nrf_sdk_16/external/fnmatch/fnmatch.c:121-131 | a question mark takes any one character, but no slash under PATHNAME |
| GlobMeaning.StarTakes | nrf_sdk_16/external/fnmatch/fnmatch.c:132-171 | a star takes any run of characters, within a path component under PATHNAME |
| GlobMeaning.CaseIsIgnored | nrf_sdk_16/external/fnmatch/fnmatch.c:46-52 | under CASEFOLD the answer depends on the letter case of neither the pattern nor the string, overruns included |
| GlobMeaning.FoldIsCase | nrf_sdk_16/external/fnmatch/fnmatch.c:46-52 | two characters are folded alike exactly when they are the same, or under CASEFOLD the same letter in either case |
| Glob.StarsCollapse | nrf_sdk_16/external/fnmatch/fnmatch.c:133-136 | several stars mean one |
| Glob.StarBeforeSlash | nrf_sdk_16/external/fnmatch/fnmatch.c:151-155 | under PATHNAME a star before a slash reaches the first slash and no other |
| Glob.StarAtEnd | nrf_sdk_16/external/fnmatch/fnmatch.c:143-150 | a trailing star matches what may still be matched |
| Glob.StarTakesOne | nrf_sdk_16/external/fnmatch/fnmatch.c:157-171 | a star either ends here or takes one more permitted character |
| JsonRoundTrip.PrintThenParse | nrf_sdk_16/external/cJSON/cJSON.c:387-690 | parsing either printed form gives the tree back, numbers compared on the integer (the integer build leaves the floating value at zero) |
| JsonRoundTrip.ReprintsExactlyWhenOnlyZeros | nrf_sdk_16/external/cJSON/cJSON.c:122-135 | printing a parsed tree again gives the same text exactly when every number in it is zero |
| JsonRoundTrip.FiveReprintsAsZero | nrf_sdk_16/external/cJSON/cJSON.c:168-196 | the number five prints as 5, is read back, and reprints as 0 |
| JsonRoundTrip.ValueRoundTrip | nrf_sdk_16/external/cJSON/cJSON.c:387-399 | each value at any depth is parsed from its text and leaves what follows |
| JsonRoundTrip.MembersRoundTrip | nrf_sdk_16/external/cJSON/cJSON.c:545-579 | so are the members of an object, in order |
| JsonRoundTrip.StringRoundTrip | nrf_sdk_16/external/cJSON/cJSON.c:213-270 | unescaping undoes escaping for every string without NUL |
| JsonRoundTrip.NumberRoundTrip | nrf_sdk_16/external/cJSON/cJSON.c:122-135 | every int but the least one is read back |
| JsonRoundTrip.LargeNumberOverflows | nrf_sdk_16/external/cJSON/cJSON.c:122-135 | a number above 2^31 - 1, with or without a minus, leaves the range of an int while it is read; nothing is promised then |
| JsonMinify.MinifiedPrint | nrf_sdk_16/external/cJSON/cJSON.c:767-782 | minifying the pretty or the compact form gives the compact form |
| JsonMinify.StringIsKept | nrf_sdk_16/external/cJSON/cJSON.c:778 | string literals are kept whatever blanks, slashes and escaped quotes are inside |
| JsonLayout.PrettyIsLayout | nrf_sdk_16/external/cJSON/cJSON.c:402-690 | the indented form of every tree is the layout of its compact form: one pass over the compact characters that puts members on lines of their own, indented by the brackets open around them, a tab behind the colon, a space behind the comma of an array, and the brackets of an empty object on two lines, the second one a tab short |
| JsonLayout.ValueIsLaid | nrf_sdk_16/external/cJSON/cJSON.c:402-690 | the same for a value at any depth inside any brackets, whatever follows |
| JsonLayout.NumberIsSpelled | nrf_sdk_16/external/cJSON/cJSON.c:168-196 | a number is spelled without zeros in front, with a minus exactly if it is negative, and reads as its integer; one whose floating value is zero is spelled 0 |
| JsonLayout.StringIsSpelled | nrf_sdk_16/external/cJSON/cJSON.c:277-337 | in a printed string every character stands as it is but quotes, backslashes and control characters, which have their two-character escape or, without one, their two digits in base 16 |
| JsonMinify.MinifyInPlace | nrf_sdk_16/external/cJSON/cJSON.c:767-782 | the rewriting loop leaves the minified text and its terminator at the front of the buffer |
| JsonMinify.MinifyStep | nrf_sdk_16/external/cJSON/cJSON.c:770-780 | each turn keeps what is still to come and what was written in step |
| JsonParser.ParseWithOpts | nrf_sdk_16/external/cJSON/cJSON.c:354-368 | the recursive-descent parser computes the specified tree, verdict and end position |
| JsonParser.ParseValueAt | nrf_sdk_16/external/cJSON/cJSON.c:387-399 | dispatch on the first character |
| JsonParser.ParseArrayAt | nrf_sdk_16/external/cJSON/cJSON.c:436-462 | arrays: first entry, commas, closing bracket, failure |
| JsonParser.ParseObjectAt | nrf_sdk_16/external/cJSON/cJSON.c:545-579 | objects likewise |
| JsonParser.ParseStringAt | nrf_sdk_16/external/cJSON/cJSON.c:213-270 | strings decoded into a buffer sized beforehand, surrogate pairs as UTF-8, broken escapes skipped; undefined exactly when the count or the skipping runs past the text or the count falls short of what is decoded |
| JsonEscapes.CountSufficesExactly | nrf_sdk_16/external/cJSON/cJSON.c:213-270 | behind anything that went well, a unicode escape is safe whatever follows it if and only if the counting loop passes the four skipped characters in step: no quote among them that it stops at, no backslash at their end that takes along what comes next |
| JsonEscapes.InStepFits | nrf_sdk_16/external/cJSON/cJSON.c:213-270 | a string that the count goes along with throughout is never read behind its terminator, and its buffer suffices |
| JsonEscapes.BrokenEscapeIsSkipped | nrf_sdk_16/external/cJSON/cJSON.c:198-240 | a unicode escape without four hex digits loses the four characters behind it |
| JsonEscapes.SkippedQuoteOverruns | nrf_sdk_16/external/cJSON/cJSON.c:216-238 | with a quote first among them and two plain characters behind them the buffer is too small: the result is undefined |
| JsonEscapes.UnicodeUnits | nrf_sdk_16/external/cJSON/cJSON.c:218-250 | the bytes of a code point never need more room than its escape was counted for |
| JsonUnicode.StringStandsFor | nrf_sdk_16/external/cJSON/cJSON.c:198-270 | a quoted text of plain characters in UTF-8, short escapes, escapes of any code unit from 1 in digits of any letter case, and escapes of surrogate pairs is parsed to a text that decodes from UTF-8 (section 3 of RFC 3629) to the code points they stand for |
| JsonUnicode.Utf8IsPoint | nrf_sdk_16/external/cJSON/cJSON.c:249-258 | what the parser writes for a code point is its one encoding by section 3 of RFC 3629 |
| JsonParser.ParseNumberAt | nrf_sdk_16/external/cJSON/cJSON.c:122-135 | sign, one zero skipped, and digits only if the next is 1 to 9 |
| JsonRoundTrip.LeadingZeros | nrf_sdk_16/external/cJSON/cJSON.c:126-128 | one zero in front of a number is skipped; a second one is left unread |
| JsonRoundTrip.SecondZeroIsRefused | nrf_sdk_16/external/cJSON/cJSON.c:354-462 | so no array may begin with two zeros, nor a text that has to end behind its value |
| JsonParsed.ParsedTreesGoRound | nrf_sdk_16/external/cJSON/cJSON.c:354-433 | every tree that parsing any text returns can be printed, its print is parsed to the tree with its numbers zeroed, and with the floating values given back to that very tree |
| JsonParser.WriteUtf8 | nrf_sdk_16/external/cJSON/cJSON.c:249-258 | writing backwards through the fall-through cases spells the code point |
| JsonBuffer.PrintBuffered | nrf_sdk_16/external/cJSON/cJSON.c:376-383 | for every positive prebuffer the text is that of the allocating printer |
| JsonBuffer.PrintWhole | nrf_sdk_16/external/cJSON/cJSON.c:373-374 | the allocating printer gives the specified text |
| JsonBuffer.PrintBuffer.PrintValue | nrf_sdk_16/external/cJSON/cJSON.c:402-433 | offset and pending tail delimit what was there and then the value |
| JsonBuffer.PrintBuffer.PrintArray | nrf_sdk_16/external/cJSON/cJSON.c:465-499 | with the buffer the array text follows what was there |
| JsonBuffer.PrintBuffer.PrintObject | nrf_sdk_16/external/cJSON/cJSON.c:582-639 | so does the object text |
| JsonBuffer.PrintBuffer.Ensure | nrf_sdk_16/external/cJSON/cJSON.c:142-157 | growing makes the room asked for and keeps everything written |
| JsonBuffer.PrintBuffer.Update | nrf_sdk_16/external/cJSON/cJSON.c:159-165 | the end of the text is found by its terminator |
| JsonGrowth.Pow2gt | nrf_sdk_16/external/cJSON/cJSON.c:138 | or-ing shifted copies gives the least power of two not below its argument |
| JsonGrowth.SmearDoubles | nrf_sdk_16/external/cJSON/cJSON.c:138 | each or doubles the run of ones below the leading bit |
| JsonPrinter.PrintAlloc | nrf_sdk_16/external/cJSON/cJSON.c:402-433 | without a buffer the text is complete and terminated inside its allocation |
| JsonPrinter.PrintArrayAlloc | nrf_sdk_16/external/cJSON/cJSON.c:500-541 | entries printed first, then composed: the precomputed length suffices |
| JsonPrinter.ObjectFits | nrf_sdk_16/external/cJSON/cJSON.c:651-661 | the length computed for an object suffices for its text and terminator |
| JsonPrinter.ItemsFit | nrf_sdk_16/external/cJSON/cJSON.c:507-517 | the length computed for an array suffices |
| JsonText.StringSize | nrf_sdk_16/external/cJSON/cJSON.c:277-309 | the counting loop finds whether escapes are needed and the escaped length |
| JsonText.WriteString | nrf_sdk_16/external/cJSON/cJSON.c:311-337 | the writing loop spells the quoted string in that length |
| JsonText.NumberLength | nrf_sdk_16/external/cJSON/cJSON.c:168-196 | twenty-one characters hold any printed int |
| Bmp3.Dev.SetSensorSettings | bmp3.c:870-906 | on success every register is the read-modify-write of the selected fields, rate clamped; when the rate does not fit only the power control register may have been written |
| Bmp3.SettingsTakeEffect | bmp3.c:870-906 | after success each selected field holds its masked value and every other field what it held |
| Bmp3.OtherBitsStay | bmp3.c:870-906 | no bit outside the selected fields changes in any register |
| Bmp3.Dev.SetThenGetBack | bmp3.c:870-934 | setting and then getting gives back every selected field as requested, cut to its width and the rate limited, and every other field as the device had it |
| Bmp3.Dev.GetSensorSettings | bmp3.c:913-934 | every field is read from its own register |
| Bmp3.Dev.SetOdrFilter | bmp3.c:1877-1929 | the compacted burst sets the three registers, or nothing is written when the rate does not fit in normal mode |
| Bmp3.Dev.SetPwrCtrl | bmp3.c:1842-1871 | sets the selected enable bits, keeps the mode |
| Bmp3.Dev.SetIntCtrl | bmp3.c:1936-1978 | sets the selected interrupt fields only |
| Bmp3.Dev.SetAdvance | bmp3.c:1984-2012 | sets the selected watchdog fields only |
| Bmp3.FilledIsUpdated | bmp3.c:2145-2209 | the selected registers compacted to the front are those that need writing |
| Bmp3.BurstIsWrites | bmp3.c:1758-1767 | a device that decodes the interleaved burst and ignores the unpaired byte ends as after single writes |
| Bmp3.Dev.SetRegs | bmp3.c:805-863 | writing registers, over either interface, is that |
| Bmp3.Dev.GetRegs | bmp3.c:755-799 | reading strips the dummy bytes of SPI |
| Bmp3.Dev.InterleaveRegAddr | bmp3.c:1758-1767 | addresses and data alternate after the first byte |
| Bmp3.Dev.ValidateOsrAndOdr | bmp3.c:2036-2070 | accepts exactly when the measuring time is below the sampling period |
| Bmp3.RateTable | bmp3.c:2036-2070 | the index into the period table is in range unless, in normal mode, filter or oversampling settings are written and an unselected rate is beyond the table |
| Bmp3.PeriodsAreDoubled | bmp3.c:2046-2050 | entry k of the period table is 5000 microseconds times 2^k |
| Bmp3.PowBmp3 | bmp3.c:2516-2527 | the loop computes the power of two in 32 bits, which is zero from the 32nd on |
| Bmp3Fields.SetThenGet | bmp3_defs.h:403-416 | a field written is read back, cut to its width |
| Bmp3Fields.SetKeepsOthers | bmp3_defs.h:403-409 | writing a field changes no bit outside it |
| Bmp3Fields.GetOfOther | bmp3_defs.h:328-386 | and the other fields of its register are untouched |
| Bmp3Fields.ExpectedFields | bmp3.c:1842-2012 | after the updates of one register each field holds what its selection says |
| Bmp3Fields.SelectionTable | bmp3.c:1842-2012 | which bit of the numeric selection mask writes which bits of which register address, shifted from which setting |
| Bmp3Fields.CoverTable | bmp3.c:1842-2012 | which bits of which register a selection can change at all |
| Bmp3Fields.GroupTable | bmp3.c:870-906 | which bits of the mask make up the four groups that are written together |
| FprintfFormat.Fmt | nrf_sdk_16/external/fprintf/nrf_fprintf_format.c:590-807 | the scan of the format string prints what the format means for its arguments, and flushes at the end if so configured |
| FprintfFormat.WrittenFormat | nrf_sdk_16/external/fprintf/nrf_fprintf_format.c:611-801 | a format written from literal characters and directives (flags, width, precision, conversion) means exactly what they say, each consuming its own argument |
| FprintfFormat.WrittenDirective | nrf_sdk_16/external/fprintf/nrf_fprintf_format.c:622-709 | flags, width and precision of a written directive are read back, and scanning goes on right behind it |
| FprintfFormat.NumberRead | nrf_sdk_16/external/fprintf/nrf_fprintf_format.c:654-692 | a width or precision is read up to the first character that is no digit |
| FprintfFormat.PrintDirective | nrf_sdk_16/external/fprintf/nrf_fprintf_format.c:620-796 | one directive prints its text and leaves the rest of the format and of the arguments |
| FprintfFormat.PrintConversion | nrf_sdk_16/external/fprintf/nrf_fprintf_format.c:714-793 | the conversion switch, unknown conversions printing nothing |
| FprintfMeaning.IntConversion | nrf_sdk_16/external/fprintf/nrf_fprintf_format.c:723-732 | %d and %i: the digits read as the magnitude of the int that the word stands for, with a minus exactly if it is negative and a plus exactly if it is not and one is asked for; blanks stand on one side only, zeros fill the field only when they are to, and the field is exactly as wide as asked for or as needed |
| FprintfMeaning.PlainInt | nrf_sdk_16/external/fprintf/nrf_fprintf_format.c:723-732 | "%d" alone: the sign and no digit too many |
| FprintfMeaning.WordConversion | nrf_sdk_16/external/fprintf/nrf_fprintf_format.c:733-751 | %u, %x and %X: the digits read as the word, and there is never a sign |
| FprintfMeaning.PointerConversion | nrf_sdk_16/external/fprintf/nrf_fprintf_format.c:758-763 | %p: 0x and eight digits that read as the word, whatever the flags |
| FprintfMeaning.CharConversion | nrf_sdk_16/external/fprintf/nrf_fprintf_format.c:715-722 | %c: the character that the low byte of the word is |
| FprintfMeaning.StringConversion | nrf_sdk_16/external/fprintf/nrf_fprintf_format.c:752-757 | %s: the string, with the blanks it takes to fill the field on one side |
| FprintfMeaning.PercentConversion | nrf_sdk_16/external/fprintf/nrf_fprintf_format.c:764-766 | %%: a percent sign, and no argument is taken |
| Fprintf.Context.IntPrint | nrf_sdk_16/external/fprintf/nrf_fprintf_format.c:259-339 | sign, padding and digits of every int (but the least) in any base up to 16, whatever the buffer size |
| Fprintf.Context.UnsignedPrint | nrf_sdk_16/external/fprintf/nrf_fprintf_format.c:154-257 | padding and digits of every 32-bit value |
| Fprintf.PrintedDigitsRead | nrf_sdk_16/external/fprintf/nrf_fprintf_format.c:154-257 | the digits printed read as the magnitude |
| Fprintf.DigitCountFits | nrf_sdk_16/external/fprintf/nrf_fprintf_format.c:172-177 | the width loop finds the least width that holds the value |
| Fprintf.NumeralTop | nrf_sdk_16/external/fprintf/nrf_fprintf_format.c:236-242 | dividing from the highest power down yields the digits that dividing by the base from below defines |
| Fprintf.FindDivisor | nrf_sdk_16/external/fprintf/nrf_fprintf_format.c:206-232 | the divisor found is the power of the highest digit, and no product leaves 32 bits |
| Fprintf.IntTextWidth | nrf_sdk_16/external/fprintf/nrf_fprintf_format.c:259-339 | a field is as wide as asked for or as its content needs, sign included |
| Fprintf.Context.StringPrint | nrf_sdk_16/external/fprintf/nrf_fprintf_format.c:109-152 | strings are padded on the right or left side |
| Fprintf.Context.BufferAdd | nrf_sdk_16/external/fprintf/nrf_fprintf_format.c:93-107 | a character, with a carriage return before a line feed if so configured, joins what was printed |
| Fprintf.Context.Flush | nrf_sdk_16/external/fprintf/nrf_fprintf.c:47-60 | flushing hands over the buffer and keeps what was printed |

## Left out

Contracts stated weaker than the code or its promise:

- PbRoundTrip.RoundTrip: does not cover encodings of 2^32 bytes or more, since length prefixes are read into 32 bits; the target's memory holds no such message.
- PbOStream.OStream.Encode: requires each submessage that is sent to be shorter than 2^32 bytes, where the 32-bit `size_t` of the counting stream would wrap; messages that are shorter as a whole meet this (`PbOStream.ShortIfWholeIsShort`).
- PbEvolution.ReaderWithoutEntry: the entry removed is not the only one between two oneofs, which would then have to become one oneof; adjacent distinct oneofs are not modelled.
- PbDecoder.DecodeMessage: requires fewer than 64 required fields, and not 32, since the final check then shifts a word by its width; a message is a value, so the partly written struct after a failure is not described.
- PbIterator.FieldIter.FindTag: in an empty descriptor the terminator answers to tag 0; the decoder never asks for tag 0.
- CmacStreams.CmacStream.Update: counts processed bytes without the wrap of `size_t`, which matters only for an empty final update after exactly 2^32 bytes, and that the code's own assertion forbids otherwise.
- CmacStreams.CmacStream.Final: returns the whole block; the caller's truncation is in `Eax`.
- Ctr.CtrContext.Cipher: models the counter over the whole block; `cf_ctr_custom_counter` is not modelled.
- Eax.Decrypt: requires a tag length of 1 to 16, as the code asserts.
- Fnmatch.FnMatch: does not model FNM_PERIOD, because the recursive call drops that flag for the rest of the pattern; what the code does once it has read behind the string is not described; characters are unsigned, as on the target.
- JsonRoundTrip.PrintThenParse: numbers are ints other than the least one, with a floating value that is zero or equal to them; other floating values, and texts outside the byte range, are not modelled.
- JsonParser.ParseWithOpts: requires a text on which the C code is defined: no number that overflows an int, no string whose count or escapes run past the terminator, and none that decodes to more bytes than were counted (the cases that `Json.ParseString` calls undefined).
- JsonBuffer.PrintBuffered: requires the text and 21 characters more to fit 2^30, beyond which the growth policy overflows an int.
- JsonMinify.MinifyInPlace: requires that comments and literals end before the text does; otherwise the code reads past the terminator.
- Bmp3.Dev.SetSensorSettings: the bus never fails, and in normal mode an unselected rate is within the table of periods, which the code would otherwise read out of bounds.
- Fprintf.Context.IntPrint: does not cover the least int, whose negation overflows, or precisions whose power of the base exceeds 32 bits.
- FprintfFormat.Fmt: requires a format on which the C code is defined: an argument of the right kind for every conversion, no directive cut short by the end of the format, and the ranges of `Fprintf.Context.IntPrint`.

Not modelled:

- nanopb: callbacks, extension fields, pointer fields and `PB_ENABLE_MALLOC`, delimited messages, adjacent distinct oneofs, error message texts.
- cifra: GCM, CCM and OCB (declared without code here), `cf_ctr_discard_block`, `copy_bytes_unaligned`, little-endian helpers; claims about timing and side channels; clearing of contexts.
- cJSON: linked list surgery, duplication, deletion and lookup; nodes are values, so `next` and `prev` links are not described; failing allocations; the error pointer.
- BMP3: FIFO, compensation, calibration, power mode changes and status registers, which are other layers of the driver.
- nrf_fprintf: floating point, which the build leaves out; null pointers; the user's `fwrite` is a growing text, and variable arguments are a sequence of words and strings.
- The application itself: buses, SD card, UART, timers, watchdog, board files, the other sensors' drivers and the signal processing script are input and output or floating point.
