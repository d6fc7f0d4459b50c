/** Characters, slices and concatenations that the text libraries share. */
module Texts {

  predicate IsDigit(c: char) { '0' <= c <= '9' }

  /** The character a pointer reads: the terminator at the end of the text. */
  function CharAt(text: string, at: nat): char
    requires at <= |text|
  {
    if at < |text| then text[at] else '\0'
  }

  lemma Drop(text: string, at: nat, n: nat)
    requires at + n <= |text|
    ensures text[at..][n..] == text[at + n..]
  {
  }

  lemma Joins(a: string, b: string, c: string)
    ensures a + b + c == a + (b + c)
  {
  }

  lemma Nothing(s: string)
    ensures "" + s == s && s + "" == s
  {
  }
}
