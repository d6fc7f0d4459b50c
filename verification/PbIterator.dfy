/** pb_common.c: the cyclic iterator over a message descriptor. */
module PbIterator {
  import opened PbWire
  import opened PbTypes
  import opened Options

  class FieldIter {
    const start: seq<FieldDef>
    /** The current entry; the terminator stands at |start|, where only an empty descriptor rests. */
    var pos: nat
    /** The slot that holds the entry's data (pData): entries of a oneof run share the first one's. */
    var data: nat
    var requiredIndex: nat

    ghost predicate Valid()
      reads this
    {
      && (if start == [] then pos == 0 else pos < |start|)
      && requiredIndex == RequiredBefore(start, pos)
      && (pos < |start| ==> data == Leader(start, pos))
      && forall j :: 0 <= j < |start| ==> start[j].tag != 0
    }

    function TagHere(): nat
      requires pos <= |start|
      reads this
    {
      if pos < |start| then start[pos].tag else 0
    }

    constructor (fields: seq<FieldDef>)
      requires forall j :: 0 <= j < |fields| ==> fields[j].tag != 0
      ensures Valid() && start == fields && pos == 0
    {
      start := fields;
      pos := 0;
      data := 0;
      requiredIndex := 0;
    }

    /** pb_field_iter_begin. */
    method Begin() returns (any: bool)
      requires forall j :: 0 <= j < |start| ==> start[j].tag != 0
      modifies this
      ensures Valid() && pos == 0
      ensures any == (start != [])
    {
      pos := 0;
      data := 0;
      requiredIndex := 0;
      any := TagHere() != 0;
    }

    /** pb_field_iter_next: one step on, or back to the beginning with false. */
    method Next() returns (more: bool)
      requires Valid()
      modifies this
      ensures Valid()
      ensures more == (old(pos) + 1 < |start|)
      ensures pos == if more then old(pos) + 1 else 0
    {
      if TagHere() == 0 {
        return false;
      }
      var prev := pos;
      pos := pos + 1;
      if TagHere() == 0 {
        var _ := Begin();
        more := false;
      } else {
        if !(start[prev].rule.Oneof? && start[pos].rule.Oneof?) {
          data := pos;
        }
        if start[prev].rule.Required? {
          requiredIndex := requiredIndex + 1;
        }
        more := true;
      }
    }

    /** pb_field_iter_find: from wherever the iterator stands, around once. In an empty descriptor
        the terminator itself answers to tag 0. */
    method FindTag(tag: nat) returns (found: bool)
      requires Valid()
      modifies this
      ensures Valid()
      ensures found == (Find(start, tag).Some? || (start == [] && tag == 0))
      ensures found && start != [] ==> pos < |start| && start[pos].tag == tag
      ensures !found ==> pos == old(pos)
    {
      var first := pos;
      ghost var wrapped := false;
      while true
        invariant Valid()
        invariant if wrapped then pos < first else first <= pos
        invariant forall j :: (if wrapped then first <= j < |start| || 0 <= j < pos else first <= j < pos) && j < |start| ==> start[j].tag != tag
        decreases !wrapped, |start| - pos
      {
        if TagHere() == tag {
          return true;
        }
        var more := Next();
        wrapped := wrapped || !more;
        if pos == first {
          break;
        }
      }
      found := false;
    }
  }
}
