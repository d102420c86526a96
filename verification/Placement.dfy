/** Bytes standing at a position in a longer run of bytes. */
module Placement {
  import opened Bytes

  predicate ByteAt(data: seq<byte>, pos: nat, b: byte) {
    pos < |data| && data[pos] == b
  }

  /** `text` stands in `data` at `pos`. */
  predicate At(data: seq<byte>, pos: nat, text: seq<byte>) {
    pos + |text| <= |data| && forall i :: 0 <= i < |text| ==> text[i] == data[pos + i]
  }

  lemma AtIsSlice(data: seq<byte>, pos: nat, text: seq<byte>)
    requires At(data, pos, text)
    ensures data[pos..pos + |text|] == text
  {
  }

  lemma AtTail(data: seq<byte>, pos: nat, text: seq<byte>, k: nat)
    requires At(data, pos, text) && k <= |text|
    ensures At(data, pos + k, text[k..])
  {
    forall i | 0 <= i < |text| - k ensures text[k..][i] == data[pos + k + i] {
      assert text[k..][i] == text[k + i];
    }
  }

  lemma AtSplit(data: seq<byte>, pos: nat, a: seq<byte>, b: seq<byte>)
    requires At(data, pos, a + b)
    ensures At(data, pos, a) && At(data, pos + |a|, b)
  {
    forall i | 0 <= i < |a| ensures a[i] == data[pos + i] {
      assert (a + b)[i] == a[i];
    }
    forall i | 0 <= i < |b| ensures b[i] == data[pos + |a| + i] {
      assert (a + b)[|a| + i] == b[i];
    }
  }

  lemma AtOne(data: seq<byte>, pos: nat, b: byte)
    requires At(data, pos, [b])
    ensures pos < |data| && data[pos] == b
  {
    assert [b][0] == b;
  }

  /** The position of the first `b` at or after `pos`, or the end. */
  function IndexFrom(data: seq<byte>, pos: nat, b: byte): (at: nat)
    requires pos <= |data|
    ensures pos <= at <= |data|
    ensures at < |data| ==> data[at] == b
    ensures forall i :: pos <= i < at ==> data[i] != b
    decreases |data| - pos
  {
    if pos < |data| && data[pos] != b then IndexFrom(data, pos + 1, b) else pos
  }

  /** Past a stretch without `b`, the first `b`. */
  lemma {:induction false} IndexAfter(data: seq<byte>, pos: nat, text: seq<byte>, b: byte)
    requires At(data, pos, text) && b !in text
    ensures IndexFrom(data, pos, b) == IndexFrom(data, pos + |text|, b)
    decreases |text|
  {
    if text != [] {
      assert text[0] == data[pos];
      AtTail(data, pos, text, 1);
      IndexAfter(data, pos + 1, text[1..], b);
    }
  }
}
