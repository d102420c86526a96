/** A machine word read as lanes: the arguments about masks, borrows and folds, for any lane count.
  *
  * The first byte of a field, loaded in little-endian order, is the lowest lane of the word.
  */
module SwarLanes {
  import opened Words
  import opened Bytes

  /** The word a run of bytes makes when loaded in little-endian order. */
  function LeWord(s: seq<byte>): nat {
    if s == [] then 0 else s[0] + 256 * LeWord(s[1..])
  }

  function Pow256(n: nat): (r: nat)
    ensures r >= 1
  {
    if n == 0 then 1 else 256 * Pow256(n - 1)
  }

  /** The constant with `b` in each of `n` byte lanes, such as `0x3A3A3A3A`. */
  function Rep(b: byte, n: nat): nat {
    if n == 0 then 0 else b + 256 * Rep(b, n - 1)
  }

  lemma Pow2Of8()
    ensures Pow2(8) == 256 && Pow2(4) == 16 && Pow2(7) == 128
  {
    assert Pow2(4) == 16;
    assert Pow2(8) == 16 * Pow2(4);
  }

  lemma {:induction false} LeWordBound(s: seq<byte>)
    ensures LeWord(s) < Pow256(|s|)
  {
    if s != [] {
      LeWordBound(s[1..]);
    }
  }

  lemma Behind256(p: nat, w: nat)
    ensures 256 * (p * w) == (256 * p) * w
  {
  }

  lemma {:induction false} LeWordConcat(a: seq<byte>, b: seq<byte>)
    ensures LeWord(a + b) == LeWord(a) + Pow256(|a|) * LeWord(b)
  {
    if a == [] {
      assert a + b == b;
    } else {
      assert (a + b)[1..] == a[1..] + b;
      LeWordConcat(a[1..], b);
      Behind256(Pow256(|a| - 1), LeWord(b));
    }
  }

  /** The bytes of a word, lowest first. */
  function LeBytes(x: nat, n: nat): (s: seq<byte>)
    ensures |s| == n
  {
    if n == 0 then [] else [x % 256] + LeBytes(x / 256, n - 1)
  }

  lemma FirstByte(b: byte, w: nat)
    ensures (b + 256 * w) % 256 == b && (b + 256 * w) / 256 == w
  {
  }

  lemma {:induction false} LeBytesOfWord(s: seq<byte>)
    ensures LeBytes(LeWord(s), |s|) == s
  {
    if s != [] {
      LeBytesOfWord(s[1..]);
      FirstByte(s[0], LeWord(s[1..]));
    }
  }

  // ------------------------------------------------------------------------------------------------
  // Subtraction with borrows
  // ------------------------------------------------------------------------------------------------

  /** Lane-by-lane subtraction, each lane passing its borrow to the next. */
  function SubLanes(x: seq<byte>, y: seq<byte>, borrow: nat): (r: seq<byte>)
    requires |x| == |y| && borrow <= 1
    ensures |r| == |x|
  {
    if x == [] then []
    else
      var d := x[0] - y[0] - borrow;
      if d < 0 then [d + 256] + SubLanes(x[1..], y[1..], 1) else [d] + SubLanes(x[1..], y[1..], 0)
  }

  lemma {:induction false} SubLanesExact(x: seq<byte>, y: seq<byte>, borrow: nat)
    requires |x| == |y| && borrow <= 1
    ensures var r := LeWord(SubLanes(x, y, borrow));
            r == LeWord(x) - LeWord(y) - borrow || r == LeWord(x) - LeWord(y) - borrow + Pow256(|x|)
  {
    if x != [] {
      var d := x[0] - y[0] - borrow;
      SubLanesExact(x[1..], y[1..], if d < 0 then 1 else 0);
      assert SubLanes(x, y, borrow)[1..] == SubLanes(x[1..], y[1..], if d < 0 then 1 else 0);
    }
  }

  /** What a word of `n` bytes keeps of a result: its low bytes. */
  function Truncated(x: int, n: nat): (r: nat)
    decreases n, x
  {
    if n == 0 then 0 else x % 256 + 256 * Truncated(x / 256, n - 1)
  }

  lemma {:induction false} TruncatedIsModulo(x: int, n: nat)
    ensures Truncated(x, n) == x % Pow256(n)
    decreases n
  {
    if n > 0 {
      TruncatedIsModulo(x / 256, n - 1);
      LowBytes(x, Pow256(n - 1));
    }
  }

  lemma LowBytes(x: int, p: nat)
    requires p >= 1
    ensures x % (256 * p) == x % 256 + 256 * (x / 256 % p)
  {
    var low, high := x % 256, x / 256;
    assert x == 256 * p * (high / p) + (low + 256 * (high % p)) by {
      assert high == p * (high / p) + high % p;
      assert 256 * (p * (high / p)) == 256 * p * (high / p);
    }
    DivModUnique(x, 256 * p, high / p, low + 256 * (high % p));
  }

  /** `wrapping_sub` on words of `n` bytes. */
  function WrappingSub(x: nat, y: nat, n: nat): nat {
    Truncated(x - y, n)
  }

  /** The borrow chain computes the wrapping subtraction of whole words. */
  lemma SubLanesIsWrappingSub(x: seq<byte>, y: seq<byte>)
    requires |x| == |y|
    ensures LeWord(SubLanes(x, y, 0)) == WrappingSub(LeWord(x), LeWord(y), |x|)
  {
    var r := LeWord(SubLanes(x, y, 0));
    assert r == LeWord(x) - LeWord(y) || r == LeWord(x) - LeWord(y) + Pow256(|x|) by { SubLanesExact(x, y, 0); }
    assert r < Pow256(|x|) by { LeWordBound(SubLanes(x, y, 0)); }
    WrapsOnce(LeWord(x), LeWord(y), |x|, r);
  }

  lemma WrapsOnce(x: nat, y: nat, n: nat, r: nat)
    requires r < Pow256(n) && (r == x - y || r == x - y + Pow256(n))
    ensures WrappingSub(x, y, n) == r
  {
    TruncatedIsModulo(x - y, n);
    DivModUnique(x - y, Pow256(n), if r == x - y then 0 else -1, r);
  }

  lemma {:induction false} RepIsWord(b: byte, n: nat)
    ensures LeWord(Repeat(b, n)) == Rep(b, n)
  {
    if n > 0 {
      assert Repeat(b, n)[1..] == Repeat(b, n - 1);
      RepIsWord(b, n - 1);
    }
  }

  // ------------------------------------------------------------------------------------------------
  // The top bit of every lane
  // ------------------------------------------------------------------------------------------------

  lemma TopBit(b: byte)
    ensures And(b, 0x80) == (if b >= 0x80 then 0x80 else 0)
  {
    Pow2Of8();
    AndSplit(b % 128, 0, b / 128, 1, 7);
    assert And(b % 128, 0) == 0;
    assert And(b / 128, 1) == b / 128 by { assert b / 128 <= 1; }
  }

  lemma TopBitOfBoth(p: byte, q: byte)
    ensures And(p, q) < 256
    ensures And(And(p, q), 0x80) == (if p >= 0x80 && q >= 0x80 then 0x80 else 0)
  {
    Pow2Of8();
    var hi := And(p / 128, q / 128);
    AndSplit(p % 128, q % 128, p / 128, q / 128, 7);
    AndBelow(p % 128, q % 128, 7);
    assert hi == (if p >= 128 && q >= 128 then 1 else 0) by {
      assert p / 128 <= 1 && q / 128 <= 1;
      assert And(0, 0) == 0 && And(1, 0) == 0 && And(0, 1) == 0 && And(1, 1) == 1;
    }
    TopBit(And(p, q));
  }

  lemma {:induction false} AndBelow(x: nat, y: nat, k: nat)
    requires x < Pow2(k) && y < Pow2(k)
    ensures And(x, y) < Pow2(k)
  {
    if k > 0 && x > 0 && y > 0 {
      AndBelow(x / 2, y / 2, k - 1);
    }
  }

  predicate AllHigh(s: seq<byte>) {
    forall i :: 0 <= i < |s| ==> s[i] >= 0x80
  }

  lemma AllHighSplit(s: seq<byte>)
    requires s != []
    ensures AllHigh(s) <==> s[0] >= 0x80 && AllHigh(s[1..])
  {
    assert s == [s[0]] + s[1..];
  }

  // ------------------------------------------------------------------------------------------------
  // Masking lane by lane
  // ------------------------------------------------------------------------------------------------

  function AndByte(p: byte, q: byte): byte {
    AndBound(p, q);
    And(p, q)
  }

  function AndLanes(x: seq<byte>, y: seq<byte>): (r: seq<byte>)
    requires |x| == |y|
    ensures |r| == |x| && forall i :: 0 <= i < |x| ==> r[i] == AndByte(x[i], y[i])
  {
    if x == [] then [] else [AndByte(x[0], y[0])] + AndLanes(x[1..], y[1..])
  }

  lemma {:induction false} AndIsByLanes(x: seq<byte>, y: seq<byte>)
    requires |x| == |y|
    ensures And(LeWord(x), LeWord(y)) == LeWord(AndLanes(x, y))
  {
    if x != [] {
      Pow2Of8();
      AndSplit(x[0], y[0], LeWord(x[1..]), LeWord(y[1..]), 8);
      AndIsByLanes(x[1..], y[1..]);
      assert AndLanes(x, y)[1..] == AndLanes(x[1..], y[1..]);
    }
  }

  lemma SameWord(x: seq<byte>, y: seq<byte>)
    requires |x| == |y|
    ensures LeWord(x) == LeWord(y) <==> x == y
  {
    LeBytesOfWord(x);
    LeBytesOfWord(y);
  }

  /** Testing `p & q & 0x80..80 == 0x80..80` looks at the top bit of every lane of both words. */
  lemma TopBitsOfAll(p: seq<byte>, q: seq<byte>)
    requires |p| == |q|
    ensures And(And(LeWord(p), LeWord(q)), Rep(0x80, |p|)) == Rep(0x80, |p|) <==> AllHigh(p) && AllHigh(q)
  {
    var high, both := Repeat(0x80, |p|), AndLanes(p, q);
    RepIsWord(0x80, |p|);
    AndIsByLanes(p, q);
    AndIsByLanes(both, high);
    SameWord(AndLanes(both, high), high);
    HighLanes(p, q, high);
  }

  lemma HighLanes(p: seq<byte>, q: seq<byte>, high: seq<byte>)
    requires |p| == |q| == |high| && forall i :: 0 <= i < |high| ==> high[i] == 0x80
    ensures AndLanes(AndLanes(p, q), high) == high <==> AllHigh(p) && AllHigh(q)
  {
    var masked := AndLanes(AndLanes(p, q), high);
    forall i | 0 <= i < |p| ensures masked[i] == (if p[i] >= 0x80 && q[i] >= 0x80 then 0x80 else 0) {
      TopBitOfBoth(p[i], q[i]);
    }
    if masked == high {
      assert forall i :: 0 <= i < |p| ==> masked[i] == 0x80;
    }
  }
}
