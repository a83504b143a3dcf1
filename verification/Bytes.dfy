/** Bytes, machine words and big-endian numerals. */
module Bytes {

  type byte = b: int | 0 <= b < 256

  const TWO_64: nat := 0x1_0000_0000_0000_0000

  type uint64 = x: int | 0 <= x < 0x1_0000_0000_0000_0000

  datatype Option<+T> = None | Some(value: T)

  /** The minimal big-endian numeral of `n`: no leading zero, and none at all for zero. */
  function BigEndian(n: nat): (bs: seq<byte>)
    ensures n > 0 ==> |bs| > 0 && bs[0] != 0
  {
    if n == 0 then [] else BigEndian(n / 256) + [n % 256]
  }

  /** The number that a byte string denotes in base 256. */
  function Number(bs: seq<byte>): nat {
    if bs == [] then 0 else Number(bs[..|bs| - 1]) * 256 + bs[|bs| - 1]
  }

  function Pow256(w: nat): (p: nat)
    ensures p > 0
  {
    if w == 0 then 1 else 256 * Pow256(w - 1)
  }

  lemma {:induction false} NumberOfBigEndian(n: nat)
    ensures Number(BigEndian(n)) == n
  {
    if n > 0 {
      NumberOfBigEndian(n / 256);
      assert BigEndian(n)[..|BigEndian(n)| - 1] == BigEndian(n / 256);
    }
  }

  lemma {:induction false} NumberPositive(bs: seq<byte>)
    requires bs != [] && bs[0] != 0
    ensures Number(bs) > 0
  {
    if |bs| > 1 {
      NumberPositive(bs[..|bs| - 1]);
    }
  }

  lemma {:induction false} BigEndianOfNumber(bs: seq<byte>)
    requires bs == [] || bs[0] != 0
    ensures BigEndian(Number(bs)) == bs
  {
    if bs != [] {
      var front := bs[..|bs| - 1];
      BigEndianOfNumber(front);
      NumberPositive(bs);
      assert Number(bs) / 256 == Number(front) && Number(bs) % 256 == bs[|bs| - 1];
      assert bs == front + [bs[|bs| - 1]];
    }
  }

  lemma {:induction false} NumberBound(bs: seq<byte>)
    ensures Number(bs) < Pow256(|bs|)
  {
    if bs != [] {
      NumberBound(bs[..|bs| - 1]);
    }
  }

  /** A numeral needs at most `w` bytes exactly when the number is below `256^w`. */
  lemma {:induction false} BigEndianWidth(n: nat, w: nat)
    ensures |BigEndian(n)| <= w <==> n < Pow256(w)
  {
    if w > 0 && n > 0 {
      BigEndianWidth(n / 256, w - 1);
      var p := Pow256(w - 1);
      assert n < 256 * p <==> n / 256 < p;
    }
  }

  lemma {:induction false} Pow256Grows(v: nat, w: nat)
    requires v <= w
    ensures Pow256(v) <= Pow256(w)
    decreases w - v
  {
    if v < w {
      Pow256Grows(v, w - 1);
    }
  }

  lemma Pow256Values()
    ensures Pow256(1) == 0x100 && Pow256(2) == 0x1_0000 && Pow256(3) == 0x100_0000
    ensures Pow256(4) == 0x1_0000_0000 && Pow256(5) == 0x100_0000_0000
    ensures Pow256(6) == 0x1_0000_0000_0000 && Pow256(7) == 0x100_0000_0000_0000
    ensures Pow256(8) == TWO_64
  {
  }

  /** Several bytes without a leading zero make a number that needs them. */
  lemma NumberIsWide(b: seq<byte>)
    requires |b| >= 2 && b[0] != 0
    ensures Number(b) >= 256
  {
    hide Number, BigEndian;
    BigEndianOfNumber(b);
    if Number(b) < 256 {
      BigEndianWidth(Number(b), 1);
      Pow256Values();
    }
  }

  /** `256^k` for the shifts `n >> 8*k` of a 64-bit word. */
  function Shift(k: nat): (d: nat)
    requires k < 8
    ensures d > 0
  {
    match k
    case 0 => 1
    case 1 => 0x100
    case 2 => 0x1_0000
    case 3 => 0x100_0000
    case 4 => 0x1_0000_0000
    case 5 => 0x100_0000_0000
    case 6 => 0x1_0000_0000_0000
    case _ => 0x100_0000_0000_0000
  }

  /** Byte `k` of `n`, counted from the least significant: Go's `byte(n >> 8*k)`. */
  function ByteAt(n: nat, k: nat): byte
    requires k < 8
  {
    n / Shift(k) % 256
  }

  lemma ByteAtStep(n: nat, k: nat)
    requires k < 7
    ensures ByteAt(n / 256, k) == ByteAt(n, k + 1)
  {
  }

  /** Byte `k` of the numeral, counted from its end, is `byte(n >> 8*k)`. */
  lemma {:induction false} BigEndianByte(n: nat, k: nat)
    requires k < 8 && k < |BigEndian(n)|
    ensures BigEndian(n)[|BigEndian(n)| - 1 - k] == ByteAt(n, k)
  {
    hide *;
    BigEndianSnoc(n);
    if k == 0 {
      ByteAtZero(n);
    } else {
      BigEndianByte(n / 256, k - 1);
      ByteAtStep(n, k - 1);
    }
  }

  lemma BigEndianSnoc(n: nat)
    requires BigEndian(n) != []
    ensures BigEndian(n) == BigEndian(n / 256) + [n % 256]
  {
  }

  lemma ByteAtZero(n: nat)
    ensures ByteAt(n, 0) == n % 256
  {
  }

  /** A number with exactly `w` bytes is spelled by its bytes `w-1` down to 0. */
  lemma BigEndianBytes(n: nat, w: nat)
    requires 1 <= w <= 8
    requires Pow256(w - 1) <= n < Pow256(w)
    ensures |BigEndian(n)| == w
    ensures forall k | 0 <= k < w :: BigEndian(n)[w - 1 - k] == ByteAt(n, k)
  {
    BigEndianWidth(n, w);
    BigEndianWidth(n, w - 1);
    forall k | 0 <= k < w
      ensures BigEndian(n)[w - 1 - k] == ByteAt(n, k)
    {
      BigEndianByte(n, k);
    }
  }

  predicate IsPrefix<T(==)>(p: seq<T>, s: seq<T>) {
    |p| <= |s| && s[..|p|] == p
  }

  lemma PrefixOfSum<T>(a: seq<T>, b: seq<T>, s: seq<T>)
    requires IsPrefix(a + b, s)
    ensures IsPrefix(a, s) && |a| <= |s| && IsPrefix(b, s[|a|..])
  {
    assert s[..|a|] == s[..|a + b|][..|a|] == a;
    assert s[|a|..][..|b|] == s[..|a + b|][|a|..] == b;
  }

  lemma LastSplit<T>(s: seq<T>)
    requires s != []
    ensures s == s[..|s| - 1] + [s[|s| - 1]]
  {
  }

  lemma DropDrop<T>(s: seq<T>, m: nat, n: nat)
    requires m + n <= |s|
    ensures s[m..][n..] == s[m + n..]
  {
  }

  lemma SliceSum<T>(s: seq<T>, a: nat, b: nat, c: nat)
    requires a <= b <= c <= |s|
    ensures s[a..c] == s[a..b] + s[b..c]
  {
  }
}
