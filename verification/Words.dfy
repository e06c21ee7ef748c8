/**
 Fixed-width machine words, as the encoder and the decoder generator use them.

 A word is a sequence of bits whose index 0 is the MOST significant bit.  Shifts
 keep the width and drop the bits that leave it; `Resize` keeps the low-order bits.
 */
module Words {
  import opened Basics

  type Word = seq<bool>

  function Zeros(n: nat): (x: Word)
    ensures |x| == n && forall i :: 0 <= i < n ==> !x[i]
  {
    seq(n, _ => false)
  }

  function Ones(n: nat): (x: Word)
    ensures |x| == n && forall i :: 0 <= i < n ==> x[i]
  {
    seq(n, _ => true)
  }

  function Not(x: Word): (y: Word)
    ensures |y| == |x| && forall i :: 0 <= i < |x| ==> y[i] == !x[i]
  {
    seq(|x|, i requires 0 <= i < |x| => !x[i])
  }

  // The operands have the same width; a bit beyond the second operand reads as clear.
  function And(x: Word, y: Word): (z: Word)
    ensures |z| == |x|
    ensures forall i :: 0 <= i < |x| ==> z[i] == (x[i] && i < |y| && y[i])
  {
    seq(|x|, i requires 0 <= i < |x| => x[i] && i < |y| && y[i])
  }

  function Or(x: Word, y: Word): (z: Word)
    ensures |z| == |x|
    ensures forall i :: 0 <= i < |x| ==> z[i] == (x[i] || (i < |y| && y[i]))
  {
    seq(|x|, i requires 0 <= i < |x| => x[i] || (i < |y| && y[i]))
  }

  function Shl(x: Word, n: int): (y: Word)
    ensures |y| == |x|
    ensures forall i :: 0 <= i < |x| ==> y[i] == (0 <= i + n < |x| && x[i + n])
  {
    seq(|x|, i requires 0 <= i < |x| => 0 <= i + n < |x| && x[i + n])
  }

  function Shr(x: Word, n: int): (y: Word)
    ensures |y| == |x|
    ensures forall i :: 0 <= i < |x| ==> y[i] == (0 <= i - n < |x| && x[i - n])
  {
    seq(|x|, i requires 0 <= i < |x| => 0 <= i - n < |x| && x[i - n])
  }

  /** Change the width, keeping the low-order bits. */
  function Resize(x: Word, n: nat): (y: Word)
    ensures |y| == n
    ensures forall i :: 0 <= i < n ==> y[i] == (n - |x| <= i && x[i - (n - |x|)])
  {
    seq(n, i requires 0 <= i < n => n - |x| <= i && x[i - (n - |x|)])
  }

  /** The field of `n` bits that starts at bit `start`. */
  function Slice(x: Word, start: int, n: nat): (y: Word)
    ensures |y| == n
    ensures forall i :: 0 <= i < n ==> y[i] == (0 <= start + i < |x| && x[start + i])
  {
    seq(n, i requires 0 <= i < n => 0 <= start + i < |x| && x[start + i])
  }

  predicate IsZero(x: Word) {
    forall i :: 0 <= i < |x| ==> !x[i]
  }

  /** Every bit of `x` is also a bit of `y`. */
  predicate Within(x: Word, y: Word) {
    |x| == |y| && forall i :: 0 <= i < |x| && x[i] ==> y[i]
  }

  // ----- numbers -----

  /** `v >> b`, one bit at a time. */
  function ShrNat(v: nat, b: nat): nat {
    if b == 0 then v else ShrNat(v / 2, b - 1)
  }

  function Bit(b: bool): nat { if b then 1 else 0 }

  function ToNat(x: Word): nat {
    if x == [] then 0 else 2 * ToNat(x[..|x| - 1]) + Bit(x[|x| - 1])
  }

  /** The `n` low-order bits of `v`. */
  function FromNat(v: nat, n: nat): (x: Word)
    ensures |x| == n
  {
    seq(n, i requires 0 <= i < n => ShrNat(v, n - 1 - i) % 2 == 1)
  }

  /** The last bit of a number, and the rest. */
  lemma FromNatSnoc(v: nat, n: nat)
    ensures FromNat(v, n + 1) == FromNat(v / 2, n) + [v % 2 == 1]
  {
    FromNatSplits(v, n, 1);
    assert FromNat(v, 1)[0] == (ShrNat(v, 0) % 2 == 1);
    assert FromNat(v, 1) == [v % 2 == 1];
  }

  lemma {:induction false} Pow2Grows(a: nat, b: nat)
    requires a <= b
    ensures Pow2(a) <= Pow2(b)
  {
    if a < b {
      Pow2Grows(a, b - 1);
    }
  }

  lemma {:induction false} Pow2Add(a: nat, b: nat)
    ensures Pow2(a + b) == Pow2(a) * Pow2(b)
  {
    if a > 0 {
      Pow2Add(a - 1, b);
      assert 2 * (Pow2(a - 1) * Pow2(b)) == (2 * Pow2(a - 1)) * Pow2(b);
    }
  }

  lemma Squared(n: nat, p: nat, m: nat, q: nat)
    requires Pow2(n) == p && m == 2 * n && q == p * p
    ensures Pow2(m) == q
  {
    Pow2Add(n, n);
  }

  lemma Pow2Of32()
    ensures Pow2(32) == 0x1_0000_0000
  {
    Squared(1, 2, 2, 4);
    Squared(2, 4, 4, 16);
    Squared(4, 16, 8, 0x100);
    Squared(8, 0x100, 16, 0x1_0000);
    Squared(16, 0x1_0000, 32, 0x1_0000_0000);
  }

  /** Only the remainder matters. */
  lemma FromNatRemainder(v: nat, n: nat)
    ensures FromNat(v % Pow2(n), n) == FromNat(v, n)
  {
    ToFromNat(v, n);
    FromToNat(FromNat(v, n));
  }

  lemma {:induction false} ToNatFits(x: Word)
    ensures ToNat(x) < Pow2(|x|)
  {
    if x != [] {
      ToNatFits(x[..|x| - 1]);
    }
  }

  lemma {:induction false} FromToNat(x: Word)
    ensures FromNat(ToNat(x), |x|) == x
  {
    if x != [] {
      var h, b := x[..|x| - 1], x[|x| - 1];
      FromToNat(h);
      FromNatSnoc(ToNat(x), |h|);
      assert x == h + [b];
    }
  }

  lemma RemainderIs(v: int, m: nat, q: int, r: nat)
    requires v == q * m + r && r < m
    ensures v % m == r && v / m == q
  {
    var d := v / m - q;
    assert d * m == r - v % m by {
      assert v == (v / m) * m + v % m;
      assert d * m == (v / m) * m - q * m;
    }
    if d > 0 {
      MulGrows(d, m);
    } else if d < 0 {
      MulGrows(-d, m);
    }
  }

  lemma MulGrows(d: int, m: int)
    requires d > 0 && m >= 0
    ensures d * m >= m
  {
  }

  /** Halving first, then dividing by `m`. */
  lemma HalfFirst(v: nat, m: nat)
    requires m > 0
    ensures v % (2 * m) == 2 * ((v / 2) % m) + v % 2
    ensures v / (2 * m) == (v / 2) / m
  {
    var u := v / 2;
    var q, r := u / m, u % m;
    assert u == q * m + r;
    Doubled(q, m);
    RemainderIs(v, 2 * m, q, 2 * r + v % 2);
  }

  lemma Doubled(a: nat, p: nat)
    ensures a * (2 * p) == 2 * (a * p)
  {
  }

  lemma {:induction false} ToFromNat(v: nat, n: nat)
    ensures ToNat(FromNat(v, n)) == v % Pow2(n)
  {
    if n != 0 {
      ToFromNat(v / 2, n - 1);
      HalfFirst(v, Pow2(n - 1));
      FromNatSnoc(v, n - 1);
    }
  }

  lemma {:induction false} ShrIsDiv(v: nat, b: nat)
    ensures ShrNat(v, b) == v / Pow2(b)
  {
    if b != 0 {
      ShrIsDiv(v / 2, b - 1);
      HalfFirst(v, Pow2(b - 1));
    }
  }

  lemma {:induction false} ShrNatAdds(v: nat, a: nat, b: nat)
    ensures ShrNat(ShrNat(v, a), b) == ShrNat(v, a + b)
  {
    if a != 0 {
      ShrNatAdds(v / 2, a - 1, b);
    }
  }

  lemma {:induction false} ShrNatShrinks(v: nat, b: nat)
    ensures ShrNat(v, b) <= v
  {
    if b != 0 {
      ShrNatShrinks(v / 2, b - 1);
    }
  }

  lemma {:induction false} ShrIsZero(v: nat, m: nat)
    requires v < Pow2(m)
    ensures ShrNat(v, m) == 0
  {
    if m != 0 {
      ShrIsZero(v / 2, m - 1);
    }
  }

  /** The low `a + b` bits are the low `a` bits of `v >> b`, then the low `b` bits. */
  lemma FromNatSplits(v: nat, a: nat, b: nat)
    ensures FromNat(v, a + b) == FromNat(ShrNat(v, b), a) + FromNat(v, b)
  {
    var x, y, z := FromNat(v, a + b), FromNat(ShrNat(v, b), a), FromNat(v, b);
    forall i | 0 <= i < a
      ensures x[i] == y[i]
    {
      ShrNatAdds(v, b, a - 1 - i);
    }
    forall i | a <= i < a + b
      ensures x[i] == z[i - a]
    {
    }
    ConcatIs(x, y, z);
  }

  lemma ConcatIs(x: Word, y: Word, z: Word)
    requires |x| == |y| + |z|
    requires forall i :: 0 <= i < |y| ==> x[i] == y[i]
    requires forall i :: |y| <= i < |x| ==> x[i] == z[i - |y|]
    ensures x == y + z
  {
  }

  /** A value that fits keeps it through any wider word. */
  lemma FromNatFits(v: nat, n: nat)
    requires v < Pow2(n)
    ensures ToNat(FromNat(v, n)) == v
  {
    ToFromNat(v, n);
    RemainderIs(v, Pow2(n), 0, v);
  }

  lemma {:induction false} FromNatAllOnes(n: nat)
    ensures FromNat(Pow2(n) - 1, n) == Ones(n)
  {
    if n != 0 {
      FromNatAllOnes(n - 1);
      FromNatSnoc(Pow2(n) - 1, n - 1);
    }
  }

  lemma ResizeDrops(x: Word, hi: Word, lo: Word)
    requires x == hi + lo
    ensures Resize(x, |lo|) == lo
  {
  }

  lemma ResizeExtends(x: Word, hi: Word, y: Word)
    requires y == hi + x && hi == Zeros(|hi|)
    ensures Resize(x, |y|) == y
  {
  }

  lemma {:induction false} ZerosNumber(n: nat)
    ensures ToNat(Zeros(n)) == 0
  {
    if n != 0 {
      assert Zeros(n)[..n - 1] == Zeros(n - 1);
      ZerosNumber(n - 1);
    }
  }

  /** A wider word holds the same number. */
  lemma {:induction false} WidenNumber(x: Word, n: nat)
    requires |x| <= n
    ensures ToNat(Resize(x, n)) == ToNat(x)
  {
    if x == [] {
      assert Resize(x, n) == Zeros(n);
      ZerosNumber(n);
    } else {
      WidenNumber(x[..|x| - 1], n - 1);
      ResizeFront(x, n);
    }
  }

  lemma ResizeFront(x: Word, n: nat)
    requires 0 < |x| <= n
    ensures Resize(x, n)[..n - 1] == Resize(x[..|x| - 1], n - 1) && Resize(x, n)[n - 1] == x[|x| - 1]
  {
  }

  lemma {:induction false} FromNatZero(n: nat)
    ensures FromNat(0, n) == Zeros(n)
  {
    if n != 0 {
      FromNatZero(n - 1);
      FromNatSnoc(0, n - 1);
    }
  }

  /** Narrowing a word that holds a number gives the word that holds its remainder. */
  lemma ResizeNumber(v: nat, m: nat, n: nat)
    requires v < Pow2(m)
    ensures Resize(FromNat(v, m), n) == FromNat(v, n)
  {
    if n <= m {
      FromNatSplits(v, m - n, n);
      ResizeDrops(FromNat(v, m), FromNat(ShrNat(v, n), m - n), FromNat(v, n));
    } else {
      FromNatSplits(v, n - m, m);
      ShrIsZero(v, m);
      FromNatZero(n - m);
      ResizeExtends(FromNat(v, m), FromNat(0, n - m), FromNat(v, n));
    }
  }
}
