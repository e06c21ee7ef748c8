/**
 Instruction fields as lists of bit ranges.

 `SetValue` scatters a value over the ranges of a field, `ComputeMask` marks the bits
 the ranges cover and `FieldBits` gathers the value back.  All three are specified by
 `Scatter` and `Gather` over `Positions`, the list of word bits the ranges name.
 */
module BitFields {
  import opened Basics
  import opened Words

  /** Bit numbering of the whole description: bit 0 leftmost, or bit 0 rightmost. */
  datatype Endian = Big | Little

  /** A range of bits, written left index first. */
  datatype BitPair = BitPair(l: nat, r: nat) {
    function Width(): nat { if l < r then r - l + 1 else l - r + 1 }

    // Index of the leftmost and rightmost bit of the range in a word of `w` bits,
    // counted from the left whatever the numbering.
    function Lo(e: Endian, w: nat): int { if e.Big? then l else w - l - 1 }
    function Hi(e: Endian, w: nat): int { if e.Big? then r else w - r - 1 }

    predicate Ordered(e: Endian) { if e.Big? then l <= r else l >= r }

    predicate Fits(e: Endian, w: nat) {
      Ordered(e) && 0 <= Lo(e, w) && Hi(e, w) < w
    }

    predicate Intersects(e: Endian, x: BitPair) {
      if e.Big? then !(x.r < l) && !(x.l > r) else !(x.r > l) && !(x.l < r)
    }
  }

  /** Either a range is in order or its reverse is, and both only if it is a single bit; the numberings are opposite. */
  lemma OrderedLaws(b: BitPair, e: Endian)
    ensures b.Ordered(e) || BitPair(b.r, b.l).Ordered(e)
    ensures b.Ordered(e) && BitPair(b.r, b.l).Ordered(e) <==> b.l == b.r
    ensures b.Ordered(Big) <==> BitPair(b.r, b.l).Ordered(Little)
    ensures BitPair(0, 1).Ordered(Big)
  {
  }

  type BitPairs = seq<BitPair>

  function TotalWidth(bits: BitPairs): nat {
    if bits == [] then 0 else TotalWidth(Front(bits)) + Last(bits).Width()
  }

  predicate AllOrdered(bits: BitPairs, e: Endian) {
    forall i :: 0 <= i < |bits| ==> bits[i].Ordered(e)
  }

  predicate AllFit(bits: BitPairs, e: Endian, w: nat) {
    forall i :: 0 <= i < |bits| ==> bits[i].Fits(e, w)
  }

  // ----- which bits a field names -----

  /** The consecutive integers `lo .. lo + n - 1`. */
  function Run(lo: int, n: nat): (p: seq<int>)
    ensures |p| == n && forall k :: 0 <= k < n ==> p[k] == lo + k
  {
    seq(n, k => lo + k)
  }

  /** The bits of a word of `w` bits that the ranges name, most significant first. */
  function Positions(bits: BitPairs, e: Endian, w: nat): seq<int> {
    if bits == [] then []
    else Positions(Front(bits), e, w) + Run(Last(bits).Lo(e, w), Last(bits).Width())
  }

  predicate Distinct(p: seq<int>) {
    forall i, j :: 0 <= i < j < |p| ==> p[i] != p[j]
  }

  predicate InWord(p: seq<int>, w: nat) {
    forall k :: 0 <= k < |p| ==> 0 <= p[k] < w
  }

  predicate Disjoint(p: seq<int>, q: seq<int>) {
    forall i, j :: 0 <= i < |p| && 0 <= j < |q| ==> p[i] != q[j]
  }

  /** Bit `p[k]` of the result is `b[k]`; the other bits are clear. */
  function Scatter(p: seq<int>, b: Word, w: nat): (x: Word)
    ensures |x| == w
  {
    seq(w, i => exists k :: 0 <= k < |p| && k < |b| && p[k] == i && b[k])
  }

  /** The word that holds `value` in the bits of the field, and nothing else. */
  function FieldWord(bits: BitPairs, e: Endian, value: nat, w: nat): (x: Word)
    ensures |x| == w
  {
    var p := Positions(bits, e, w);
    Scatter(p, FromNat(value, |p|), w)
  }

  function Gather(p: seq<int>, x: Word): (b: Word)
    ensures |b| == |p| && forall k :: 0 <= k < |p| ==> b[k] == (0 <= p[k] < |x| && x[p[k]])
  {
    seq(|p|, k requires 0 <= k < |p| => 0 <= p[k] < |x| && x[p[k]])
  }

  lemma {:induction false} PositionsWidth(bits: BitPairs, e: Endian, w: nat)
    ensures |Positions(bits, e, w)| == TotalWidth(bits)
  {
    if bits != [] {
      PositionsWidth(Front(bits), e, w);
    }
  }

  lemma {:induction false} PositionsInWord(bits: BitPairs, e: Endian, w: nat)
    requires AllFit(bits, e, w)
    ensures InWord(Positions(bits, e, w), w)
  {
    if bits != [] {
      PositionsInWord(Front(bits), e, w);
      assert Last(bits).Fits(e, w);
    }
  }

  // ----- scatter and gather -----

  lemma ScatterConcat(p: seq<int>, q: seq<int>, b: Word, c: Word, w: nat)
    requires |p| == |b| && |q| == |c|
    ensures Scatter(p + q, b + c, w) == Or(Scatter(p, b, w), Scatter(q, c, w))
  {
    var x, y := Scatter(p + q, b + c, w), Or(Scatter(p, b, w), Scatter(q, c, w));
    forall i | 0 <= i < w
      ensures x[i] == y[i]
    {
      if x[i] {
        var k :| 0 <= k < |p + q| && (p + q)[k] == i && (b + c)[k];
        if k >= |p| {
          assert q[k - |p|] == i && c[k - |p|];
        }
      }
      if Scatter(p, b, w)[i] {
        var k :| 0 <= k < |p| && p[k] == i && b[k];
        assert (p + q)[k] == i && (b + c)[k];
      }
      if Scatter(q, c, w)[i] {
        var k :| 0 <= k < |q| && q[k] == i && c[k];
        assert (p + q)[|p| + k] == i && (b + c)[|p| + k];
      }
    }
  }

  lemma ScatterParts(r: seq<int>, p: seq<int>, q: seq<int>, d: Word, b: Word, c: Word, w: nat)
    requires r == p + q && d == b + c && |p| == |b| && |q| == |c|
    ensures Scatter(r, d, w) == Or(Scatter(q, c, w), Scatter(p, b, w))
  {
    ScatterConcat(p, q, b, c, w);
    OrCommutes(Scatter(p, b, w), Scatter(q, c, w));
  }

  /** What is scattered over distinct bits is gathered back. */
  lemma GatherScatter(p: seq<int>, b: Word, w: nat)
    requires |p| == |b| && Distinct(p) && InWord(p, w)
    ensures Gather(p, Scatter(p, b, w)) == b
  {
  }

  /** Bits scattered elsewhere do not disturb what is gathered. */
  lemma GatherOrElsewhere(p: seq<int>, q: seq<int>, c: Word, x: Word)
    requires |q| == |c| && InWord(p, |x|) && Disjoint(p, q)
    ensures Gather(p, Or(x, Scatter(q, c, |x|))) == Gather(p, x)
  {
  }

  // ----- scattering a value: InstrField::setValue -----

  /**
   The value is shifted by the width of each range, which is undefined for its full width; in the
   first range, the last one to be placed, the shifted value is not used any more.
   */
  predicate Shiftable(bits: BitPairs, valBits: nat) {
    forall i :: 0 <= i < |bits| ==> bits[i].Width() < valBits || (i == 0 && bits[i].Width() == valBits)
  }

  /** Fields no wider than the value, which is all that are accepted. */
  lemma {:induction false} NarrowShiftable(bits: BitPairs, valBits: nat)
    requires TotalWidth(bits) <= valBits
    ensures Shiftable(bits, valBits)
  {
    if bits != [] {
      NarrowShiftable(Front(bits), valBits - Last(bits).Width());
      forall i | 0 <= i < |bits|
        ensures bits[i].Width() < valBits || (i == 0 && bits[i].Width() == valBits)
      {
        if i < |bits| - 1 {
          assert Front(bits)[i] == bits[i];
        } else if i > 0 {
          FirstWidth(Front(bits));
        }
      }
    }
  }

  lemma {:induction false} FirstWidth(bits: BitPairs)
    requires bits != []
    ensures TotalWidth(bits) > 0
  {
  }

  /** `valBits` is the width of the integer type that carries the value: 64. */
  method SetValue(bits: BitPairs, e: Endian, value: nat, width: nat, valBits: nat := 64) returns (result: Word)
    requires value < Pow2(valBits)
    requires AllFit(bits, e, width)
    requires Shiftable(bits, valBits)
    ensures result == FieldWord(bits, e, value, width)
  {
    result := Zeros(width);
    var val: nat := value;
    var i := |bits|;
    StartPlacing(bits, e, value, width);
    // From the right, so that the low bits of the value go to the last range.
    while i > 0
      invariant 0 <= i <= |bits| && (i > 0 ==> val < Pow2(valBits))
      invariant Placing(bits, e, value, width, i, val, result)
    {
      val, result := PlaceValue(bits, e, value, width, i, val, result, valBits);
      i := i - 1;
    }
    EndPlacing(bits, e, value, width, val, result);
  }

  /** The portion of the value that range `i - 1` takes is moved into place. */
  method PlaceValue(bits: BitPairs, e: Endian, ghost value: nat, width: nat, i: nat, val: nat, result: Word, valBits: nat)
      returns (rest: nat, more: Word)
    requires 0 < i <= |bits| && bits[i - 1].Fits(e, width) && val < Pow2(valBits) && Shiftable(bits, valBits)
    requires Placing(bits, e, value, width, i, val, result)
    ensures i > 1 ==> rest < Pow2(valBits)
    ensures Placing(bits, e, value, width, i - 1, rest, more)
  {
    var s, t := bits[i - 1].Lo(e, width), bits[i - 1].Hi(e, width);
    var swidth: nat, shift := t - s + 1, width - t - 1;
    PlaceStep(bits, e, value, width, i, val, result, valBits, s, swidth, shift);
    var mask := Not(Shl(Not(Zeros(width)), swidth));
    var v := And(Resize(FromNat(val, valBits), width), mask);
    more := Or(result, Shl(v, shift));
    if swidth < valBits {
      rest := ShrNat(val, swidth);
    } else {
      rest := *;  // undefined
      AllPlaced(bits, e, value, width, ShrNat(val, swidth), rest, more);
    }
  }

  /** With all ranges placed it does not matter what is left of the value. */
  lemma AllPlaced(bits: BitPairs, e: Endian, value: nat, width: nat, val: nat, other: nat, result: Word)
    requires Placing(bits, e, value, width, 0, val, result)
    ensures Placing(bits, e, value, width, 0, other, result)
  {
    NothingLeft(bits[..0], e, val, width);
    NothingLeft(bits[..0], e, other, width);
  }

  /** What is placed so far, and what is left to place over the first `i` ranges, make the whole. */
  ghost predicate Placing(bits: BitPairs, e: Endian, value: nat, width: nat, i: nat, val: nat, result: Word)
    requires i <= |bits|
  {
    |result| == width && FieldWord(bits, e, value, width) == Or(result, FieldWord(bits[..i], e, val, width))
  }

  lemma StartPlacing(bits: BitPairs, e: Endian, value: nat, width: nat)
    ensures Placing(bits, e, value, width, |bits|, value, Zeros(width))
  {
    assert bits[..|bits|] == bits;
    OrZero(FieldWord(bits, e, value, width));
  }

  lemma PlaceStep(bits: BitPairs, e: Endian, value: nat, width: nat, i: nat, val: nat, result: Word,
                  valBits: nat, s: nat, n: nat, shift: nat)
    requires 0 < i <= |bits| && Placing(bits, e, value, width, i, val, result)
    requires n > 0 && s + n + shift == width && val < Pow2(valBits)
    requires s == bits[i - 1].Lo(e, width) && n == bits[i - 1].Width()
    ensures ShrNat(val, n) < Pow2(valBits)
    ensures Placing(bits, e, value, width, i - 1, ShrNat(val, n), Or(result, Share(val, valBits, n, shift, width)))
  {
    assert Front(bits[..i]) == bits[..i - 1] && Last(bits[..i]) == bits[i - 1];
    TakeRange(bits[..i], e, val, valBits, s, n, shift, width);
    OrAssociates(FieldWord(bits, e, value, width), result, FieldWord(bits[..i], e, val, width),
                 Share(val, valBits, n, shift, width), FieldWord(bits[..i - 1], e, ShrNat(val, n), width));
  }

  lemma EndPlacing(bits: BitPairs, e: Endian, value: nat, width: nat, val: nat, result: Word)
    requires Placing(bits, e, value, width, 0, val, result)
    ensures result == FieldWord(bits, e, value, width)
  {
    NothingLeft(bits[..0], e, val, width);
    OrZero(result);
    OrCommutes(result, Zeros(width));
  }

  lemma NothingLeft(bits: BitPairs, e: Endian, val: nat, w: nat)
    requires bits == []
    ensures FieldWord(bits, e, val, w) == Zeros(w)
  {
  }

  lemma OrZero(x: Word)
    ensures Or(Zeros(|x|), x) == x
  {
  }

  /** The share of the value that a range of `n` bits takes, moved `shift` bits to the left. */
  function Share(val: nat, valBits: nat, n: int, shift: int, width: nat): (x: Word)
    ensures |x| == width
  {
    Shl(And(Resize(FromNat(val, valBits), width), Not(Shl(Not(Zeros(width)), n))), shift)
  }

  /** What is still to be placed is the last range's share, and the shifted value over the others. */
  lemma TakeRange(bits: BitPairs, e: Endian, val: nat, valBits: nat, s: nat, n: nat, shift: nat, width: nat)
    requires bits != [] && n > 0 && s + n + shift == width && val < Pow2(valBits)
    requires s == Last(bits).Lo(e, width) && n == Last(bits).Width()
    ensures ShrNat(val, n) < Pow2(valBits)
    ensures FieldWord(bits, e, val, width)
            == Or(Share(val, valBits, n, shift, width), FieldWord(Front(bits), e, ShrNat(val, n), width))
  {
    ShrNatShrinks(val, n);
    PlaceRange(val, valBits, s, n, shift, width);
    SplitWord(bits, e, val, s, n, width);
  }

  lemma SplitWord(bits: BitPairs, e: Endian, val: nat, s: nat, n: nat, width: nat)
    requires bits != [] && s == Last(bits).Lo(e, width) && n == Last(bits).Width()
    ensures FieldWord(bits, e, val, width)
            == Or(Scatter(Run(s, n), FromNat(val, n), width), FieldWord(Front(bits), e, ShrNat(val, n), width))
  {
    var r, p := Positions(bits, e, width), Positions(Front(bits), e, width);
    FromNatSplits(val, |p|, n);
    ScatterParts(r, p, Run(s, n), FromNat(val, |r|), FromNat(ShrNat(val, n), |p|), FromNat(val, n), width);
  }

  /** The masked, shifted value of one range lands on exactly its bits. */
  lemma PlaceRange(val: nat, valBits: nat, s: nat, n: nat, shift: nat, width: nat)
    requires val < Pow2(valBits) && n > 0 && s + n + shift == width
    ensures Share(val, valBits, n, shift, width) == Scatter(Run(s, n), FromNat(val, n), width)
  {
    ResizeNumber(val, valBits, width);
    FromNatSplits(val, s + shift, n);
    PlaceBits(FromNat(val, width), FromNat(ShrNat(val, n), s + shift), FromNat(val, n), s, shift);
  }

  lemma PlaceBits(x: Word, hi: Word, lo: Word, s: nat, shift: nat)
    requires x == hi + lo && |hi| == s + shift
    ensures Shl(And(x, Not(Shl(Not(Zeros(|x|)), |lo|))), shift) == Scatter(Run(s, |lo|), lo, |x|)
  {
    var n := |lo|;
    var v := And(x, Not(Shl(Not(Zeros(|x|)), n)));
    var y, z := Shl(v, shift), Scatter(Run(s, n), lo, |x|);
    forall i | 0 <= i < |x|
      ensures y[i] == z[i]
    {
      if s <= i < s + n {
        assert v[i + shift] == lo[i - s];
        assert Run(s, n)[i - s] == i;
      }
    }
  }

  lemma OrCommutes(x: Word, y: Word)
    requires |x| == |y|
    ensures Or(x, y) == Or(y, x)
  {
  }

  lemma OrAssociates(whole: Word, x: Word, yz: Word, y: Word, z: Word)
    requires |x| == |y| == |z| && yz == Or(y, z) && whole == Or(x, yz)
    ensures whole == Or(Or(x, y), z)
  {
  }

  // ----- the bits of a field: InstrField::compute_mask -----

  /** The word with exactly the bits of the field set. */
  function FieldMask(bits: BitPairs, e: Endian, w: nat): (x: Word)
    ensures |x| == w
    ensures forall i :: 0 <= i < w ==> (x[i] <==> i in Positions(bits, e, w))
  {
    Marked(Positions(bits, e, w), w)
  }

  /** The word with exactly the given bits set. */
  function Marked(p: seq<int>, w: nat): (x: Word)
    ensures |x| == w
    ensures forall i :: 0 <= i < w ==> (x[i] <==> i in p)
  {
    seq(w, i => i in p)
  }

  method ComputeMask(bits: BitPairs, e: Endian, m: nat) returns (mask: Word)
    requires AllFit(bits, e, m)
    ensures mask == FieldMask(bits, e, m)
  {
    var ones := Not(Zeros(m));
    mask := Zeros(m);
    for i := 0 to |bits|
      invariant mask == FieldMask(bits[..i], e, m)
    {
      assert bits[i].Fits(e, m);
      var lo, hi := bits[i].Lo(e, m), bits[i].Hi(e, m);
      var part := Shr(Shl(ones, lo), lo);
      part := Shl(Shr(part, m - 1 - hi), m - 1 - hi);
      MaskStep(bits[..i + 1], part, e, m);
      assert Front(bits[..i + 1]) == bits[..i];
      mask := Or(mask, part);
    }
    assert bits[..|bits|] == bits;
  }

  lemma MaskStep(bits: BitPairs, part: Word, e: Endian, m: nat)
    requires bits != [] && Last(bits).Fits(e, m) && |part| == m
    requires forall k :: 0 <= k < m ==> (part[k] <==> Last(bits).Lo(e, m) <= k <= Last(bits).Hi(e, m))
    ensures Or(FieldMask(Front(bits), e, m), part) == FieldMask(bits, e, m)
  {
    var run := Run(Last(bits).Lo(e, m), Last(bits).Width());
    forall k | 0 <= k < m
      ensures part[k] <==> k in run
    {
      if part[k] { assert run[k - Last(bits).Lo(e, m)] == k; }
    }
  }

  // ----- gathering a value: getFieldBits -----

  /** First bit read for one range of a word of `n` bits. */
  function ReadStart(bp: BitPair, e: Endian, n: nat, ignoreEndian: bool): int {
    var start, end := bp.Lo(e, n), bp.Hi(e, n);
    if end < start then if ignoreEndian then end else n - start - 1 else start
  }

  predicate Readable(bp: BitPair, e: Endian, n: nat, ignoreEndian: bool) {
    var start := ReadStart(bp, e, n, ignoreEndian);
    0 <= start && start + bp.Width() <= n
  }

  predicate AllReadable(bits: BitPairs, e: Endian, n: nat, ignoreEndian: bool) {
    forall i :: 0 <= i < |bits| ==> Readable(bits[i], e, n, ignoreEndian)
  }

  /** The bits read for one range. */
  function ReadRange(bp: BitPair, e: Endian, v: Word, ignoreEndian: bool): (x: Word) {
    Slice(v, ReadStart(bp, e, |v|, ignoreEndian), bp.Width())
  }

  /** The bits read for the whole field. */
  function ReadAll(bits: BitPairs, e: Endian, v: Word, ignoreEndian: bool): Word {
    if bits == [] then []
    else ReadAll(Front(bits), e, v, ignoreEndian) + ReadRange(Last(bits), e, v, ignoreEndian)
  }

  /** For ranges written in order, the flag does not matter: the field's own bits are read. */
  lemma {:induction false} ReadInOrder(bits: BitPairs, e: Endian, v: Word, ig: bool)
    requires AllFit(bits, e, |v|)
    ensures AllReadable(bits, e, |v|, ig)
    ensures InWord(Positions(bits, e, |v|), |v|)
    ensures ReadAll(bits, e, v, ig) == Gather(Positions(bits, e, |v|), v)
  {
    forall i | 0 <= i < |bits|
      ensures Readable(bits[i], e, |v|, ig)
    {
      assert bits[i].Fits(e, |v|);
    }
    if bits != [] {
      ReadInOrder(Front(bits), e, v, ig);
      ReadOne(Last(bits), e, v, ig);
      GatherParts(Positions(bits, e, |v|), Positions(Front(bits), e, |v|),
                  Run(Last(bits).Lo(e, |v|), Last(bits).Width()), v);
    }
  }

  /**
   A range written against the numbering is read turned round with the flag set, and as a range of the
   other numbering without it.
   */
  lemma ReadReversed(b: BitPair, e: Endian, v: Word, ig: bool)
    requires !b.Ordered(e)
    ensures ReadRange(b, e, v, true) == ReadRange(BitPair(b.r, b.l), e, v, ig)
    ensures ReadRange(b, e, v, false) == ReadRange(b, if e.Big? then Little else Big, v, ig)
  {
  }

  lemma GatherParts(r: seq<int>, p: seq<int>, q: seq<int>, x: Word)
    requires r == p + q && InWord(p, |x|) && InWord(q, |x|)
    ensures InWord(r, |x|) && Gather(r, x) == Gather(p, x) + Gather(q, x)
  {
  }

  lemma ReadOne(b: BitPair, e: Endian, v: Word, ig: bool)
    requires b.Fits(e, |v|)
    ensures Readable(b, e, |v|, ig) && InWord(Run(b.Lo(e, |v|), b.Width()), |v|)
    ensures ReadRange(b, e, v, ig) == Gather(Run(b.Lo(e, |v|), b.Width()), v)
  {
  }

  /** One range, appended on the right of what has been read so far. */
  method FieldRangeBits(bp: BitPair, e: Endian, v: Word, res: Word, ignoreEndian: bool) returns (r: Word)
    requires Readable(bp, e, |v|, ignoreEndian)
    ensures r == Or(Shl(res, bp.Width()), Resize(ReadRange(bp, e, v, ignoreEndian), |v|))
  {
    var start, end := bp.Lo(e, |v|), bp.Hi(e, |v|);
    if end < start {
      if ignoreEndian {
        start, end := end, start;
      } else {
        start, end := |v| - start - 1, |v| - end - 1;
      }
    }
    assert end - start + 1 == bp.Width();
    var field := Slice(v, start, end - start + 1);
    r := Or(Shl(res, bp.Width()), Resize(field, |v|));
  }

  method FieldBits(bits: BitPairs, e: Endian, v: Word, ignoreEndian: bool) returns (res: Word)
    requires AllReadable(bits, e, |v|, ignoreEndian)
    ensures res == Resize(ReadAll(bits, e, v, ignoreEndian), |v|)
  {
    res := Zeros(|v|);
    for i := 0 to |bits|
      invariant res == Resize(ReadAll(bits[..i], e, v, ignoreEndian), |v|)
    {
      assert Front(bits[..i + 1]) == bits[..i];
      ReadStep(bits[..i + 1], e, v, ignoreEndian);
      res := FieldRangeBits(bits[i], e, v, res, ignoreEndian);
    }
    assert bits[..|bits|] == bits;
  }

  lemma ReadStep(bits: BitPairs, e: Endian, v: Word, ig: bool)
    requires bits != [] && Readable(Last(bits), e, |v|, ig)
    ensures Or(Shl(Resize(ReadAll(Front(bits), e, v, ig), |v|), Last(bits).Width()),
               Resize(ReadRange(Last(bits), e, v, ig), |v|))
            == Resize(ReadAll(bits, e, v, ig), |v|)
  {
    AppendField(ReadAll(bits, e, v, ig), ReadAll(Front(bits), e, v, ig), ReadRange(Last(bits), e, v, ig),
                Last(bits).Width(), |v|);
  }

  lemma AppendField(r: Word, a: Word, f: Word, k: nat, n: nat)
    requires r == a + f && |f| == k <= n
    ensures Or(Shl(Resize(a, n), k), Resize(f, n)) == Resize(r, n)
  {
  }

  // ----- the laws -----

  /** Distinct bits of a word are at most as many as the word has. */
  lemma {:induction false} DistinctAtMost(p: seq<int>, w: nat)
    requires Distinct(p) && InWord(p, w)
    ensures |p| <= w
  {
    if p != [] {
      assert 0 <= p[0] < w;
    }
    if w == 0 {
    } else if k :| 0 <= k < |p| && p[k] == w - 1 {
      var q := p[..k] + p[k + 1..];
      forall i | 0 <= i < |q|
        ensures 0 <= q[i] < w - 1
      {
        assert q[i] == p[if i < k then i else i + 1];
      }
      DistinctAtMost(q, w - 1);
    } else {
      DistinctAtMost(p, w - 1);
    }
  }

  /** The number that reading a field gives, in a result as wide as the word. */
  function FieldValue(bits: BitPairs, e: Endian, v: Word, ignoreEndian: bool): nat {
    ToNat(Resize(ReadAll(bits, e, v, ignoreEndian), |v|))
  }

  /** Nothing is lost in that width. */
  lemma FieldValueIs(bits: BitPairs, e: Endian, v: Word, ig: bool)
    requires AllFit(bits, e, |v|) && Distinct(Positions(bits, e, |v|))
    ensures AllReadable(bits, e, |v|, ig)
    ensures FieldValue(bits, e, v, ig) == ToNat(ReadAll(bits, e, v, ig))
  {
    ReadInOrder(bits, e, v, ig);
    DistinctAtMost(Positions(bits, e, |v|), |v|);
    WidenNumber(ReadAll(bits, e, v, ig), |v|);
  }

  /** Split fields round-trip: gathering a scattered value gives it back, modulo the field's width. */
  lemma SplitFieldRoundTrip(bits: BitPairs, e: Endian, value: nat, w: nat, ig: bool)
    requires AllFit(bits, e, w) && Distinct(Positions(bits, e, w))
    ensures AllReadable(bits, e, w, ig)
    ensures FieldValue(bits, e, FieldWord(bits, e, value, w), ig) == value % Pow2(TotalWidth(bits))
  {
    var p := Positions(bits, e, w);
    PositionsWidth(bits, e, w);
    FieldValueIs(bits, e, FieldWord(bits, e, value, w), ig);
    ReadInOrder(bits, e, FieldWord(bits, e, value, w), ig);
    GatherScatter(p, FromNat(value, |p|), w);
    ToFromNat(value, |p|);
  }

  lemma FieldWordWithinMask(bits: BitPairs, e: Endian, value: nat, w: nat)
    ensures Within(FieldWord(bits, e, value, w), FieldMask(bits, e, w))
  {
  }

  /**
   Scattering the all-ones value of `n` bits gives the mask exactly when the field is no
   wider than that: beyond it the field's leading bits stay clear.  The source uses 64 bits.
   */
  lemma AllOnesIsMask(bits: BitPairs, e: Endian, w: nat, n: nat)
    requires AllFit(bits, e, w) && Distinct(Positions(bits, e, w))
    ensures FieldWord(bits, e, Pow2(n) - 1, w) == FieldMask(bits, e, w) <==> TotalWidth(bits) <= n
  {
    PositionsWidth(bits, e, w);
    PositionsInWord(bits, e, w);
    var p := Positions(bits, e, w);
    FromNatAllOnes(n);
    ResizeNumber(Pow2(n) - 1, n, |p|);
    ResizedOnes(n, |p|);
    MaskIffOnes(p, FromNat(Pow2(n) - 1, |p|), w);
  }

  lemma ResizedOnes(n: nat, m: nat)
    ensures (forall k :: 0 <= k < m ==> Resize(Ones(n), m)[k]) <==> m <= n
  {
    if m > n {
      assert !Resize(Ones(n), m)[0];
    }
  }

  lemma MaskIffOnes(p: seq<int>, b: Word, w: nat)
    requires |p| == |b| && Distinct(p) && InWord(p, w)
    ensures Scatter(p, b, w) == Marked(p, w) <==> forall k :: 0 <= k < |b| ==> b[k]
  {
    GatherScatter(p, b, w);
    var x, m := Scatter(p, b, w), Marked(p, w);
    if forall k :: 0 <= k < |b| ==> b[k] {
      assert x == m;
    } else {
      var k :| 0 <= k < |b| && !b[k];
      assert Gather(p, x)[k] == x[p[k]];
      assert m[p[k]] && !x[p[k]];
    }
  }

  // ----- ranges of one field must not overlap: InstrField::check_bits -----

  ghost predicate Apart(bits: BitPairs, e: Endian) {
    forall i, j :: 0 <= j < i < |bits| ==> !bits[i].Intersects(e, bits[j])
  }

  /** The test against the outer field's width; zero stands for no outer field. */
  predicate Inside(b: BitPair, e: Endian, maxWidth: nat) {
    maxWidth > 0 ==> b.Lo(e, maxWidth) < maxWidth && b.Hi(e, maxWidth) < maxWidth
  }

  method CheckBits(bits: BitPairs, e: Endian, maxWidth: nat) returns (ok: bool, width: nat)
    ensures ok <==> Apart(bits, e) && forall i :: 0 <= i < |bits| ==> Inside(bits[i], e, maxWidth)
    ensures ok ==> width == TotalWidth(bits)
  {
    width := 0;
    for i := 0 to |bits|
      invariant Apart(bits[..i], e) && width == TotalWidth(bits[..i])
      invariant forall k :: 0 <= k < i ==> Inside(bits[k], e, maxWidth)
    {
      for j := 0 to i
        invariant forall k :: 0 <= k < j ==> !bits[i].Intersects(e, bits[k])
      {
        if bits[i].Intersects(e, bits[j]) { return false, width; }
      }
      if !Inside(bits[i], e, maxWidth) { return false, width; }
      assert Front(bits[..i + 1]) == bits[..i] && Last(bits[..i + 1]) == bits[i];
      width := width + bits[i].Width();
    }
    assert bits[..|bits|] == bits;
    return true, width;
  }

  /** With bits numbered from the right the test rejects nothing. */
  lemma InsideFromRight(b: BitPair, maxWidth: nat)
    ensures Inside(b, Little, maxWidth)
  {
  }

  /** With bits numbered from the left it looks at both ends, and at none without an outer field. */
  lemma InsideFromLeft(b: BitPair, maxWidth: nat)
    ensures Inside(b, Big, maxWidth) <==> maxWidth == 0 || (b.l < maxWidth && b.r < maxWidth)
  {
  }

  /** Accepted ranges fit the outer field exactly when bits are numbered from the left or every left index does. */
  lemma InsideFitsIff(bits: BitPairs, e: Endian, maxWidth: nat)
    requires AllOrdered(bits, e) && maxWidth > 0 && forall i :: 0 <= i < |bits| ==> Inside(bits[i], e, maxWidth)
    ensures AllFit(bits, e, maxWidth) <==> e.Big? || forall i :: 0 <= i < |bits| ==> bits[i].l < maxWidth
  {
    forall i | 0 <= i < |bits|
      ensures bits[i].Fits(e, maxWidth) <==> e.Big? || bits[i].l < maxWidth
    {
      assert Inside(bits[i], e, maxWidth) && bits[i].Ordered(e);
    }
  }

  /** An accepted range that lies outside an outer field of 8 bits. */
  lemma InsideYetNot()
    ensures
      var b := BitPair(9, 8);
      b.Ordered(Little) && Apart([b], Little) && Inside(b, Little, 8) && !b.Fits(Little, 8)
  {
  }

  /** The check accepts exactly the fields whose ranges name every bit at most once. */
  lemma {:induction false} ApartIffDistinct(bits: BitPairs, e: Endian, w: nat)
    requires AllOrdered(bits, e)
    ensures Apart(bits, e) <==> Distinct(Positions(bits, e, w))
  {
    if bits != [] {
      var f, b := Front(bits), Last(bits);
      var p, q := Positions(f, e, w), Run(b.Lo(e, w), b.Width());
      ApartIffDistinct(f, e, w);
      ApartFromAll(f, b, e, w);
      DistinctParts(Positions(bits, e, w), p, q);
      ApartSnoc(bits, e);
    }
  }

  lemma ApartSnoc(bits: BitPairs, e: Endian)
    requires bits != []
    ensures Apart(bits, e) <==>
            Apart(Front(bits), e) && forall j :: 0 <= j < |bits| - 1 ==> !Last(bits).Intersects(e, bits[j])
  {
  }

  lemma DistinctParts(r: seq<int>, p: seq<int>, q: seq<int>)
    requires r == p + q
    ensures Distinct(r) <==> Distinct(p) && Distinct(q) && Disjoint(p, q)
  {
    if Distinct(r) {
      assert forall i :: 0 <= i < |p| ==> p[i] == r[i];
      assert forall j :: 0 <= j < |q| ==> q[j] == r[|p| + j];
    }
  }

  lemma {:induction false} ApartFromAll(bits: BitPairs, b: BitPair, e: Endian, w: nat)
    requires AllOrdered(bits, e) && b.Ordered(e)
    ensures (forall j :: 0 <= j < |bits| ==> !b.Intersects(e, bits[j]))
            <==> Disjoint(Positions(bits, e, w), Run(b.Lo(e, w), b.Width()))
  {
    if bits != [] {
      var c, q := Last(bits), Run(b.Lo(e, w), b.Width());
      ApartFromAll(Front(bits), b, e, w);
      ApartFromOne(c, b, e, w);
      DisjointParts(Positions(bits, e, w), Positions(Front(bits), e, w), Run(c.Lo(e, w), c.Width()), q);
      assert forall j :: 0 <= j < |bits| - 1 ==> Front(bits)[j] == bits[j];
    }
  }

  lemma DisjointParts(r: seq<int>, p: seq<int>, q: seq<int>, s: seq<int>)
    requires r == p + q
    ensures Disjoint(r, s) <==> Disjoint(p, s) && Disjoint(q, s)
  {
    if Disjoint(r, s) {
      assert forall i :: 0 <= i < |p| ==> p[i] == r[i];
      assert forall j :: 0 <= j < |q| ==> q[j] == r[|p| + j];
    }
  }

  lemma ApartFromOne(c: BitPair, b: BitPair, e: Endian, w: nat)
    requires c.Ordered(e) && b.Ordered(e)
    ensures !b.Intersects(e, c) <==> Disjoint(Run(c.Lo(e, w), c.Width()), Run(b.Lo(e, w), b.Width()))
  {
    var p, q := Run(c.Lo(e, w), c.Width()), Run(b.Lo(e, w), b.Width());
    if b.Intersects(e, c) {
      var lo := if c.Lo(e, w) < b.Lo(e, w) then b.Lo(e, w) else c.Lo(e, w);
      assert p[lo - c.Lo(e, w)] == q[lo - b.Lo(e, w)];
    }
  }

  // ----- range normalisation: BitPairVect::finalize -----

  /** The bit numbers a range lists, left to right. */
  function Listed(bp: BitPair): (s: seq<int>)
    ensures |s| == bp.Width()
    ensures forall k :: 0 <= k < |s| ==> s[k] == if bp.l <= bp.r then bp.l + k else bp.l - k
  {
    seq(bp.Width(), k => if bp.l <= bp.r then bp.l + k else bp.l - k)
  }

  function ListedAll(bits: BitPairs): seq<int> {
    if bits == [] then [] else ListedAll(Front(bits)) + Listed(Last(bits))
  }

  predicate Adjacent(e: Endian, a: BitPair, b: BitPair) { a.Hi(e, 0) + 1 == b.Lo(e, 0) }

  predicate NoneAdjacent(bits: BitPairs, e: Endian) {
    forall i :: 0 < i < |bits| ==> !Adjacent(e, bits[i - 1], bits[i])
  }

  datatype Normalised = Normal(bits: BitPairs) | Misordered

  method CheckOrder(bits: BitPairs, e: Endian) returns (ordered: bool)
    ensures ordered == AllOrdered(bits, e)
  {
    for i := 0 to |bits|
      invariant AllOrdered(bits[..i], e)
    {
      if !bits[i].Ordered(e) { return false; }
    }
    return true;
  }

  method Normalise(bits: BitPairs, e: Endian) returns (r: Normalised)
    ensures r.Normal? <==> AllOrdered(bits, e)
    ensures r.Normal? ==>
              && ListedAll(r.bits) == ListedAll(bits)
              && AllOrdered(r.bits, e)
              && NoneAdjacent(r.bits, e)
  {
    var ordered := CheckOrder(bits, e);
    if !ordered { return Misordered; }
    if |bits| <= 1 { return Normal(bits); }
    var merged: BitPairs := [];
    var start: int, end: int := -1, -1;
    for i := 0 to |bits| - 1
      invariant Merging(bits, e, i, merged, start, end)
    {
      if start == -1 {
        OpenRange(bits, e, i, merged, start, end);
        start, end := bits[i].l, bits[i].r;
      }
      if Adjacent(e, bits[i], bits[i + 1]) {
        ExtendRange(bits, e, i, merged, start, end);
        end := bits[i + 1].r;
      } else {
        CloseRange(bits, e, i, merged, start, end);
        merged := merged + [BitPair(start, end)];
        start, end := -1, -1;
      }
    }
    var last := |bits| - 1;
    FinishMerge(bits, e, merged, start, end);
    ghost var out := merged + (if start != -1 then [BitPair(start, end)] else [])
                     + (if Adjacent(e, bits[last - 1], bits[last]) then [] else [bits[last]]);
    if start != -1 {
      merged := merged + [BitPair(start, end)];
    }
    if !Adjacent(e, bits[last - 1], bits[last]) {
      merged := merged + [bits[last]];
    }
    assert merged == out;
    return Normal(merged);
  }

  /** What the last pushes leave. */
  lemma FinishMerge(bits: BitPairs, e: Endian, merged: BitPairs, start: int, end: int)
    requires |bits| > 1 && AllOrdered(bits, e) && Merging(bits, e, |bits| - 1, merged, start, end)
    ensures
      var last := |bits| - 1;
      var out := merged + (if start != -1 then [BitPair(start, end)] else [])
                 + (if Adjacent(e, bits[last - 1], bits[last]) then [] else [bits[last]]);
      ListedAll(out) == ListedAll(bits) && AllOrdered(out, e) && NoneAdjacent(out, e)
  {
    var last := |bits| - 1;
    assert bits[..last + 1] == bits;
    assert Front(bits) == bits[..last];
    assert bits[last].Ordered(e);
    if start != -1 {
      var out := merged + [BitPair(start, end)];
      ListedSnoc(merged, BitPair(start, end));
      assert out + [] == out;
    } else {
      var out := merged + [bits[last]];
      ListedSnoc(merged, bits[last]);
      assert merged + [] == merged;
    }
  }

  lemma ListedSnoc(a: BitPairs, b: BitPair)
    ensures ListedAll(a + [b]) == ListedAll(a) + Listed(b)
  {
    assert Front(a + [b]) == a;
  }

  ghost predicate Ending(merged: BitPairs, e: Endian, next: BitPair) {
    AllOrdered(merged, e) && NoneAdjacent(merged, e)
    && (merged != [] ==> !Adjacent(e, merged[|merged| - 1], next))
  }

  /** A range that reaches exactly to the end of `bits[i]` is being built. */
  ghost predicate Building(bits: BitPairs, e: Endian, i: nat, merged: BitPairs, start: int, end: int)
    requires i < |bits|
  {
    && start >= 0 && end == bits[i].r && BitPair(start, end).Ordered(e)
    && Ending(merged, e, BitPair(start, end))
    && ListedAll(merged) + Listed(BitPair(start, end)) == ListedAll(bits[..i + 1])
  }

  ghost predicate Merging(bits: BitPairs, e: Endian, i: nat, merged: BitPairs, start: int, end: int)
    requires i < |bits|
  {
    && (start != -1 <==> 0 < i && Adjacent(e, bits[i - 1], bits[i]))
    && if start == -1 then Ending(merged, e, bits[i]) && ListedAll(merged) == ListedAll(bits[..i])
       else Building(bits, e, i, merged, start, end)
  }

  lemma OpenRange(bits: BitPairs, e: Endian, i: nat, merged: BitPairs, start: int, end: int)
    requires i < |bits| && AllOrdered(bits, e) && Merging(bits, e, i, merged, start, end) && start == -1
    ensures Building(bits, e, i, merged, bits[i].l, bits[i].r)
  {
    assert bits[i].Ordered(e);
    assert bits[..i + 1] == bits[..i] + [bits[i]];
    ListedSnoc(bits[..i], bits[i]);
  }

  lemma ExtendRange(bits: BitPairs, e: Endian, i: nat, merged: BitPairs, start: int, end: int)
    requires i + 1 < |bits| && AllOrdered(bits, e) && Building(bits, e, i, merged, start, end)
    requires Adjacent(e, bits[i], bits[i + 1])
    ensures Merging(bits, e, i + 1, merged, start, bits[i + 1].r)
  {
    var b := bits[i + 1];
    assert b.Ordered(e) && bits[i].Ordered(e);
    assert bits[..i + 2] == bits[..i + 1] + [b];
    ListedSnoc(bits[..i + 1], b);
    JoinListed(e, BitPair(start, end), b);
    assert ListedAll(merged) + (Listed(BitPair(start, end)) + Listed(b))
        == (ListedAll(merged) + Listed(BitPair(start, end))) + Listed(b);
  }

  lemma CloseRange(bits: BitPairs, e: Endian, i: nat, merged: BitPairs, start: int, end: int)
    requires i + 1 < |bits| && Building(bits, e, i, merged, start, end)
    requires !Adjacent(e, bits[i], bits[i + 1])
    ensures Merging(bits, e, i + 1, merged + [BitPair(start, end)], -1, -1)
  {
    ListedSnoc(merged, BitPair(start, end));
  }

  lemma JoinListed(e: Endian, a: BitPair, b: BitPair)
    requires a.Ordered(e) && b.Ordered(e) && Adjacent(e, a, b)
    ensures BitPair(a.l, b.r).Ordered(e)
    ensures Listed(BitPair(a.l, b.r)) == Listed(a) + Listed(b)
  {
  }

  /** From the description's bit numbers to word bits. */
  function Renumber(s: seq<int>, e: Endian, w: nat): (p: seq<int>)
  {
    seq(|s|, k requires 0 <= k < |s| => if e.Big? then s[k] else w - 1 - s[k])
  }

  lemma RenumberParts(r: seq<int>, s: seq<int>, t: seq<int>, e: Endian, w: nat)
    requires r == s + t
    ensures Renumber(r, e, w) == Renumber(s, e, w) + Renumber(t, e, w)
  {
  }

  /** The listed bits fix the word bits at every width, in either numbering. */
  lemma {:induction false} ListedFixesPositions(a: BitPairs, e: Endian, w: nat)
    requires AllOrdered(a, e)
    ensures Positions(a, e, w) == Renumber(ListedAll(a), e, w)
  {
    if a != [] {
      ListedFixesPositions(Front(a), e, w);
      RenumberOne(Last(a), e, w);
      RenumberParts(ListedAll(a), ListedAll(Front(a)), Listed(Last(a)), e, w);
    }
  }

  lemma RenumberOne(b: BitPair, e: Endian, w: nat)
    requires b.Ordered(e)
    ensures Renumber(Listed(b), e, w) == Run(b.Lo(e, w), b.Width())
  {
  }

  /** Hence two lists of the same bits give the same word bits: same setValue, mask and getFieldBits. */
  lemma NormaliseKeepsMeaning(a: BitPairs, b: BitPairs, e: Endian, w: nat)
    requires AllOrdered(a, e) && AllOrdered(b, e) && ListedAll(a) == ListedAll(b)
    ensures Positions(a, e, w) == Positions(b, e, w)
    ensures TotalWidth(a) == TotalWidth(b)
    ensures FieldMask(a, e, w) == FieldMask(b, e, w)
    ensures forall v: nat :: FieldWord(a, e, v, w) == FieldWord(b, e, v, w)
    ensures AllFit(a, e, w) <==> AllFit(b, e, w)
    ensures AllFit(a, e, w) ==>
              forall x: Word, ig: bool :: |x| == w ==> FieldValue(a, e, x, ig) == FieldValue(b, e, x, ig)
  {
    ListedFixesPositions(a, e, w);
    ListedFixesPositions(b, e, w);
    PositionsWidth(a, e, w);
    PositionsWidth(b, e, w);
    FitIffInWord(a, e, w);
    FitIffInWord(b, e, w);
    if AllFit(a, e, w) {
      forall x: Word, ig: bool | |x| == w
        ensures FieldValue(a, e, x, ig) == FieldValue(b, e, x, ig)
      {
        ReadInOrder(a, e, x, ig);
        ReadInOrder(b, e, x, ig);
      }
    }
  }

  /** Ranges in order fit a word exactly when all their bits do. */
  lemma {:induction false} FitIffInWord(bits: BitPairs, e: Endian, w: nat)
    requires AllOrdered(bits, e)
    ensures AllFit(bits, e, w) <==> InWord(Positions(bits, e, w), w)
  {
    if bits != [] {
      var f, b := Front(bits), Last(bits);
      FitIffInWord(f, e, w);
      FitsIffInWord(b, e, w);
      FitSnoc(bits, e, w);
      InWordParts(Positions(bits, e, w), Positions(f, e, w), Run(b.Lo(e, w), b.Width()), w);
    }
  }

  lemma FitSnoc(bits: BitPairs, e: Endian, w: nat)
    requires bits != []
    ensures AllFit(bits, e, w) <==> AllFit(Front(bits), e, w) && Last(bits).Fits(e, w)
  {
    if AllFit(Front(bits), e, w) && Last(bits).Fits(e, w) {
      forall i | 0 <= i < |bits|
        ensures bits[i].Fits(e, w)
      {
        if i < |bits| - 1 { assert Front(bits)[i].Fits(e, w); }
      }
    }
  }

  lemma FitsIffInWord(b: BitPair, e: Endian, w: nat)
    requires b.Ordered(e)
    ensures b.Fits(e, w) <==> InWord(Run(b.Lo(e, w), b.Width()), w)
  {
    var r := Run(b.Lo(e, w), b.Width());
    if InWord(r, w) {
      assert r[0] == b.Lo(e, w) && r[|r| - 1] == b.Hi(e, w);
    }
  }

  lemma InWordParts(r: seq<int>, p: seq<int>, q: seq<int>, w: nat)
    requires r == p + q
    ensures InWord(r, w) <==> InWord(p, w) && InWord(q, w)
  {
    if InWord(r, w) {
      assert forall i :: 0 <= i < |p| ==> p[i] == r[i];
      assert forall j :: 0 <= j < |q| ==> q[j] == r[|p| + j];
    }
  }

  /** Normal form is canonical, so normalising twice is normalising once. */
  lemma {:induction false} NormalFormUnique(a: BitPairs, b: BitPairs, e: Endian)
    requires AllOrdered(a, e) && AllOrdered(b, e) && NoneAdjacent(a, e) && NoneAdjacent(b, e)
    requires ListedAll(a) == ListedAll(b)
    ensures a == b
  {
    if a == [] || b == [] {
    } else {
      LastRangeLongest(a, b, e);
      LastRangeLongest(b, a, e);
      SameEnds(ListedAll(a), ListedAll(Front(a)), Listed(Last(a)), ListedAll(Front(b)), Listed(Last(b)));
      ListedFixesRange(Last(a), Last(b));
      NormalFormUnique(Front(a), Front(b), e);
      assert a == Front(a) + [Last(a)] && b == Front(b) + [Last(b)];
    }
  }

  lemma SameEnds(s: seq<int>, x: seq<int>, y: seq<int>, u: seq<int>, v: seq<int>)
    requires s == x + y == u + v && |y| == |v|
    ensures x == u && y == v
  {
    assert x == s[..|x|] && y == s[|x|..];
  }

  lemma ListedFixesRange(a: BitPair, b: BitPair)
    requires Listed(a) == Listed(b)
    ensures a == b
  {
    var n := a.Width();
    assert Listed(a)[0] == a.l && Listed(b)[0] == b.l;
    assert Listed(a)[n - 1] == a.r && Listed(b)[n - 1] == b.r;
  }

  /** A last range that began late would be preceded by an adjacent one. */
  lemma LastRangeLongest(a: BitPairs, b: BitPairs, e: Endian)
    requires AllOrdered(a, e) && AllOrdered(b, e) && NoneAdjacent(a, e)
    requires a != [] && b != [] && ListedAll(a) == ListedAll(b)
    ensures Last(a).Width() >= Last(b).Width()
  {
    var s, n, m := ListedAll(a), Last(a).Width(), Last(b).Width();
    assert Last(a).Ordered(e) && Last(b).Ordered(e);
    EndOfConcat(s, ListedAll(Front(b)), Listed(Last(b)));
    EndOfConcat(s, ListedAll(Front(a)), Listed(Last(a)));
    if |a| > 1 {
      var f := Front(a);
      assert Last(f) == a[|a| - 2] && Last(f).Ordered(e);
      EndOfConcat(ListedAll(f), ListedAll(Front(f)), Listed(Last(f)));
      assert s[|s| - n - 1] == Listed(Last(f))[Last(f).Width() - 1] == Last(f).r;
      assert s[|s| - n] == Last(a).l;
      assert !Adjacent(e, a[|a| - 2], a[|a| - 1]);
    } else {
      assert ListedAll(Front(a)) == [];
    }
  }

  lemma EndOfConcat(s: seq<int>, x: seq<int>, y: seq<int>)
    requires s == x + y
    ensures forall k :: |x| <= k < |s| ==> s[k] == y[k - |x|]
    ensures forall k :: 0 <= k < |x| ==> s[k] == x[k]
  {
  }
}
