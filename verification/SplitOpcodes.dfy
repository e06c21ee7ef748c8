/**
 Opcodes given as separate pieces, each with its own bit range and value.

 The pieces are put in order by an exchange sort, their values are concatenated into one
 number, and that number is later scattered over the ordered ranges as one field.
 */
module SplitOpcodes {
  import opened Basics
  import opened Words
  import opened BitFields
  import opened Opcodes

  /** A source range, the range of the target field it maps to, and a value. */
  datatype MappedBits = MappedBits(src: BitPair, tgt: BitPair, value: nat)

  // ----- the exchange sort -----

  function Key(m: MappedBits, bySource: bool, e: Endian): int {
    if bySource then m.src.Lo(e, 0) else m.tgt.Lo(e, 0)
  }

  ghost predicate Sorted(s: seq<MappedBits>, bySource: bool, e: Endian) {
    forall i, j :: 0 <= i < j < |s| ==> Key(s[i], bySource, e) <= Key(s[j], bySource, e)
  }

  /** The first `n` are in order and none of them is above a later one. */
  ghost predicate Settled(s: seq<MappedBits>, n: nat, bySource: bool, e: Endian) {
    forall i, j :: 0 <= i < j < |s| && i < n ==> Key(s[i], bySource, e) <= Key(s[j], bySource, e)
  }

  /** None of the items strictly between `i` and `j` is below item `i`. */
  ghost predicate LeastUpTo(s: seq<MappedBits>, i: nat, j: nat, bySource: bool, e: Endian)
    requires i < |s|
  {
    forall k :: i < k < j && k < |s| ==> Key(s[i], bySource, e) <= Key(s[k], bySource, e)
  }

  /** In order: the left bits of the chosen ranges go up, or down with bits numbered from the right. */
  lemma SortedMeans(s: seq<MappedBits>, bySource: bool, e: Endian)
    ensures Sorted(s, bySource, e) <==>
            forall i, j :: 0 <= i < j < |s| ==>
              var (a, b) := if bySource then (s[i].src.l, s[j].src.l) else (s[i].tgt.l, s[j].tgt.l);
              if e.Big? then a <= b else b <= a
  {
    assert forall i :: 0 <= i < |s| ==>
             Key(s[i], bySource, e) == (var l := if bySource then s[i].src.l else s[i].tgt.l; if e.Big? then l else -1 - l);
  }

  method Sort(a: array<MappedBits>, bySource: bool, e: Endian)
    modifies a
    ensures Sorted(a[..], bySource, e)
    ensures multiset(a[..]) == multiset(old(a[..]))
  {
    for i := 0 to a.Length
      invariant Settled(a[..], i, bySource, e)
      invariant multiset(a[..]) == multiset(old(a[..]))
    {
      SettleAt(a, i, bySource, e);
    }
  }

  method SettleAt(a: array<MappedBits>, i: nat, bySource: bool, e: Endian)
    requires i < a.Length && Settled(a[..], i, bySource, e)
    modifies a
    ensures Settled(a[..], i + 1, bySource, e)
    ensures multiset(a[..]) == multiset(old(a[..]))
  {
    for j := i + 1 to a.Length
      invariant Settled(a[..], i, bySource, e) && LeastUpTo(a[..], i, j, bySource, e)
      invariant multiset(a[..]) == multiset(old(a[..]))
    {
      CompareStep(a[..], i, j, bySource, e);
      if Key(a[i], bySource, e) > Key(a[j], bySource, e) {
        Swap(a, i, j);
      }
    }
  }

  method Swap(a: array<MappedBits>, i: nat, j: nat)
    requires i < j < a.Length
    modifies a
    ensures a[..] == old(a[..][i := a[j]][j := a[i]])
    ensures multiset(a[..]) == multiset(old(a[..]))
  {
    a[i], a[j] := a[j], a[i];
  }

  lemma CompareStep(s: seq<MappedBits>, i: nat, j: nat, bySource: bool, e: Endian)
    requires i < j < |s| && Settled(s, i, bySource, e) && LeastUpTo(s, i, j, bySource, e)
    ensures
      var t := if Key(s[i], bySource, e) > Key(s[j], bySource, e) then s[i := s[j]][j := s[i]] else s;
      Settled(t, i, bySource, e) && LeastUpTo(t, i, j + 1, bySource, e)
  {
  }

  // ----- a value must fit its piece: check_split_value -----

  /** Floor of the base-two logarithm; zero for zero. */
  function Log2(v: nat): nat { if v < 2 then 0 else 1 + Log2(v / 2) }

  lemma {:induction false} Log2Bounds(v: nat)
    ensures v < Pow2(Log2(v) + 1)
    ensures v > 0 ==> Pow2(Log2(v)) <= v
  {
    if v >= 2 {
      Log2Bounds(v / 2);
    }
  }

  predicate CheckSplitValue(m: MappedBits) { !(m.src.Width() < Log2(m.value) + 1) }

  lemma CheckSplitValueMeans(m: MappedBits)
    ensures CheckSplitValue(m) <==> m.value < Pow2(m.src.Width())
  {
    var n := m.src.Width();
    Log2Bounds(m.value);
    if CheckSplitValue(m) {
      Pow2Grows(Log2(m.value) + 1, n);
    } else {
      Pow2Grows(n, Log2(m.value));
    }
  }

  // ----- concatenation: get_split_value -----

  /** The values side by side, each in the width of its piece. */
  function Joined(s: seq<MappedBits>): Word {
    if s == [] then [] else Joined(Front(s)) + FromNat(Last(s).value, Last(s).src.Width())
  }

  method GetSplitValue(s: seq<MappedBits>, valBits: nat := 64) returns (val: Word)
    requires forall i :: 0 <= i < |s| ==> CheckSplitValue(s[i]) && s[i].src.Width() < valBits
    ensures val == Resize(Joined(s), valBits)
  {
    val := Zeros(valBits);
    for i := 0 to |s|
      invariant val == Resize(Joined(s[..i]), valBits)
    {
      JoinStep(s[..i + 1], valBits);
      assert Front(s[..i + 1]) == s[..i];
      val := Shl(val, s[i].src.Width());
      val := Or(val, FromNat(s[i].value, valBits));
    }
    assert s[..|s|] == s;
  }

  lemma JoinStep(s: seq<MappedBits>, valBits: nat)
    requires s != [] && CheckSplitValue(Last(s)) && Last(s).src.Width() < valBits
    ensures Or(Shl(Resize(Joined(Front(s)), valBits), Last(s).src.Width()), FromNat(Last(s).value, valBits))
            == Resize(Joined(s), valBits)
  {
    var m := Last(s);
    CheckSplitValueMeans(m);
    ResizeNumber(m.value, m.src.Width(), valBits);
    AppendField(Joined(s), Joined(Front(s)), FromNat(m.value, m.src.Width()), m.src.Width(), valBits);
  }

  // ----- the pieces survive -----

  function Sources(s: seq<MappedBits>): BitPairs {
    if s == [] then [] else Sources(Front(s)) + [Last(s).src]
  }

  /** Every piece as a field of its own. */
  function Separate(s: seq<MappedBits>): (ps: seq<Piece>)
    ensures |ps| == |s| && forall i :: 0 <= i < |s| ==> ps[i] == Piece([s[i].src], s[i].value)
  {
    seq(|s|, i requires 0 <= i < |s| => Piece([s[i].src], s[i].value))
  }

  /** Scattering the joined bits over the ranges puts every piece on its own range. */
  lemma {:induction false} JoinedIsSeparate(s: seq<MappedBits>, e: Endian, w: nat)
    ensures |Positions(Sources(s), e, w)| == |Joined(s)|
    ensures Scatter(Positions(Sources(s), e, w), Joined(s), w) == OpcodeWord(Separate(s), e, w)
  {
    if s == [] {
      assert OpcodeWord(Separate(s), e, w) == Zeros(w);
    } else {
      var f, m := Front(s), Last(s);
      var n := m.src.Width();
      JoinedIsSeparate(f, e, w);
      assert Front(Sources(s)) == Sources(f);
      assert Front(Separate(s)) == Separate(f);
      OneRange(m.src, e, m.value, w);
      ScatterConcat(Positions(Sources(f), e, w), Run(m.src.Lo(e, w), n), Joined(f), FromNat(m.value, n), w);
    }
  }

  lemma OneRange(b: BitPair, e: Endian, value: nat, w: nat)
    ensures Positions([b], e, w) == Run(b.Lo(e, w), b.Width())
    ensures FieldWord([b], e, value, w) == Scatter(Run(b.Lo(e, w), b.Width()), FromNat(value, b.Width()), w)
  {
    assert Front([b]) == [];
  }

  /**
   The one field built from the pieces holds exactly what the pieces hold, if and only if
   the joined value fits the integer that carries it.
   */
  lemma SplitOpcodeKeepsPieces(s: seq<MappedBits>, e: Endian, w: nat, valBits: nat)
    requires AllFit(Sources(s), e, w) && Distinct(Positions(Sources(s), e, w))
    ensures FieldWord(Sources(s), e, ToNat(Resize(Joined(s), valBits)), w) == OpcodeWord(Separate(s), e, w)
            <==> ToNat(Joined(s)) < Pow2(valBits)
  {
    var c, p := Joined(s), Positions(Sources(s), e, w);
    var v := ToNat(Resize(c, valBits));
    JoinedIsSeparate(s, e, w);
    PositionsInWord(Sources(s), e, w);
    GatherScatter(p, c, w);
    GatherScatter(p, FromNat(v, |p|), w);
    SurvivesIffFits(c, valBits);
  }

  /** Fields of at most 64 bits, which is all that are accepted, keep their pieces. */
  lemma NarrowOpcodeKeepsPieces(s: seq<MappedBits>, e: Endian, w: nat, valBits: nat)
    requires AllFit(Sources(s), e, w) && Distinct(Positions(Sources(s), e, w)) && TotalWidth(Sources(s)) <= valBits
    ensures FieldWord(Sources(s), e, ToNat(Resize(Joined(s), valBits)), w) == OpcodeWord(Separate(s), e, w)
  {
    JoinedIsSeparate(s, e, w);
    PositionsWidth(Sources(s), e, w);
    ToNatFits(Joined(s));
    Pow2Grows(|Joined(s)|, valBits);
    SplitOpcodeKeepsPieces(s, e, w, valBits);
  }

  lemma SurvivesIffFits(c: Word, n: nat)
    ensures FromNat(ToNat(Resize(c, n)), |c|) == c <==> ToNat(c) < Pow2(n)
  {
    var v := ToNat(Resize(c, n));
    FromToNat(c);
    ToNatFits(c);
    ToNatFits(Resize(c, n));
    if ToNat(c) < Pow2(n) {
      ResizeNumber(ToNat(c), |c|, n);
      FromNatFits(ToNat(c), n);
    } else {
      ToFromNat(v, |c|);
      RemainderAtMost(v, Pow2(|c|));
    }
  }

  lemma RemainderAtMost(v: nat, m: nat)
    requires m > 0
    ensures v % m <= v
  {
    assert v == (v / m) * m + v % m;
  }

  /** Pieces whose ranges do not intersect share no word bit. */
  lemma PiecesClear(s: seq<MappedBits>, i: nat, e: Endian, w: nat)
    requires i < |s| && forall j :: 0 <= j < |s| ==> s[j].src.Ordered(e)
    requires forall j :: 0 <= j < |s| && j != i ==> !s[i].src.Intersects(e, s[j].src)
    ensures ClearOfOthers(Separate(s), i, e, w)
  {
    var ps := Separate(s);
    OneRange(s[i].src, e, 0, w);
    forall j | 0 <= j < |ps| && j != i
      ensures Disjoint(Positions(ps[i].bits, e, w), Positions(ps[j].bits, e, w))
    {
      OneRange(s[j].src, e, 0, w);
      ApartFromOne(s[j].src, s[i].src, e, w);
    }
  }

  lemma OneRangeFits(b: BitPair, e: Endian, w: nat)
    requires b.Fits(e, w)
    ensures AllFit([b], e, w) && Distinct(Positions([b], e, w)) && TotalWidth([b]) == b.Width()
  {
    OneRange(b, e, 0, w);
    assert TotalWidth([b]) == TotalWidth(Front([b])) + b.Width();
  }

  /** Hence each piece's own value is read from its own bits. */
  lemma PieceReadsBack(s: seq<MappedBits>, i: nat, e: Endian, w: nat)
    requires i < |s| && CheckSplitValue(s[i]) && s[i].src.Fits(e, w)
    requires forall j :: 0 <= j < |s| ==> s[j].src.Ordered(e)
    requires forall j :: 0 <= j < |s| && j != i ==> !s[i].src.Intersects(e, s[j].src)
    ensures FieldValue([s[i].src], e, OpcodeWord(Separate(s), e, w), false) == s[i].value
  {
    PiecesClear(s, i, e, w);
    OneRangeFits(s[i].src, e, w);
    ReadBack(Separate(s), i, e, w);
    CheckSplitValueMeans(s[i]);
    RemainderIs(s[i].value, Pow2(s[i].src.Width()), 0, s[i].value);
  }
}
