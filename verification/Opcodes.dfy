/**
 Putting the fields of one instruction together: the overlap check, the opcode word and
 the mask of reserved bits.

 The opcode word of instructions whose byte order differs from their bit numbering is
 shifted or word-swapped afterwards; that step is not part of this model.
 */
module Opcodes {
  import opened Basics
  import opened Words
  import opened BitFields

  /** A field as an instruction uses it. */
  datatype Field = Field(bits: BitPairs, overlay: bool, reserved: bool)

  /** A field with the value an instruction fixes for it. */
  datatype Piece = Piece(bits: BitPairs, value: nat)

  // ----- highest bit -----

  function HighBit(bits: BitPairs): nat {
    if bits == [] then 0
    else var (h, b) := (HighBit(Front(bits)), Last(bits));
         var m := if b.l > b.r then b.l else b.r;
         if h > m then h else m
  }

  lemma {:induction false} HighBitBounds(bits: BitPairs, e: Endian, w: nat)
    requires AllOrdered(bits, e) && HighBit(bits) < w
    ensures AllFit(bits, e, w)
  {
    if bits != [] {
      HighBitBounds(Front(bits), e, w);
    }
  }

  /** The highest bit is one that a range names. */
  lemma {:induction false} HighBitAttained(bits: BitPairs)
    ensures bits != [] ==> exists i :: 0 <= i < |bits| && (bits[i].l == HighBit(bits) || bits[i].r == HighBit(bits))
    ensures forall i :: 0 <= i < |bits| ==> bits[i].l <= HighBit(bits) && bits[i].r <= HighBit(bits)
    ensures bits == [] ==> HighBit(bits) == 0
  {
    if bits != [] {
      var f := Front(bits);
      HighBitAttained(f);
      assert forall i :: 0 <= i < |f| ==> f[i] == bits[i];
      assert Last(bits) == bits[|bits| - 1];
      if f != [] {
        var i :| 0 <= i < |f| && (f[i].l == HighBit(f) || f[i].r == HighBit(f));
        assert bits[i] == f[i];
      }
    }
  }

  /** And the highest of all fields is that of one of them. */
  lemma {:induction false} HighBitAllAttained(all: seq<Field>)
    ensures all != [] ==> exists i :: 0 <= i < |all| && HighBit(all[i].bits) == HighBitAll(all)
    ensures all == [] ==> HighBitAll(all) == 0
  {
    if all != [] {
      var f := Front(all);
      HighBitAllAttained(f);
      assert forall i :: 0 <= i < |f| ==> f[i] == all[i];
      assert Last(all) == all[|all| - 1];
      if f != [] {
        var i :| 0 <= i < |f| && HighBit(f[i].bits) == HighBitAll(f);
        assert all[i] == f[i];
      }
    }
  }

  function HighBitAll(all: seq<Field>): nat {
    if all == [] then 0
    else var (h, m) := (HighBitAll(Front(all)), HighBit(Last(all).bits)); if h > m then h else m
  }

  lemma {:induction false} HighBitAllBounds(all: seq<Field>, i: nat)
    requires i < |all|
    ensures HighBit(all[i].bits) <= HighBitAll(all)
  {
    if i < |all| - 1 {
      HighBitAllBounds(Front(all), i);
    }
  }

  // ----- the overlap check -----

  ghost predicate AllFieldsOrdered(all: seq<Field>, e: Endian) {
    forall i :: 0 <= i < |all| ==> AllOrdered(all[i].bits, e)
  }

  /** No two fields, overlays aside, name the same bit. */
  ghost predicate NoOverlap(all: seq<Field>) {
    forall i, j :: 0 <= i < j < |all| && !all[i].overlay && !all[j].overlay ==>
      Disjoint(ListedAll(all[i].bits), ListedAll(all[j].bits))
  }

  /** Bits of a field, set one at a time. */
  method MarkBits(bits: BitPairs, e: Endian, w: nat) returns (mask: Word)
    requires AllFit(bits, e, w)
    ensures mask == FieldMask(bits, e, w)
  {
    mask := Zeros(w);
    for n := 0 to |bits|
      invariant mask == FieldMask(bits[..n], e, w)
    {
      assert Front(bits[..n + 1]) == bits[..n];
      assert bits[n].Fits(e, w);
      ghost var before := mask;
      var lo, hi := bits[n].Lo(e, w), bits[n].Hi(e, w);
      for i := lo to hi + 1
        invariant |mask| == w
        invariant forall k :: 0 <= k < w ==> (mask[k] <==> before[k] || lo <= k < i)
      {
        mask := mask[i := true];
      }
      ghost var part := seq(w, k => lo <= k <= hi);
      assert mask == Or(before, part);
      MaskStep(bits[..n + 1], part, e, w);
    }
    assert bits[..|bits|] == bits;
  }

  /** The bits of the fields that are not overlays. */
  function Occupied(all: seq<Field>, e: Endian, w: nat): (x: Word)
    ensures |x| == w
  {
    if all == [] then Zeros(w)
    else if Last(all).overlay then Occupied(Front(all), e, w)
    else Or(Occupied(Front(all), e, w), FieldMask(Last(all).bits, e, w))
  }

  method HighestBit(all: seq<Field>) returns (cw: nat)
    ensures cw == HighBitAll(all)
  {
    cw := 0;
    for i := 0 to |all|
      invariant cw == HighBitAll(all[..i])
    {
      assert Front(all[..i + 1]) == all[..i];
      var h := HighBit(all[i].bits);
      cw := if cw > h then cw else h;
    }
    assert all[..|all|] == all;
  }

  method CheckOverlap(all: seq<Field>, e: Endian) returns (ok: bool)
    requires AllFieldsOrdered(all, e)
    ensures ok <==> NoOverlap(all)
  {
    var cw := HighestBit(all);
    cw := cw + 1;
    var mask := Zeros(cw);
    for i := 0 to |all|
      invariant mask == Occupied(all[..i], e, cw)
      invariant NoOverlap(all[..i])
    {
      OverlapStep(all, e, cw, i);
      if !all[i].overlay {
        var tmp := MarkBits(all[i].bits, e, cw);
        if !IsZero(And(mask, tmp)) { return false; }
        mask := Or(mask, tmp);
      }
    }
    assert all[..|all|] == all;
    return true;
  }

  /** One more field is accepted exactly when it is clear of the ones before it. */
  lemma OverlapStep(all: seq<Field>, e: Endian, w: nat, i: nat)
    requires AllFieldsOrdered(all, e) && i < |all| && NoOverlap(all[..i]) && w == HighBitAll(all) + 1
    ensures AllFit(all[i].bits, e, w)
    ensures
      var clear := all[i].overlay || IsZero(And(Occupied(all[..i], e, w), FieldMask(all[i].bits, e, w)));
      (clear ==> NoOverlap(all[..i + 1])) && (!clear ==> !NoOverlap(all))
    ensures
      Occupied(all[..i + 1], e, w) ==
      if all[i].overlay then Occupied(all[..i], e, w)
      else Or(Occupied(all[..i], e, w), FieldMask(all[i].bits, e, w))
  {
    assert Front(all[..i + 1]) == all[..i] && Last(all[..i + 1]) == all[i];
    HighBitAllBounds(all, i);
    HighBitBounds(all[i].bits, e, w);
    ClearOfAll(all[..i], all[i], e, w);
    NoOverlapSnoc(all, i);
  }

  lemma NoOverlapSnoc(all: seq<Field>, i: nat)
    requires i < |all| && NoOverlap(all[..i])
    ensures
      var clear := all[i].overlay || forall j :: 0 <= j < i && !all[..i][j].overlay ==>
                     Disjoint(ListedAll(all[..i][j].bits), ListedAll(all[i].bits));
      (clear ==> NoOverlap(all[..i + 1])) && (!clear ==> !NoOverlap(all))
  {
  }

  lemma {:induction false} ClearOfAll(all: seq<Field>, f: Field, e: Endian, w: nat)
    requires AllFieldsOrdered(all, e) && AllFit(f.bits, e, w)
    ensures IsZero(And(Occupied(all, e, w), FieldMask(f.bits, e, w)))
            <==> forall j :: 0 <= j < |all| && !all[j].overlay ==> Disjoint(ListedAll(all[j].bits), ListedAll(f.bits))
  {
    if all == [] {
    } else {
      var g := Last(all);
      ClearOfAll(Front(all), f, e, w);
      assert forall j :: 0 <= j < |all| - 1 ==> Front(all)[j] == all[j];
      if !g.overlay {
        assert AllOrdered(g.bits, e);
        ClearOfOne(g.bits, f.bits, e, w);
        ZeroAndOr(Occupied(Front(all), e, w), FieldMask(g.bits, e, w), FieldMask(f.bits, e, w));
      }
    }
  }

  lemma ZeroAndOr(x: Word, y: Word, z: Word)
    requires |x| == |y| == |z|
    ensures IsZero(And(Or(x, y), z)) <==> IsZero(And(x, z)) && IsZero(And(y, z))
  {
    var o, a, b := And(Or(x, y), z), And(x, z), And(y, z);
    assert forall i :: 0 <= i < |x| ==> o[i] == (a[i] || b[i]);
  }

  /** Two masks are clear of each other exactly when the listed bits differ: the width does not matter. */
  lemma ClearOfOne(a: BitPairs, b: BitPairs, e: Endian, w: nat)
    requires AllOrdered(a, e) && AllFit(b, e, w)
    ensures IsZero(And(FieldMask(a, e, w), FieldMask(b, e, w))) <==> Disjoint(ListedAll(a), ListedAll(b))
  {
    DisjointAtWidth(a, b, e, w);
    PositionsInWord(b, e, w);
    var p, q := Positions(a, e, w), Positions(b, e, w);
    var x := And(FieldMask(a, e, w), FieldMask(b, e, w));
    assert forall i :: 0 <= i < w ==> (x[i] <==> i in p && i in q);
    if !Disjoint(p, q) {
      var i, j :| 0 <= i < |p| && 0 <= j < |q| && p[i] == q[j];
      assert p[i] in p && q[j] in q && x[q[j]];
    }
  }

  lemma DisjointAtWidth(a: BitPairs, b: BitPairs, e: Endian, w: nat)
    requires AllOrdered(a, e) && AllOrdered(b, e)
    ensures Disjoint(Positions(a, e, w), Positions(b, e, w)) <==> Disjoint(ListedAll(a), ListedAll(b))
  {
    ListedFixesPositions(a, e, w);
    ListedFixesPositions(b, e, w);
    RenumberDisjoint(ListedAll(a), ListedAll(b), e, w);
  }

  lemma RenumberDisjoint(s: seq<int>, t: seq<int>, e: Endian, w: nat)
    ensures Disjoint(Renumber(s, e, w), Renumber(t, e, w)) <==> Disjoint(s, t)
  {
    var p, q := Renumber(s, e, w), Renumber(t, e, w);
    assert forall i, j :: 0 <= i < |s| && 0 <= j < |t| ==> (p[i] == q[j] <==> s[i] == t[j]);
  }

  // ----- the opcode word: Instr::getOpcode -----

  function OpcodeWord(opcs: seq<Piece>, e: Endian, w: nat): (x: Word)
    ensures |x| == w
  {
    if opcs == [] then Zeros(w)
    else Or(OpcodeWord(Front(opcs), e, w), FieldWord(Last(opcs).bits, e, Last(opcs).value, w))
  }

  ghost predicate Placeable(p: Piece, e: Endian, w: nat, valBits: nat) {
    p.value < Pow2(valBits) && AllFit(p.bits, e, w) && Shiftable(p.bits, valBits)
  }

  method GetOpcode(opcs: seq<Piece>, e: Endian, width: nat, valBits: nat := 64) returns (opcode: Word)
    requires forall i :: 0 <= i < |opcs| ==> Placeable(opcs[i], e, width, valBits)
    ensures opcode == OpcodeWord(opcs, e, width)
  {
    opcode := Zeros(width);
    for i := 0 to |opcs|
      invariant opcode == OpcodeWord(opcs[..i], e, width)
    {
      assert Placeable(opcs[i], e, width, valBits);
      assert Front(opcs[..i + 1]) == opcs[..i];
      var tmp := SetValue(opcs[i].bits, e, opcs[i].value, width, valBits);
      opcode := Or(opcode, tmp);
    }
    assert opcs[..|opcs|] == opcs;
  }

  ghost predicate ClearOfOthers(opcs: seq<Piece>, i: nat, e: Endian, w: nat)
    requires i < |opcs|
  {
    forall j :: 0 <= j < |opcs| && j != i ==>
      Disjoint(Positions(opcs[i].bits, e, w), Positions(opcs[j].bits, e, w))
  }

  /** A field that shares no bit with the others is read back from the assembled word. */
  lemma ReadBack(opcs: seq<Piece>, i: nat, e: Endian, w: nat)
    requires i < |opcs| && ClearOfOthers(opcs, i, e, w)
    requires AllFit(opcs[i].bits, e, w) && Distinct(Positions(opcs[i].bits, e, w))
    ensures ReadAll(opcs[i].bits, e, OpcodeWord(opcs, e, w), false)
            == FromNat(opcs[i].value, TotalWidth(opcs[i].bits))
    ensures FieldValue(opcs[i].bits, e, OpcodeWord(opcs, e, w), false)
            == opcs[i].value % Pow2(TotalWidth(opcs[i].bits))
  {
    var bits := opcs[i].bits;
    PositionsWidth(bits, e, w);
    FieldValueIs(bits, e, OpcodeWord(opcs, e, w), false);
    ReadInOrder(bits, e, OpcodeWord(opcs, e, w), false);
    GatherOwn(opcs, i, e, w, Positions(bits, e, w));
    ToFromNat(opcs[i].value, TotalWidth(bits));
  }

  lemma {:induction false} GatherOwn(opcs: seq<Piece>, i: nat, e: Endian, w: nat, p: seq<int>)
    requires i < |opcs| && ClearOfOthers(opcs, i, e, w)
    requires p == Positions(opcs[i].bits, e, w) && InWord(p, w) && Distinct(p)
    ensures Gather(p, OpcodeWord(opcs, e, w)) == FromNat(opcs[i].value, |p|)
  {
    var f, l := Front(opcs), Last(opcs);
    var q := Positions(l.bits, e, w);
    if i == |opcs| - 1 {
      GatherNone(f, p, e, w);
      GatherScatter(p, FromNat(l.value, |p|), w);
      GatherOr(p, OpcodeWord(f, e, w), FieldWord(l.bits, e, l.value, w));
    } else {
      assert f[i] == opcs[i];
      GatherOwn(f, i, e, w, p);
      assert Disjoint(p, q);
      GatherOrElsewhere(p, q, FromNat(l.value, |q|), OpcodeWord(f, e, w));
    }
  }

  lemma GatherOr(p: seq<int>, x: Word, y: Word)
    requires |x| == |y| && Gather(p, x) == Zeros(|p|)
    ensures Gather(p, Or(x, y)) == Gather(p, y)
  {
    var g, h := Gather(p, Or(x, y)), Gather(p, y);
    forall k | 0 <= k < |p|
      ensures g[k] == h[k]
    {
      assert !Gather(p, x)[k];
    }
  }

  lemma {:induction false} GatherNone(opcs: seq<Piece>, p: seq<int>, e: Endian, w: nat)
    requires InWord(p, w) && forall j :: 0 <= j < |opcs| ==> Disjoint(p, Positions(opcs[j].bits, e, w))
    ensures Gather(p, OpcodeWord(opcs, e, w)) == Zeros(|p|)
  {
    if opcs != [] {
      var f, l := Front(opcs), Last(opcs);
      var q := Positions(l.bits, e, w);
      GatherNone(f, p, e, w);
      assert Disjoint(p, q);
      GatherOrElsewhere(p, q, FromNat(l.value, |q|), OpcodeWord(f, e, w));
    }
  }

  // ----- what acceptance means -----

  /** An opcode piece comes from the field list of its instruction. */
  ghost predicate TakenFrom(opcs: seq<Piece>, all: seq<Field>, at: seq<nat>) {
    && |at| == |opcs|
    && (forall i :: 0 <= i < |at| ==> at[i] < |all|)
    && (forall i :: 0 <= i < |at| ==> all[at[i]].bits == opcs[i].bits && !all[at[i]].overlay)
    && (forall i, j :: 0 <= i < j < |at| ==> at[i] != at[j])
  }

  /**
   Once the overlap check, made at the instruction's own highest bit, accepts the fields,
   every opcode field reads back its own value from the opcode word, at every width that
   contains it and in either bit numbering.
   */
  lemma AcceptedFieldsReadBack(all: seq<Field>, opcs: seq<Piece>, at: seq<nat>, i: nat, e: Endian, w: nat)
    requires AllFieldsOrdered(all, e) && NoOverlap(all) && TakenFrom(opcs, all, at)
    requires i < |opcs| && HighBit(opcs[i].bits) < w && Apart(opcs[i].bits, e)
    ensures FieldValue(opcs[i].bits, e, OpcodeWord(opcs, e, w), false)
            == opcs[i].value % Pow2(TotalWidth(opcs[i].bits))
  {
    var bits := opcs[i].bits;
    assert AllOrdered(all[at[i]].bits, e);
    HighBitBounds(bits, e, w);
    ApartIffDistinct(bits, e, w);
    forall j | 0 <= j < |opcs| && j != i
      ensures Disjoint(Positions(bits, e, w), Positions(opcs[j].bits, e, w))
    {
      ApartFields(all, at[i], at[j], e, w);
    }
    ReadBack(opcs, i, e, w);
  }

  /** Accepted fields have disjoint masks at every width. */
  lemma ApartFields(all: seq<Field>, i: nat, j: nat, e: Endian, w: nat)
    requires AllFieldsOrdered(all, e) && NoOverlap(all)
    requires i < |all| && j < |all| && i != j && !all[i].overlay && !all[j].overlay
    ensures Disjoint(Positions(all[i].bits, e, w), Positions(all[j].bits, e, w))
  {
    var a, b := all[i].bits, all[j].bits;
    assert AllOrdered(a, e) && AllOrdered(b, e);
    DisjointAtWidth(a, b, e, w);
    if i < j {
      assert Disjoint(ListedAll(a), ListedAll(b));
    } else {
      assert Disjoint(ListedAll(b), ListedAll(a));
    }
  }

  // ----- reserved bits: Instr::getReservedMask -----

  ghost predicate UsedBit(all: seq<Field>, e: Endian, w: nat, k: int) {
    exists i :: 0 <= i < |all| && !all[i].reserved && k in Positions(all[i].bits, e, w)
  }

  method GetReservedMask(all: seq<Field>, e: Endian, width: nat) returns (rmask: Word)
    requires forall i :: 0 <= i < |all| ==> AllFit(all[i].bits, e, width)
    ensures |rmask| == width
    ensures forall k :: 0 <= k < width ==> (rmask[k] <==> !UsedBit(all, e, width, k))
  {
    rmask := Ones(width);
    for i := 0 to |all|
      invariant |rmask| == width
      invariant forall k :: 0 <= k < width ==> (rmask[k] <==> !UsedBit(all[..i], e, width, k))
    {
      if !all[i].reserved {
        assert AllFit(all[i].bits, e, width);
        var mask := ComputeMask(all[i].bits, e, width);
        rmask := And(rmask, Not(mask));
      }
      forall k | 0 <= k < width
        ensures UsedBit(all[..i + 1], e, width, k) <==>
                UsedBit(all[..i], e, width, k) || (!all[i].reserved && k in Positions(all[i].bits, e, width))
      {
        UsedBitStep(all, e, width, k, i);
      }
    }
    assert all[..|all|] == all;
  }

  lemma UsedBitStep(all: seq<Field>, e: Endian, w: nat, k: int, i: nat)
    requires i < |all|
    ensures UsedBit(all[..i + 1], e, w, k) <==>
            UsedBit(all[..i], e, w, k) || (!all[i].reserved && k in Positions(all[i].bits, e, w))
  {
    var a, b := all[..i], all[..i + 1];
    if UsedBit(b, e, w, k) {
      var j :| 0 <= j < |b| && !b[j].reserved && k in Positions(b[j].bits, e, w);
      if j < i {
        assert a[j] == b[j];
      }
    }
    if UsedBit(a, e, w, k) {
      var j :| 0 <= j < |a| && !a[j].reserved && k in Positions(a[j].bits, e, w);
      assert b[j] == a[j];
    }
    assert b[i] == all[i];
  }

  /** An assembled word never touches a reserved bit. */
  lemma OpcodeClearOfReserved(all: seq<Field>, opcs: seq<Piece>, at: seq<nat>, e: Endian, w: nat, k: nat)
    requires TakenFrom(opcs, all, at) && k < w && !UsedBit(all, e, w, k)
    requires forall i :: 0 <= i < |opcs| ==> !all[at[i]].reserved
    ensures !OpcodeWord(opcs, e, w)[k]
  {
    forall j | 0 <= j < |opcs|
      ensures Disjoint([k as int], Positions(opcs[j].bits, e, w))
    {
      assert all[at[j]].bits == opcs[j].bits && !all[at[j]].reserved;
    }
    GatherNone(opcs, [k], e, w);
    assert !Gather([k], OpcodeWord(opcs, e, w))[0];
  }
}
