/**
 Automatic encoding: opcodes and operand positions for instructions whose description
 names their operands but not their bits.

 Every instruction gets the next opcode in a common leading field, and its operands, in
 order of first mention, follow it inside a common instruction width.
 */
module Encoder {
  import opened Basics
  import opened Words
  import opened BitFields
  import opened Opcodes
  import opened SplitOpcodes

  /** An entry of an instruction's field list: still to be placed, or an ordinary field. */
  datatype Entry = Tmp(name: Option<string>, value: nat, src: BitPair) | Plain(pseudo: bool)

  /** The part of an instruction that encoding reads and writes. */
  datatype State = State(entries: seq<Entry>, width: nat, isNested: bool, pseudo: bool, hasAction: bool,
                         assembler: bool)

  type Widths = map<string, nat>

  // ----- what encoding computes, on values -----

  predicate Skipped(s: State) { s.pseudo || (!s.hasAction && s.assembler) }

  predicate HasTmps(entries: seq<Entry>) { exists i :: 0 <= i < |entries| && entries[i].Tmp? }

  predicate AllPseudo(entries: seq<Entry>) {
    forall i :: 0 <= i < |entries| && entries[i].Plain? ==> entries[i].pseudo
  }

  /** This instruction receives an opcode. */
  predicate Encodes(s: State) { !Skipped(s) && HasTmps(s.entries) }

  predicate Supported(s: State) { Skipped(s) || HasTmps(s.entries) || AllPseudo(s.entries) }

  /** The operand names, each once, in order of first mention. */
  function Names(entries: seq<Entry>): seq<string> {
    if entries == [] then []
    else var (ns, last) := (Names(Front(entries)), Last(entries));
         if last.Tmp? && last.name.Some? && last.name.value !in ns then ns + [last.name.value] else ns
  }

  /** Declared width of a field; zero when there is no such field. */
  function WidthOf(name: string, fw: Widths): nat { if name in fw then fw[name] else 0 }

  function SumWidths(names: seq<string>, fw: Widths): nat {
    if names == [] then 0 else SumWidths(Front(names), fw) + WidthOf(Last(names), fw)
  }

  predicate Known(names: seq<string>, fw: Widths) {
    forall i :: 0 <= i < |names| ==> WidthOf(names[i], fw) > 0
  }

  /** The range of `n` bits that starts `start` bits from the left of the instruction. */
  function Span(e: Endian, width: nat, start: nat, n: nat): (b: BitPair)
    ensures 0 < n && start + n <= width ==>
              b.Fits(e, width) && b.Lo(e, width) == start && b.Width() == n
  {
    if !(0 < n && start + n <= width) then BitPair(0, 0)  // there is no such range
    else if e.Big? then BitPair(start, start + n - 1)
    else BitPair(width - 1 - start, width - start - n)
  }

  predicate Room(names: seq<string>, fw: Widths, size: nat, width: nat) {
    0 < size && Known(names, fw) && size + SumWidths(names, fw) <= width
  }

  /** The new field list: the opcode, then the operands side by side. */
  function Layout(names: seq<string>, fw: Widths, e: Endian, opcd: nat, size: nat, width: nat): seq<Entry> {
    if names == [] then [Tmp(None, opcd, Span(e, width, 0, size))]
    else Layout(Front(names), fw, e, opcd, size, width)
         + [Tmp(Some(Last(names)), 0, Span(e, width, size + SumWidths(Front(names), fw), WidthOf(Last(names), fw)))]
  }

  function EncodeOne(s: State, fw: Widths, e: Endian, opcd: nat, size: nat, width: nat): State {
    if Encodes(s) then s.(entries := Layout(Names(s.entries), fw, e, opcd, size, width), width := width) else s
  }

  // ----- one instruction: Instr::encode -----

  class Instr {
    var entries: seq<Entry>
    var width: nat
    var isNested: bool
    const pseudo: bool
    const hasAction: bool
    const assembler: bool
    const nested: seq<Instr>

    ghost function St(): State
      reads this
    {
      State(entries, width, isNested, pseudo, hasAction, assembler)
    }

    method Encode(fw: Widths, e: Endian, opcd: nat, size: nat, width: nat) returns (ok: bool, next: nat)
      requires Encodes(St()) ==> Room(Names(entries), fw, size, width)
      modifies this
      ensures ok <==> Supported(old(St()))
      ensures ok ==> St() == EncodeOne(old(St()), fw, e, opcd, size, width)
      ensures !ok ==> St() == old(St())
      ensures next == if Encodes(old(St())) then opcd + 1 else opcd
    {
      next := opcd;
      if pseudo || (!hasAction && assembler) { return true, next; }
      if HasTmps(entries) {
        var placed := LayOut(entries, fw, e, opcd, size, width);
        entries := placed;
        next := opcd + 1;
        this.width := width;
        return true, next;
      }
      return AllPseudo(entries), next;
    }

    /** Encode, first marking a nested instruction as such. */
    method EncodeAs(inner: bool, fw: Widths, e: Endian, opcd: nat, size: nat, width: nat) returns (ok: bool, next: nat)
      requires Encodes(St()) ==> Room(Names(entries), fw, size, width)
      modifies this
      ensures ok <==> Supported(old(St()))
      ensures ok ==> St() == EncodeOne(old(St()).(isNested := old(isNested) || inner), fw, e, opcd, size, width)
      ensures next == if Encodes(old(St())) then opcd + 1 else opcd
    {
      if inner {
        isNested := true;
      }
      ok, next := Encode(fw, e, opcd, size, width);
    }
  }

  method LayOut(entries: seq<Entry>, fw: Widths, e: Endian, opcd: nat, size: nat, width: nat)
    returns (placed: seq<Entry>)
    requires Room(Names(entries), fw, size, width)
    ensures placed == Layout(Names(entries), fw, e, opcd, size, width)
  {
    // Left and right bit of the range placed last.
    var lb: int := if e.Little? then width - 1 else 0;
    var rb: int := if e.Little? then lb - size + 1 else size - 1;
    placed := [Tmp(None, opcd, BitPair(lb, rb))];
    var counted: seq<string> := [];
    StartLaying(Names(entries), fw, e, opcd, size, width, lb, rb);
    for i := 0 to |entries|
      invariant counted == Names(entries[..i]) && Laying(counted, fw, e, opcd, size, width, rb, placed)
    {
      var x := entries[i];
      NamesStep(entries, i, fw, size, width);
      if x.Tmp? && x.name.Some? && x.name.value !in counted {
        rb, placed := Place(counted, x.name.value, fw, e, opcd, size, width, rb, placed);
        counted := counted + [x.name.value];
      }
    }
    assert entries[..|entries|] == entries;
  }

  /** The next operand goes beside the range placed last. */
  method Place(ghost counted: seq<string>, n: string, fw: Widths, e: Endian, ghost opcd: nat, ghost size: nat,
               ghost width: nat, rb: int, placed: seq<Entry>) returns (next: int, more: seq<Entry>)
    requires Laying(counted, fw, e, opcd, size, width, rb, placed) && Room(counted + [n], fw, size, width)
    ensures Laying(counted + [n], fw, e, opcd, size, width, next, more)
  {
    AddName(counted, n, fw, e, opcd, size, width, rb, placed);
    var lb := if e.Little? then rb - 1 else rb + 1;
    next := if e.Little? then rb - fw[n] else rb + fw[n];
    more := placed + [Tmp(Some(n), 0, BitPair(lb, next))];
  }

  ghost predicate Laying(names: seq<string>, fw: Widths, e: Endian, opcd: nat, size: nat, width: nat,
                         rb: int, placed: seq<Entry>) {
    && Room(names, fw, size, width)
    && rb == (if e.Little? then width - size - SumWidths(names, fw) else size + SumWidths(names, fw) - 1)
    && placed == Layout(names, fw, e, opcd, size, width)
  }

  lemma StartLaying(names: seq<string>, fw: Widths, e: Endian, opcd: nat, size: nat, width: nat, lb: int, rb: int)
    requires Room(names, fw, size, width)
    requires lb == (if e.Little? then width - 1 else 0) && rb == (if e.Little? then width - size else size - 1)
    ensures rb >= 0 && Laying([], fw, e, opcd, size, width, rb, [Tmp(None, opcd, BitPair(lb, rb))])
  {
  }

  /** One more entry adds its name, if it has one that is new. */
  lemma NamesStep(entries: seq<Entry>, i: nat, fw: Widths, size: nat, width: nat)
    requires i < |entries| && Room(Names(entries), fw, size, width)
    ensures Room(Names(entries[..i + 1]), fw, size, width)
    ensures
      var (x, ns) := (entries[i], Names(entries[..i]));
      Names(entries[..i + 1]) ==
      if x.Tmp? && x.name.Some? && x.name.value !in ns then ns + [x.name.value] else ns
  {
    assert Front(entries[..i + 1]) == entries[..i];
    RoomFor(entries, i + 1, fw, size, width);
  }

  lemma AddName(names: seq<string>, n: string, fw: Widths, e: Endian, opcd: nat, size: nat, width: nat,
                rb: int, placed: seq<Entry>)
    requires Laying(names, fw, e, opcd, size, width, rb, placed) && Room(names + [n], fw, size, width)
    ensures n in fw && fw[n] > 0
    ensures
      var rb' := if e.Little? then rb - WidthOf(n, fw) else rb + WidthOf(n, fw);
      var lb' := if e.Little? then rb - 1 else rb + 1;
      && lb' >= 0 && rb' >= 0
      && Laying(names + [n], fw, e, opcd, size, width, rb', placed + [Tmp(Some(n), 0, BitPair(lb', rb'))])
  {
    var ns := names + [n];
    assert Front(ns) == names && Last(ns) == n;
    assert WidthOf(ns[|names|], fw) > 0;
  }

  /** What fits for all the operands fits for the first ones. */
  lemma RoomFor(entries: seq<Entry>, i: nat, fw: Widths, size: nat, width: nat)
    requires i <= |entries| && Room(Names(entries), fw, size, width)
    ensures Room(Names(entries[..i]), fw, size, width)
  {
    var all, ns := Names(entries), Names(entries[..i]);
    NamesPrefix(entries, i);
    assert all[..|ns|] == ns;
    SumPrefix(all, |ns|, fw);
    assert forall k :: 0 <= k < |ns| ==> ns[k] == all[k];
  }

  lemma {:induction false} NamesPrefix(entries: seq<Entry>, i: nat)
    requires i <= |entries|
    ensures Names(entries[..i]) <= Names(entries)
  {
    if i < |entries| {
      NamesPrefix(Front(entries), i);
      assert Front(entries)[..i] == entries[..i];
    } else {
      assert entries[..i] == entries;
    }
  }

  lemma {:induction false} SumPrefix(names: seq<string>, k: nat, fw: Widths)
    requires k <= |names|
    ensures SumWidths(names[..k], fw) <= SumWidths(names, fw)
  {
    if k < |names| {
      SumPrefix(Front(names), k, fw);
      assert Front(names)[..k] == names[..k];
    } else {
      assert names[..k] == names;
    }
  }

  // ----- width of an instruction's operands: Instr::fields_width -----

  predicate AllIn(names: seq<string>, fw: Widths) { forall i :: 0 <= i < |names| ==> names[i] in fw }

  function FieldsWidth(s: State, fw: Widths): nat {
    if s.pseudo then 0 else SumWidths(Names(s.entries), fw)
  }

  predicate FieldsKnown(s: State, fw: Widths) { s.pseudo || AllIn(Names(s.entries), fw) }

  method ComputeFieldsWidth(instr: Instr, fw: Widths) returns (ok: bool, width: nat)
    ensures ok <==> FieldsKnown(instr.St(), fw)
    ensures ok ==> width == FieldsWidth(instr.St(), fw)
  {
    width := 0;
    if instr.pseudo { return true, 0; }
    var entries := instr.entries;
    var counted: seq<string> := [];
    for i := 0 to |entries|
      invariant counted == Names(entries[..i]) && AllIn(counted, fw) && width == SumWidths(counted, fw)
    {
      assert Front(entries[..i + 1]) == entries[..i];
      var x := entries[i];
      if x.Tmp? && x.name.Some? && x.name.value !in counted {
        var n := x.name.value;
        assert Front(counted + [n]) == counted;
        if n !in fw {
          NamesPrefix(entries, i + 1);
          assert n == Names(entries)[|counted|];
          return false, 0;
        }
        counted := counted + [n];
        width := width + fw[n];
      }
    }
    assert entries[..|entries|] == entries;
    return true, width;
  }

  // ----- all instructions: Core::encode_instrs -----

  /** Instructions in encoding order: each one, then the ones nested in it. */
  function Flat(instrs: seq<Instr>): seq<Instr> {
    if instrs == [] then [] else Flat(Front(instrs)) + [Last(instrs)] + Last(instrs).nested
  }

  /** Which of them are nested. */
  function Nested(instrs: seq<Instr>): (fs: seq<bool>)
    ensures |fs| == |Flat(instrs)|
  {
    if instrs == [] then []
    else Nested(Front(instrs)) + [false] + seq(|Last(instrs).nested|, _ => true)
  }

  ghost function States(all: seq<Instr>): (ss: seq<State>)
    reads all
    ensures |ss| == |all| && forall i :: 0 <= i < |all| ==> ss[i] == all[i].St()
  {
    seq(|all|, i requires 0 <= i < |all| reads all => all[i].St())
  }

  function CountEncodes(ss: seq<State>): nat {
    if ss == [] then 0 else CountEncodes(Front(ss)) + if Encodes(Last(ss)) then 1 else 0
  }

  /** Opcodes are handed out from 1. */
  function OpcodeOf(ss: seq<State>, i: nat): nat
    requires i <= |ss|
  {
    1 + CountEncodes(ss[..i])
  }

  function OpcodeSize(n: nat): nat { Log2(n + 1) + 1 }

  function RoundUp8(w: nat): nat { if w % 8 != 0 then (w / 8 + 1) * 8 else w }

  function MaxFieldsWidth(ss: seq<State>, fw: Widths): nat {
    if ss == [] then 0
    else var (m, w) := (MaxFieldsWidth(Front(ss), fw), FieldsWidth(Last(ss), fw)); if m > w then m else w
  }

  /** Every instruction that is encoded fits the common width. */
  ghost predicate AllFitIn(ss: seq<State>, fw: Widths, size: nat, width: nat) {
    forall i :: 0 <= i < |ss| && Encodes(ss[i]) ==> Room(Names(ss[i].entries), fw, size, width)
  }

  /** What instruction `i` becomes. */
  ghost function EncodedState(ss: seq<State>, nested: seq<bool>, i: nat, fw: Widths, e: Endian, size: nat, width: nat): State
    requires i < |ss| == |nested|
  {
    EncodeOne(ss[i].(isNested := ss[i].isNested || nested[i]), fw, e, OpcodeOf(ss, i), size, width)
  }

  ghost predicate AllKnown(ss: seq<State>, fw: Widths) { forall i :: 0 <= i < |ss| ==> FieldsKnown(ss[i], fw) }

  ghost predicate AllSupported(ss: seq<State>) { forall i :: 0 <= i < |ss| ==> Supported(ss[i]) }

  lemma {:induction false} MaxFieldsWidthBounds(ss: seq<State>, fw: Widths, i: nat)
    requires i < |ss|
    ensures FieldsWidth(ss[i], fw) <= MaxFieldsWidth(ss, fw)
  {
    if i < |ss| - 1 {
      MaxFieldsWidthBounds(Front(ss), fw, i);
    }
  }

  /** The chosen width has room for the opcode and the operands of every instruction. */
  lemma WidthHasRoom(ss: seq<State>, fw: Widths, size: nat, width: nat)
    requires forall n :: n in fw ==> fw[n] > 0
    requires AllKnown(ss, fw)
    requires size > 0 && width == RoundUp8(MaxFieldsWidth(ss, fw) + size)
    ensures AllFitIn(ss, fw, size, width)
  {
    forall i | 0 <= i < |ss| && Encodes(ss[i])
      ensures Room(Names(ss[i].entries), fw, size, width)
    {
      MaxFieldsWidthBounds(ss, fw, i);
      RoundsUp(MaxFieldsWidth(ss, fw) + size);
    }
  }

  lemma RoundsUp(w: nat)
    ensures RoundUp8(w) >= w
  {
  }

  ghost predicate WideUpTo(ss: seq<State>, i: nat, fw: Widths, width: nat) {
    i <= |ss| && (forall j :: 0 <= j < i ==> FieldsKnown(ss[j], fw)) && width == MaxFieldsWidth(ss[..i], fw)
  }

  lemma WideStep(ss: seq<State>, i: nat, fw: Widths, width: nat, w: nat)
    requires i < |ss| && WideUpTo(ss, i, fw, width) && FieldsKnown(ss[i], fw) && w == FieldsWidth(ss[i], fw)
    ensures WideUpTo(ss, i + 1, fw, if width > w then width else w)
  {
    assert Front(ss[..i + 1]) == ss[..i] && Last(ss[..i + 1]) == ss[i];
  }

  method CommonWidth(all: seq<Instr>, fw: Widths) returns (ok: bool, width: nat)
    ensures ok <==> AllKnown(States(all), fw)
    ensures ok ==> width == MaxFieldsWidth(States(all), fw)
  {
    ghost var ss := States(all);
    width := 0;
    for i := 0 to |all|
      invariant WideUpTo(ss, i, fw, width)
    {
      var known, w := ComputeFieldsWidth(all[i], fw);
      if !known { return false, 0; }
      WideStep(ss, i, fw, width, w);
      width := if width > w then width else w;
    }
    assert ss[..|all|] == ss;
    return true, width;
  }

  /** What the whole run promises about the instructions, given their states before it. */
  ghost predicate RunDone(all: seq<Instr>, ss: seq<State>, nested: seq<bool>, fw: Widths, e: Endian,
                          ok: bool, size: nat, width: nat)
    requires |all| == |ss| == |nested|
    reads all
  {
    && (ok <==> AllKnown(ss, fw) && AllSupported(ss))
    && (ok ==>
          && size == OpcodeSize(|ss|)
          && width == RoundUp8(MaxFieldsWidth(ss, fw) + size)
          && AllFitIn(ss, fw, size, width)
          && EncodedUpTo(all, ss, nested, |ss|, fw, e, size, width))
  }

  method EncodeInstrs(instrs: seq<Instr>, fw: Widths, e: Endian) returns (ok: bool, size: nat, width: nat)
    requires forall n :: n in fw ==> fw[n] > 0
    requires forall i, j :: 0 <= i < j < |Flat(instrs)| ==> Flat(instrs)[i] != Flat(instrs)[j]
    modifies Flat(instrs)
    ensures RunDone(Flat(instrs), old(States(Flat(instrs))), Nested(instrs), fw, e, ok, size, width)
  {
    ok, size, width := EncodeAll(Flat(instrs), Nested(instrs), fw, e);
  }

  method EncodeAll(all: seq<Instr>, nested: seq<bool>, fw: Widths, e: Endian) returns (ok: bool, size: nat, width: nat)
    requires |nested| == |all| && forall n :: n in fw ==> fw[n] > 0
    requires forall i, j :: 0 <= i < j < |all| ==> all[i] != all[j]
    modifies all
    ensures RunDone(all, old(States(all)), nested, fw, e, ok, size, width)
  {
    ghost var ss := States(all);
    size := OpcodeSize(|all|);
    ok, width := ChooseWidth(all, fw, size);
    if ok {
      ok := HandOut(all, nested, fw, e, size, width);
      RunIs(all, ss, nested, fw, e, ok, size, width);
    }
  }

  lemma RunIs(all: seq<Instr>, ss: seq<State>, nested: seq<bool>, fw: Widths, e: Endian,
              ok: bool, size: nat, width: nat)
    requires |all| == |ss| == |nested| && AllKnown(ss, fw) && (ok <==> AllSupported(ss))
    requires size == OpcodeSize(|ss|) && width == RoundUp8(MaxFieldsWidth(ss, fw) + size) && AllFitIn(ss, fw, size, width)
    requires ok ==> EncodedUpTo(all, ss, nested, |ss|, fw, e, size, width)
    ensures RunDone(all, ss, nested, fw, e, ok, size, width)
  {
  }

  method ChooseWidth(all: seq<Instr>, fw: Widths, size: nat) returns (ok: bool, width: nat)
    requires size > 0 && forall n :: n in fw ==> fw[n] > 0
    ensures ok <==> AllKnown(States(all), fw)
    ensures ok ==> width == RoundUp8(MaxFieldsWidth(States(all), fw) + size) && AllFitIn(States(all), fw, size, width)
  {
    ok, width := CommonWidth(all, fw);
    width := RoundUp8(width + size);
    if ok {
      WidthHasRoom(States(all), fw, size, width);
    }
  }

  /** The first `i` instructions are encoded, the others untouched. */
  ghost predicate EncodedUpTo(all: seq<Instr>, ss: seq<State>, nested: seq<bool>, i: nat,
                              fw: Widths, e: Endian, size: nat, width: nat)
    requires |all| == |ss| == |nested|
    reads all
  {
    && (forall j :: 0 <= j < i && j < |all| ==> all[j].St() == EncodedState(ss, nested, j, fw, e, size, width))
    && (forall j :: i <= j < |all| ==> all[j].St() == ss[j])
  }

  method HandOut(all: seq<Instr>, nested: seq<bool>, fw: Widths, e: Endian, size: nat, width: nat) returns (ok: bool)
    requires |nested| == |all| && AllFitIn(States(all), fw, size, width)
    requires forall i, j :: 0 <= i < j < |all| ==> all[i] != all[j]
    modifies all
    ensures ok <==> AllSupported(old(States(all)))
    ensures ok ==> EncodedUpTo(all, old(States(all)), nested, |all|, fw, e, size, width)
  {
    ghost var ss := States(all);
    var opcd := 1;
    for i := 0 to |all|
      invariant opcd == OpcodeOf(ss, i)
      invariant forall j :: 0 <= j < i ==> Supported(ss[j])
      invariant EncodedUpTo(all, ss, nested, i, fw, e, size, width)
    {
      ok, opcd := EncodeNth(all, ss, nested, i, fw, e, opcd, size, width);
      if !ok { return; }
    }
    ok := true;
  }

  method EncodeNth(all: seq<Instr>, ghost ss: seq<State>, nested: seq<bool>, i: nat, fw: Widths, e: Endian,
                   opcd: nat, size: nat, width: nat) returns (ok: bool, next: nat)
    requires i < |all| == |ss| == |nested| && AllFitIn(ss, fw, size, width) && opcd == OpcodeOf(ss, i)
    requires forall j :: 0 <= j < |all| && j != i ==> all[i] != all[j]
    requires EncodedUpTo(all, ss, nested, i, fw, e, size, width)
    modifies all[i]
    ensures ok <==> Supported(ss[i])
    ensures ok ==> next == OpcodeOf(ss, i + 1) && EncodedUpTo(all, ss, nested, i + 1, fw, e, size, width)
  {
    OpcodeStep(ss, i);
    ok, next := all[i].EncodeAs(nested[i], fw, e, opcd, size, width);
  }

  lemma OpcodeStep(ss: seq<State>, i: nat)
    requires i < |ss|
    ensures OpcodeOf(ss, i + 1) == OpcodeOf(ss, i) + if Encodes(ss[i]) then 1 else 0
  {
    assert Front(ss[..i + 1]) == ss[..i];
  }

  // ----- opcodes are distinct and fit -----

  lemma {:induction false} CountMonotone(ss: seq<State>, i: nat, j: nat)
    requires i <= j <= |ss|
    ensures CountEncodes(ss[..i]) <= CountEncodes(ss[..j]) <= CountEncodes(ss[..i]) + (j - i)
  {
    if i < j {
      CountMonotone(ss, i, j - 1);
      assert Front(ss[..j]) == ss[..j - 1];
    }
  }

  /** Later instructions get larger opcodes, and every opcode fits the opcode field. */
  lemma OpcodesDistinct(ss: seq<State>, i: nat, j: nat)
    requires i < j < |ss| && Encodes(ss[i])
    ensures 1 <= OpcodeOf(ss, i) < OpcodeOf(ss, j) < Pow2(OpcodeSize(|ss|))
  {
    OpcodeStep(ss, i);
    CountMonotone(ss, i + 1, j);
    OpcodeFits(ss, j);
  }

  lemma OpcodeFits(ss: seq<State>, i: nat)
    requires i < |ss|
    ensures 1 <= OpcodeOf(ss, i) < Pow2(OpcodeSize(|ss|))
  {
    assert ss[..0] == [];
    CountMonotone(ss, 0, i);
    Log2Bounds(|ss| + 1);
  }

  // ----- an encoded word is decodable -----

  /** Where operand `k` starts. */
  function Start(names: seq<string>, fw: Widths, size: nat, k: nat): nat
    requires k <= |names|
  {
    size + SumWidths(names[..k], fw)
  }

  lemma {:induction false} StartsAscend(names: seq<string>, fw: Widths, size: nat, j: nat, k: nat)
    requires j < k <= |names|
    ensures Start(names, fw, size, j) + WidthOf(names[j], fw) <= Start(names, fw, size, k)
  {
    assert Front(names[..k]) == names[..k - 1];
    if j < k - 1 {
      StartsAscend(names, fw, size, j, k - 1);
    }
  }

  lemma StartFits(names: seq<string>, fw: Widths, size: nat, width: nat, k: nat)
    requires k < |names| && Room(names, fw, size, width)
    ensures Start(names, fw, size, k) + WidthOf(names[k], fw) <= width
  {
    StartsAscend(names, fw, size, k, |names|);
    assert names[..|names|] == names;
  }

  /** The opcode comes first, then the operands in order. */
  lemma {:induction false} LayoutAt(names: seq<string>, fw: Widths, e: Endian, opcd: nat, size: nat, width: nat, k: nat)
    requires Room(names, fw, size, width) && k < |names|
    ensures |Layout(names, fw, e, opcd, size, width)| == |names| + 1
    ensures Start(names, fw, size, k) + WidthOf(names[k], fw) <= width
    ensures Layout(names, fw, e, opcd, size, width)[k + 1]
            == Tmp(Some(names[k]), 0, Span(e, width, Start(names, fw, size, k), WidthOf(names[k], fw)))
  {
    var f := Front(names);
    StartFits(names, fw, size, width, k);
    LayoutSize(f, fw, e, opcd, size, width);
    if k < |names| - 1 {
      LayoutAt(f, fw, e, opcd, size, width, k);
      assert f[..k] == names[..k];
    } else {
      assert f == names[..k];
    }
  }

  lemma {:induction false} LayoutSize(names: seq<string>, fw: Widths, e: Endian, opcd: nat, size: nat, width: nat)
    requires Room(names, fw, size, width)
    ensures |Layout(names, fw, e, opcd, size, width)| == |names| + 1
    ensures Layout(names, fw, e, opcd, size, width)[0] == Tmp(None, opcd, Span(e, width, 0, size))
  {
    if names != [] {
      LayoutSize(Front(names), fw, e, opcd, size, width);
    }
  }

  /** First bit and width of piece `k`: the opcode is piece 0, operand `k` is piece `k + 1`. */
  function PieceStart(names: seq<string>, fw: Widths, size: nat, k: nat): nat
    requires k <= |names|
  {
    if k == 0 then 0 else Start(names, fw, size, k - 1)
  }

  function PieceWidth(names: seq<string>, fw: Widths, size: nat, k: nat): nat
    requires k <= |names|
  {
    if k == 0 then size else WidthOf(names[k - 1], fw)
  }

  lemma PiecesAscend(names: seq<string>, fw: Widths, size: nat, width: nat, j: nat, k: nat)
    requires j < k <= |names| && Room(names, fw, size, width)
    ensures PieceStart(names, fw, size, j) + PieceWidth(names, fw, size, j) <= PieceStart(names, fw, size, k)
  {
    if j > 0 {
      StartsAscend(names, fw, size, j - 1, k - 1);
    }
  }

  /** The encoded fields with their values: what the assembler puts in the word. */
  function Filled(entries: seq<Entry>, operands: seq<nat>): (ps: seq<Piece>)
    ensures |ps| == |entries|
  {
    seq(|entries|, i requires 0 <= i < |entries| => Piece([RangeOf(entries[i])], ValueOf(entries[i], operands, i)))
  }

  function RangeOf(x: Entry): BitPair { if x.Tmp? then x.src else BitPair(0, 0) }

  function ValueOf(x: Entry, operands: seq<nat>, i: nat): nat {
    if x.Tmp? && x.name.None? then x.value else if 0 < i <= |operands| then operands[i - 1] else 0
  }

  ghost predicate IsLayout(entries: seq<Entry>, names: seq<string>, fw: Widths, e: Endian, opcd: nat, size: nat, width: nat) {
    && Room(names, fw, size, width)
    && entries == Layout(names, fw, e, opcd, size, width)
  }

  /** Every piece is one range, at its place in the word. */
  lemma PieceAt(entries: seq<Entry>, names: seq<string>, fw: Widths, e: Endian, opcd: nat, size: nat, width: nat, k: nat)
    requires IsLayout(entries, names, fw, e, opcd, size, width) && k <= |names|
    ensures |entries| == |names| + 1 && entries[k].Tmp? && (k == 0 ==> entries[0].value == opcd)
    ensures
      var (s, n) := (PieceStart(names, fw, size, k), PieceWidth(names, fw, size, k));
      0 < n && s + n <= width && entries[k].src == Span(e, width, s, n)
  {
    LayoutSize(names, fw, e, opcd, size, width);
    if k > 0 {
      LayoutAt(names, fw, e, opcd, size, width, k - 1);
    }
  }

  /** The pieces are pairwise disjoint and inside the word, in both numberings. */
  lemma PiecesDisjoint(entries: seq<Entry>, names: seq<string>, fw: Widths, e: Endian, opcd: nat, size: nat, width: nat,
                       j: nat, k: nat)
    requires IsLayout(entries, names, fw, e, opcd, size, width) && j <= |names| && k <= |names| && j != k
    ensures |entries| == |names| + 1 && entries[j].Tmp? && entries[k].Tmp?
    ensures entries[j].src.Fits(e, width) && entries[k].src.Fits(e, width)
    ensures Disjoint(Positions([entries[j].src], e, width), Positions([entries[k].src], e, width))
  {
    PieceAt(entries, names, fw, e, opcd, size, width, j);
    PieceAt(entries, names, fw, e, opcd, size, width, k);
    OneRange(entries[j].src, e, 0, width);
    OneRange(entries[k].src, e, 0, width);
    if j < k {
      PiecesAscend(names, fw, size, width, j, k);
    } else {
      PiecesAscend(names, fw, size, width, k, j);
    }
  }

  /** The number read from the bits of entry `k`. */
  function ReadEntry(entries: seq<Entry>, k: nat, e: Endian, word: Word): nat
    requires k < |entries|
  {
    FieldValue([RangeOf(entries[k])], e, word, false)
  }

  /** Reading any piece of the word gives what was put there, modulo the piece's width. */
  lemma PieceDecodes(entries: seq<Entry>, operands: seq<nat>, names: seq<string>, fw: Widths, e: Endian,
                     opcd: nat, size: nat, width: nat, k: nat)
    requires IsLayout(entries, names, fw, e, opcd, size, width) && k <= |names|
    ensures |entries| == |names| + 1
    ensures ReadEntry(entries, k, e, OpcodeWord(Filled(entries, operands), e, width))
            == ValueOf(entries[k], operands, k) % Pow2(PieceWidth(names, fw, size, k))
  {
    PieceAt(entries, names, fw, e, opcd, size, width, k);
    OneRangeFits(entries[k].src, e, width);
    FilledClear(entries, operands, names, fw, e, opcd, size, width, k);
    ReadBack(Filled(entries, operands), k, e, width);
  }

  lemma FilledClear(entries: seq<Entry>, operands: seq<nat>, names: seq<string>, fw: Widths, e: Endian,
                    opcd: nat, size: nat, width: nat, k: nat)
    requires IsLayout(entries, names, fw, e, opcd, size, width) && k <= |names| && |entries| == |names| + 1
    ensures ClearOfOthers(Filled(entries, operands), k, e, width)
  {
    var ps := Filled(entries, operands);
    forall j | 0 <= j < |ps| && j != k
      ensures Disjoint(Positions(ps[k].bits, e, width), Positions(ps[j].bits, e, width))
    {
      PiecesDisjoint(entries, names, fw, e, opcd, size, width, k, j);
    }
  }

  /** From the word assembled with these operands, the opcode and every operand are read back. */
  ghost predicate Decodes(entries: seq<Entry>, operands: seq<nat>, names: seq<string>, fw: Widths, e: Endian,
                          opcd: nat, size: nat, width: nat) {
    && |entries| == |operands| + 1 == |names| + 1
    && var word := OpcodeWord(Filled(entries, operands), e, width);
       && RangeOf(entries[0]) == Span(e, width, 0, size)
       && ReadEntry(entries, 0, e, word) == opcd
       && forall k :: 0 <= k < |operands| ==>
            ReadEntry(entries, k + 1, e, word) == operands[k] % Pow2(WidthOf(names[k], fw))
  }

  lemma LayoutDecodes(entries: seq<Entry>, operands: seq<nat>, names: seq<string>, fw: Widths, e: Endian,
                      opcd: nat, size: nat, width: nat)
    requires IsLayout(entries, names, fw, e, opcd, size, width) && |operands| == |names| && opcd < Pow2(size)
    ensures Decodes(entries, operands, names, fw, e, opcd, size, width)
  {
    PieceDecodes(entries, operands, names, fw, e, opcd, size, width, 0);
    LayoutSize(names, fw, e, opcd, size, width);
    RemainderIs(opcd, Pow2(size), 0, opcd);
    forall k | 0 <= k < |operands|
      ensures ReadEntry(entries, k + 1, e, OpcodeWord(Filled(entries, operands), e, width))
              == operands[k] % Pow2(WidthOf(names[k], fw))
    {
      LayoutAt(names, fw, e, opcd, size, width, k);
      PieceDecodes(entries, operands, names, fw, e, opcd, size, width, k + 1);
    }
  }

  /** No other instruction has the opcode of instruction `i`. */
  ghost predicate OwnsOpcode(ss: seq<State>, i: nat)
    requires i < |ss|
  {
    forall j :: 0 <= j < |ss| && j != i && Encodes(ss[j]) ==> OpcodeOf(ss, j) != OpcodeOf(ss, i)
  }

  /**
   Encoding is uniquely decodable.  Take any instruction the encoder gave an opcode to and any
   operand values: the leading field of the assembled word holds that opcode, no other
   instruction has it, and every operand is read back from its own field.
   */
  lemma UniquelyDecodable(ss: seq<State>, nested: seq<bool>, i: nat, fw: Widths, e: Endian, size: nat, width: nat,
                          operands: seq<nat>)
    requires i < |ss| == |nested| && Encodes(ss[i])
    requires size == OpcodeSize(|ss|) && AllFitIn(ss, fw, size, width)
    requires |operands| == |Names(ss[i].entries)|
    ensures OwnsOpcode(ss, i)
    ensures Decodes(EncodedState(ss, nested, i, fw, e, size, width).entries, operands, Names(ss[i].entries),
                    fw, e, OpcodeOf(ss, i), size, width)
  {
    OpcodeFits(ss, i);
    LayoutDecodes(EncodedState(ss, nested, i, fw, e, size, width).entries, operands, Names(ss[i].entries),
                  fw, e, OpcodeOf(ss, i), size, width);
    forall j | 0 <= j < |ss| && j != i && Encodes(ss[j])
      ensures OpcodeOf(ss, j) != OpcodeOf(ss, i)
    {
      if i < j { OpcodesDistinct(ss, i, j); } else { OpcodesDistinct(ss, j, i); }
    }
  }

  // ----- the run, told from the descriptions -----

  ghost predicate Mentions(entries: seq<Entry>, k: int, n: string) {
    0 <= k < |entries| && entries[k].Tmp? && entries[k].name == Some(n)
  }

  ghost predicate FirstMention(entries: seq<Entry>, k: int, n: string) {
    Mentions(entries, k, n) && forall j :: 0 <= j < k ==> !Mentions(entries, j, n)
  }

  lemma MentionsFront(entries: seq<Entry>, k: int, n: string)
    requires entries != []
    ensures Mentions(Front(entries), k, n) <==> k < |entries| - 1 && Mentions(entries, k, n)
  {
  }

  /** The operands are the names mentioned. */
  lemma {:induction false} NamesMentioned(entries: seq<Entry>, n: string)
    ensures n in Names(entries) <==> exists k :: Mentions(entries, k, n)
  {
    if entries != [] {
      NamesMentioned(Front(entries), n);
      forall k
        ensures Mentions(Front(entries), k, n) <==> k < |entries| - 1 && Mentions(entries, k, n)
      {
        MentionsFront(entries, k, n);
      }
      assert Last(entries).Tmp? && Last(entries).name == Some(n) ==> Mentions(entries, |entries| - 1, n);
    }
  }

  /** Each is an operand once, and they stand in the order of their first mention. */
  lemma {:induction false} NamesInOrder(entries: seq<Entry>, a: nat, b: nat, i: int, j: int)
    requires a < b < |Names(entries)|
    requires FirstMention(entries, i, Names(entries)[a]) && FirstMention(entries, j, Names(entries)[b])
    ensures Names(entries)[a] != Names(entries)[b] && i < j
  {
    var (ns, f) := (Names(entries), Front(entries));
    var g := Names(f);
    NamesMentioned(f, ns[a]);
    NamesMentioned(f, ns[b]);
    MentionsFront(entries, i, ns[a]);
    MentionsFront(entries, j, ns[b]);
    if b < |g| {
      EarlierMention(entries, i, ns[a]);
      EarlierMention(entries, j, ns[b]);
      NamesInOrder(f, a, b, i, j);
    } else {
      EarlierMention(entries, i, ns[a]);
    }
  }

  /** What is mentioned before the last entry is first mentioned before it. */
  lemma EarlierMention(entries: seq<Entry>, i: int, n: string)
    requires entries != [] && FirstMention(entries, i, n) && n in Names(Front(entries))
    ensures i < |entries| - 1 && FirstMention(Front(entries), i, n)
  {
    var f := Front(entries);
    NamesMentioned(f, n);
    var k :| Mentions(f, k, n);
    MentionsFront(entries, k, n);
    MentionsFront(entries, i, n);
    forall j | 0 <= j < i
      ensures !Mentions(f, j, n)
    {
      MentionsFront(entries, j, n);
    }
  }

  /** What the choice of the width starts from. */
  ghost predicate Chosen(ss: seq<State>, fw: Widths, size: nat, width: nat) {
    && (forall n :: n in fw ==> fw[n] > 0) && AllKnown(ss, fw)
    && size == OpcodeSize(|ss|) && width == RoundUp8(MaxFieldsWidth(ss, fw) + size)
  }

  /** The opcode that the first entry of an encoded instruction holds. */
  ghost function FirstValue(s: State): nat { if s.entries != [] && s.entries[0].Tmp? then s.entries[0].value else 0 }

  lemma OrdinaryEncoded(ss: seq<State>, nested: seq<bool>, i: nat, k: nat, fw: Widths, e: Endian, size: nat, width: nat)
    requires i < |ss| == |nested| && AllFitIn(ss, fw, size, width)
    requires !ss[i].pseudo && (ss[i].hasAction || !ss[i].assembler) && k < |ss[i].entries| && ss[i].entries[k].Tmp?
    ensures
      var s := EncodedState(ss, nested, i, fw, e, size, width);
      Encodes(ss[i]) && s.width == width && FirstValue(s) == OpcodeOf(ss, i)
  {
    LayoutSize(Names(ss[i].entries), fw, e, OpcodeOf(ss, i), size, width);
  }

  /**
   Every instruction with operands to place, except the pseudo instructions and those that only the
   assembler knows, is uniquely decodable.
   */
  lemma OrdinaryDecodable(ss: seq<State>, nested: seq<bool>, i: nat, k: nat, fw: Widths, e: Endian, size: nat, width: nat,
                          operands: seq<nat>)
    requires i < |ss| == |nested| && Chosen(ss, fw, size, width)
    requires !ss[i].pseudo && (ss[i].hasAction || !ss[i].assembler)
    requires k < |ss[i].entries| && ss[i].entries[k].Tmp? && |operands| == |Names(ss[i].entries)|
    ensures
      var s := EncodedState(ss, nested, i, fw, e, size, width);
      && s.width == width && 1 <= FirstValue(s) < Pow2(size)
      && Decodes(s.entries, operands, Names(ss[i].entries), fw, e, FirstValue(s), size, width)
  {
    WidthHasRoom(ss, fw, size, width);
    OrdinaryEncoded(ss, nested, i, k, fw, e, size, width);
    UniquelyDecodable(ss, nested, i, fw, e, size, width, operands);
    OpcodeFits(ss, i);
  }

  /** And no two of them have the same opcode: later ones have larger ones. */
  lemma OrdinaryApart(ss: seq<State>, nested: seq<bool>, i: nat, j: nat, k: nat, l: nat, fw: Widths, e: Endian,
                      size: nat, width: nat)
    requires i < j < |ss| == |nested| && Chosen(ss, fw, size, width)
    requires !ss[i].pseudo && (ss[i].hasAction || !ss[i].assembler) && k < |ss[i].entries| && ss[i].entries[k].Tmp?
    requires !ss[j].pseudo && (ss[j].hasAction || !ss[j].assembler) && l < |ss[j].entries| && ss[j].entries[l].Tmp?
    ensures FirstValue(EncodedState(ss, nested, i, fw, e, size, width))
            < FirstValue(EncodedState(ss, nested, j, fw, e, size, width))
  {
    WidthHasRoom(ss, fw, size, width);
    OrdinaryEncoded(ss, nested, i, k, fw, e, size, width);
    OrdinaryEncoded(ss, nested, j, l, fw, e, size, width);
    OpcodesDistinct(ss, i, j);
  }

  /** No number is left out: of the opcodes only those in between are larger by more than one. */
  lemma {:induction false} NextOpcode(ss: seq<State>, i: nat, j: nat)
    requires i < j < |ss| && Encodes(ss[i]) && forall m :: i < m < j ==> !Encodes(ss[m])
    ensures OpcodeOf(ss, j) == OpcodeOf(ss, i) + 1
    decreases j
  {
    OpcodeStep(ss, j - 1);
    if i < j - 1 {
      NextOpcode(ss, i, j - 1);
    }
  }

  lemma {:induction false} FirstOpcode(ss: seq<State>, i: nat)
    requires i < |ss| && forall m :: 0 <= m < i ==> !Encodes(ss[m])
    ensures OpcodeOf(ss, i) == 1
  {
    if i > 0 {
      OpcodeStep(ss, i - 1);
      FirstOpcode(ss, i - 1);
    } else {
      assert ss[..0] == [];
    }
  }

  /** All other instructions keep their entries and their width. */
  lemma OthersKept(ss: seq<State>, nested: seq<bool>, i: nat, fw: Widths, e: Endian, size: nat, width: nat)
    requires i < |ss| == |nested|
    requires ss[i].pseudo || (!ss[i].hasAction && ss[i].assembler) ||
             forall k :: 0 <= k < |ss[i].entries| ==> !ss[i].entries[k].Tmp?
    ensures
      var s := EncodedState(ss, nested, i, fw, e, size, width);
      s.entries == ss[i].entries && s.width == ss[i].width
  {
  }

  /** The run fails on an unknown field, or on an ordinary instruction that has fields with bits and none to place. */
  lemma RefusedIff(ss: seq<State>)
    ensures !AllSupported(ss) <==>
            exists i, k :: 0 <= i < |ss| && 0 <= k < |ss[i].entries| && ss[i].entries[k].Plain? && !ss[i].entries[k].pseudo
                           && !ss[i].pseudo && (ss[i].hasAction || !ss[i].assembler) && !HasTmps(ss[i].entries)
  {
    if !AllSupported(ss) {
      var i :| 0 <= i < |ss| && !Supported(ss[i]);
      var k :| 0 <= k < |ss[i].entries| && ss[i].entries[k].Plain? && !ss[i].entries[k].pseudo;
    }
  }

  /** A field is unknown when an instruction that is not a pseudo instruction mentions a name that is not declared. */
  lemma UnknownIff(ss: seq<State>, fw: Widths)
    ensures !AllKnown(ss, fw) <==>
            exists i, k, n :: 0 <= i < |ss| && !ss[i].pseudo && Mentions(ss[i].entries, k, n) && n !in fw
  {
    if !AllKnown(ss, fw) {
      var i :| 0 <= i < |ss| && !FieldsKnown(ss[i], fw);
      var m :| 0 <= m < |Names(ss[i].entries)| && Names(ss[i].entries)[m] !in fw;
      NamesMentioned(ss[i].entries, Names(ss[i].entries)[m]);
    }
    forall i, k, n | 0 <= i < |ss| && !ss[i].pseudo && Mentions(ss[i].entries, k, n) && n !in fw
      ensures !FieldsKnown(ss[i], fw)
    {
      NamesMentioned(ss[i].entries, n);
    }
  }

  // ----- how wide, and in which order -----

  /** The opcode field is as wide as the number of instructions and one more asks for. */
  lemma OpcodeSizeTight(n: nat)
    ensures OpcodeSize(n) > 0 && Pow2(OpcodeSize(n) - 1) <= n + 1 < Pow2(OpcodeSize(n))
  {
    Log2Bounds(n + 1);
  }

  lemma {:induction false} WidestIs(ss: seq<State>, fw: Widths) returns (i: nat)
    ensures MaxFieldsWidth(ss, fw) > 0 ==>
              i < |ss| && !ss[i].pseudo && SumWidths(Names(ss[i].entries), fw) == MaxFieldsWidth(ss, fw)
  {
    i := 0;
    if ss != [] {
      i := WidestIs(Front(ss), fw);
      if FieldsWidth(Last(ss), fw) == MaxFieldsWidth(ss, fw) {
        i := |ss| - 1;
      }
    }
  }

  /** The chosen width is in whole bytes, and less than a byte wider than some instruction needs. */
  lemma WidthIsTight(ss: seq<State>, fw: Widths, size: nat, width: nat)
    requires Chosen(ss, fw, size, width)
    ensures width % 8 == 0
    ensures width < size + 8 || exists i :: 0 <= i < |ss| && !ss[i].pseudo
                                  && width < size + SumWidths(Names(ss[i].entries), fw) + 8
  {
    var i := WidestIs(ss, fw);
    var w := MaxFieldsWidth(ss, fw) + size;
    assert RoundUp8(w) < w + 8;
  }

  /** The pieces follow one another without a gap. */
  lemma PiecesAdjacent(names: seq<string>, fw: Widths, size: nat, k: nat)
    requires k < |names|
    ensures PieceStart(names, fw, size, k + 1) == PieceStart(names, fw, size, k) + PieceWidth(names, fw, size, k)
  {
    if k == 0 {
      assert names[..0] == [];
    } else {
      assert Front(names[..k]) == names[..k - 1];
    }
  }

  lemma JoinLast<T>(a: seq<T>, b: seq<T>, f: seq<T>, x: seq<T>, y: seq<T>)
    requires f == a + b
    ensures f + x + y == a + (b + x + y)
  {
  }

  /** Instructions come in the order given, each followed by the ones nested in it. */
  lemma {:induction false} FlatConcat(a: seq<Instr>, b: seq<Instr>)
    ensures Flat(a + b) == Flat(a) + Flat(b)
  {
    if b == [] {
      assert a + b == a;
    } else {
      assert Front(a + b) == a + Front(b) && Last(a + b) == Last(b);
      FlatConcat(a, Front(b));
      JoinLast(Flat(a), Flat(Front(b)), Flat(a + Front(b)), [Last(b)], Last(b).nested);
    }
  }

  lemma {:induction false} NestedConcat(a: seq<Instr>, b: seq<Instr>)
    ensures Nested(a + b) == Nested(a) + Nested(b)
  {
    if b == [] {
      assert a + b == a;
    } else {
      assert Front(a + b) == a + Front(b) && Last(a + b) == Last(b);
      NestedConcat(a, Front(b));
      JoinLast(Nested(a), Nested(Front(b)), Nested(a + Front(b)), [false], seq(|Last(b).nested|, _ => true));
    }
  }

  lemma FlatOne(x: Instr)
    ensures Flat([x]) == [x] + x.nested
    ensures |Nested([x])| == 1 + |x.nested| && !Nested([x])[0] && forall k :: 0 < k <= |x.nested| ==> Nested([x])[k]
  {
    assert Front([x]) == [];
  }
}
