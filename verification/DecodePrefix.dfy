/**
 Whole decode programs: the code that puts the prefix bits in front of the fetched words,
 followed by the emitted switches.
 */
module DecodePrefix {
  import opened Basics
  import opened Words
  import opened DecodeTree
  import opened DecodeEmit

  // ----- prefix bits in front: encoding_shift, writePrefixArchFetchCode -----

  /** A field of an instruction, as the prefix code looks at it. */
  datatype PrefixField = PrefixField(known: bool, isPrefix: bool, indexed: bool, inBlock: bool,
                                     high: nat, low: nat, value: Word)

  /** An instruction with its operand fields and all its fields. */
  datatype PrefixInstr = PrefixInstr(pseudo: bool, width: nat, fields: seq<PrefixField>, all: seq<PrefixField>)

  /** The highest bit of the prefix fields, or of the others with bits numbered from the right; 0 without any. */
  function TopBit(all: seq<PrefixField>, little: bool): nat {
    if all == [] then 0
    else
      var (p, top) := (Last(all), TopBit(Front(all), little));
      if p.known && p.isPrefix != little && p.high > top then p.high else top
  }

  function ShiftOf(instr: PrefixInstr, little: bool): int {
    if little then instr.width - TopBit(instr.all, little) - 1 else TopBit(instr.all, little) + 1
  }

  /** The bits by which the instruction is moved to make place for the prefix. */
  method EncodingShift(instr: PrefixInstr, little: bool) returns (shift: int)
    ensures shift == ShiftOf(instr, little)
  {
    var ret := 0;
    var all := instr.all;
    for i := 0 to |all|
      invariant ret == TopBit(all[..i], little)
    {
      assert Front(all[..i + 1]) == all[..i] && Last(all[..i + 1]) == all[i];
      if all[i].known && all[i].isPrefix != little {
        ret := if ret > all[i].high then ret else all[i].high;
      }
    }
    assert all[..|all|] == all;
    shift := if little then instr.width - ret - 1 else ret + 1;
  }

  lemma {:induction false} TopBitIs(all: seq<PrefixField>, little: bool, p: PrefixField)
    ensures p in all && p.known && p.isPrefix != little ==> p.high <= TopBit(all, little)
  {
    if all != [] {
      TopBitIs(Front(all), little, p);
      assert all == Front(all) + [Last(all)];
    }
  }

  /** Without such a field the highest bit is 0; else one of them has it. */
  lemma {:induction false} TopBitAttained(all: seq<PrefixField>, little: bool)
    ensures TopBit(all, little) == 0 ||
            exists p :: p in all && p.known && p.isPrefix != little && p.high == TopBit(all, little)
  {
    if all != [] {
      TopBitAttained(Front(all), little);
      assert all == Front(all) + [Last(all)];
    }
  }

  /** `h` is the highest bit of the known fields that are prefix fields, or are not. */
  ghost predicate Highest(all: seq<PrefixField>, prefix: bool, h: nat) {
    && (exists p :: p in all && p.known && p.isPrefix == prefix && p.high == h)
    && (forall p :: p in all && p.known && p.isPrefix == prefix ==> p.high <= h)
  }

  /** Numbered from the left, the shift is one more than the highest prefix bit. */
  lemma ShiftFromLeft(instr: PrefixInstr, h: nat)
    requires Highest(instr.all, true, h)
    ensures ShiftOf(instr, false) == h + 1
  {
    TopBitAttained(instr.all, false);
    forall p | p in instr.all && p.known && p.isPrefix
      ensures p.high <= TopBit(instr.all, false)
    {
      TopBitIs(instr.all, false, p);
    }
  }

  /** Numbered from the right, it is the number of bits above the highest ordinary one. */
  lemma ShiftFromRight(instr: PrefixInstr, h: nat)
    requires Highest(instr.all, false, h)
    ensures ShiftOf(instr, true) == instr.width - (h + 1)
  {
    TopBitAttained(instr.all, true);
    forall p | p in instr.all && p.known && !p.isPrefix
      ensures p.high <= TopBit(instr.all, true)
    {
      TopBitIs(instr.all, true, p);
    }
  }

  /** Without such a field bit 0 counts as used. */
  lemma ShiftOfNone(instr: PrefixInstr, little: bool)
    requires forall p :: p in instr.all && p.known ==> p.isPrefix == little
    ensures ShiftOf(instr, little) == if little then instr.width - 1 else 1
  {
    TopBitAttained(instr.all, little);
  }

  /** Where the value of a prefix field goes in the first word. */
  function FieldShift(p: PrefixField, little: bool, width: nat): int {
    if little then 32 - (width - p.low) else 31 - p.high
  }

  /** insn[0] = value << shift, or insn[0] |= value << shift. */
  datatype PrefixStmt = PrefixStmt(assign: bool, value: Word, shift: int)

  /** The fields that get a statement: prefix fields with an index that belong to no block. */
  predicate Written(p: PrefixField) { p.known && p.isPrefix && p.indexed && !p.inBlock }

  function Statements(fields: seq<PrefixField>, little: bool, width: nat): seq<PrefixStmt> {
    if fields == [] then []
    else
      var (p, before) := (Last(fields), Statements(Front(fields), little, width));
      if Written(p) then before + [PrefixStmt(before == [], p.value, FieldShift(p, little, width))] else before
  }

  predicate HasPrefix(fields: seq<PrefixField>) { exists k :: 0 <= k < |fields| && fields[k].known && fields[k].isPrefix }

  /** The statements for one instruction, and the shift of the first fetched word. */
  method WritePrefixFields(instr: PrefixInstr, little: bool) returns (stmts: seq<PrefixStmt>, shift: int)
    ensures stmts == Statements(instr.fields, little, instr.width)
    ensures shift == if HasPrefix(instr.fields) then ShiftOf(instr, little) else 32
  {
    var first, fields := true, instr.fields;
    stmts, shift := [], 32;
    for i := 0 to |fields|
      invariant stmts == Statements(fields[..i], little, instr.width) && (first <==> stmts == [])
      invariant shift == if HasPrefix(fields[..i]) then ShiftOf(instr, little) else 32
    {
      var p := fields[i];
      assert Front(fields[..i + 1]) == fields[..i] && Last(fields[..i + 1]) == p;
      HasPrefixStep(fields, i);
      if p.known && p.isPrefix {
        shift := EncodingShift(instr, little);
        if p.indexed && !p.inBlock {
          stmts := stmts + [PrefixStmt(first, p.value, FieldShift(p, little, instr.width))];
          first := false;
        }
      }
    }
    assert fields[..|fields|] == fields;
  }

  lemma HasPrefixStep(fields: seq<PrefixField>, i: nat)
    requires i < |fields|
    ensures HasPrefix(fields[..i + 1]) <==> HasPrefix(fields[..i]) || (fields[i].known && fields[i].isPrefix)
  {
    if HasPrefix(fields[..i]) {
      var k :| 0 <= k < i && fields[..i][k].known && fields[..i][k].isPrefix;
      assert fields[..i + 1][k] == fields[..i][k];
    }
    if fields[i].known && fields[i].isPrefix {
      assert fields[..i + 1][i] == fields[i];
    }
    if HasPrefix(fields[..i + 1]) {
      var k :| 0 <= k < i + 1 && fields[..i + 1][k].known && fields[..i + 1][k].isPrefix;
      if k < i { assert fields[..i][k] == fields[..i + 1][k]; }
    }
  }

  function FirstPseudo(instrs: seq<PrefixInstr>): Option<PrefixInstr> {
    if instrs == [] then None else if instrs[0].pseudo then Some(instrs[0]) else FirstPseudo(instrs[1..])
  }

  function PrefixCode(instrs: seq<PrefixInstr>, little: bool): seq<PrefixStmt> {
    var p := FirstPseudo(instrs);
    if p.Some? then Statements(p.value.fields, little, p.value.width) else []
  }

  /** The shift of the first fetched word: 32 when there is no prefix field. */
  function PrefixShift(instrs: seq<PrefixInstr>, little: bool): int {
    var p := FirstPseudo(instrs);
    if p.Some? && HasPrefix(p.value.fields) then ShiftOf(p.value, little) else 32
  }

  ghost predicate HasStatement(stmts: seq<PrefixStmt>, value: Word, shift: int) {
    exists x :: x in stmts && x.value == value && x.shift == shift
  }

  /** A prefix field with an index that belongs to no block has the value and the place. */
  ghost predicate HasPlaced(fields: seq<PrefixField>, little: bool, width: nat, value: Word, shift: int) {
    exists p :: p in fields && p.known && p.isPrefix && p.indexed && !p.inBlock
                && p.value == value && FieldShift(p, little, width) == shift
  }

  /** These fields are the ones that are written, each at its place. */
  lemma {:induction false} StatementsAre(fields: seq<PrefixField>, little: bool, width: nat, value: Word, shift: int)
    ensures HasStatement(Statements(fields, little, width), value, shift) <==>
            HasPlaced(fields, little, width, value, shift)
  {
    if fields != [] {
      var (f, p) := (Front(fields), Last(fields));
      StatementsAre(f, little, width, value, shift);
      assert forall q :: q in fields <==> q in f || q == p;
      var (before, stmts) := (Statements(f, little, width), Statements(fields, little, width));
      if Written(p) {
        var x := PrefixStmt(before == [], p.value, FieldShift(p, little, width));
        assert forall y :: y in stmts <==> y in before || y == x;
      }
    }
  }

  /** The first statement assigns, all others add. */
  lemma {:induction false} FirstAssigns(fields: seq<PrefixField>, little: bool, width: nat, j: nat)
    requires j < |Statements(fields, little, width)|
    ensures Statements(fields, little, width)[j].assign <==> j == 0
  {
    if j < |Statements(Front(fields), little, width)| {
      FirstAssigns(Front(fields), little, width, j);
    }
  }

  /** The first of the pseudo instructions, if there are any. */
  lemma {:induction false} FirstPseudoIs(instrs: seq<PrefixInstr>)
    ensures FirstPseudo(instrs).None? <==> forall i :: 0 <= i < |instrs| ==> !instrs[i].pseudo
    ensures FirstPseudo(instrs).Some? ==>
              exists i :: 0 <= i < |instrs| && instrs[i] == FirstPseudo(instrs).value && instrs[i].pseudo
                          && forall j :: 0 <= j < i ==> !instrs[j].pseudo
  {
    if instrs != [] {
      var r := instrs[1..];
      FirstPseudoIs(r);
      assert forall i :: 0 <= i < |r| ==> r[i] == instrs[i + 1];
      if !instrs[0].pseudo && FirstPseudo(r).Some? {
        var i :| 0 <= i < |r| && r[i] == FirstPseudo(r).value && r[i].pseudo && forall j :: 0 <= j < i ==> !r[j].pseudo;
        assert instrs[i + 1].pseudo && forall j :: 0 <= j < i + 1 ==> !instrs[j].pseudo;
      }
    }
  }

  /** Without a known prefix field in the first pseudo instruction the fetched words are not moved at all. */
  lemma PrefixShiftMeans(instrs: seq<PrefixInstr>, little: bool, i: nat)
    requires i < |instrs| && instrs[i].pseudo && forall j :: 0 <= j < i ==> !instrs[j].pseudo
    ensures PrefixShift(instrs, little) ==
            if exists p :: p in instrs[i].fields && p.known && p.isPrefix then ShiftOf(instrs[i], little) else 32
  {
    FirstPseudoIs(instrs);
    if p :| p in instrs[i].fields && p.known && p.isPrefix {
      assert HasPrefix(instrs[i].fields);
    }
  }

  /** The prefix code looks at the first pseudo instruction only. */
  method WritePrefixCode(instrs: seq<PrefixInstr>, little: bool) returns (stmts: seq<PrefixStmt>, shift: int)
    ensures stmts == PrefixCode(instrs, little) && shift == PrefixShift(instrs, little)
  {
    for i := 0 to |instrs|
      invariant FirstPseudo(instrs) == FirstPseudo(instrs[i..])
    {
      assert instrs[i..][1..] == instrs[i + 1..];
      if instrs[i].pseudo {
        stmts, shift := WritePrefixFields(instrs[i], little);
        return;
      }
    }
    return [], 32;
  }

  // ----- where the prefix values go -----

  function WidthOf(p: PrefixField): int { p.high - p.low + 1 }

  /** The place of a field's first bit, counted from the left. */
  function PlaceOf(p: PrefixField, little: bool, width: nat): int { if little then width - 1 - p.high else p.low }

  /** The field lies among the first `pb` bits, which is what its statement needs. */
  lemma ShiftIff(p: PrefixField, instr: PrefixInstr, little: bool, pb: int)
    requires pb == ShiftOf(instr, little)
    ensures 32 - pb <= FieldShift(p, little, instr.width) <==> PlaceOf(p, little, instr.width) + WidthOf(p) <= pb
    ensures little ==> (32 - pb <= FieldShift(p, little, instr.width) <==> p.low > TopBit(instr.all, little))
    ensures !little && p in instr.all && p.known && p.isPrefix ==> 32 - pb <= FieldShift(p, little, instr.width)
  {
    TopBitIs(instr.all, little, p);
  }

  /** The operand fields are among all fields; bits numbered from the right, the prefix is above every other field. */
  ghost predicate PrefixInFront(instr: PrefixInstr, little: bool) {
    forall k :: 0 <= k < |instr.fields| && Written(instr.fields[k]) ==>
      if little then instr.fields[k].low > TopBit(instr.all, little) else instr.fields[k] in instr.all
  }

  ghost predicate Values32(fields: seq<PrefixField>) { forall k :: 0 <= k < |fields| ==> |fields[k].value| == 32 }

  ghost predicate Shifted32(stmts: seq<PrefixStmt>, pb: int) {
    forall k :: 0 <= k < |stmts| ==> |stmts[k].value| == 32 && 32 - pb <= stmts[k].shift
  }

  lemma {:induction false} StatementsShifted(fields: seq<PrefixField>, little: bool, width: nat, pb: int)
    requires Values32(fields)
    requires forall k :: 0 <= k < |fields| && Written(fields[k]) ==> 32 - pb <= FieldShift(fields[k], little, width)
    ensures Shifted32(Statements(fields, little, width), pb)
  {
    if fields != [] {
      StatementsShifted(Front(fields), little, width, pb);
    }
  }

  lemma StatementsInFront(instr: PrefixInstr, little: bool, pb: int)
    requires pb == ShiftOf(instr, little) && PrefixInFront(instr, little) && Values32(instr.fields)
    ensures Shifted32(Statements(instr.fields, little, instr.width), pb)
  {
    forall k | 0 <= k < |instr.fields| && Written(instr.fields[k])
      ensures 32 - pb <= FieldShift(instr.fields[k], little, instr.width)
    {
      ShiftIff(instr.fields[k], instr, little, pb);
    }
    StatementsShifted(instr.fields, little, instr.width, pb);
  }

  /** The first word after the prefix statements. */
  function RunPrefix(stmts: seq<PrefixStmt>, word: Word): (x: Word)
    ensures |word| == 32 && (forall k :: 0 <= k < |stmts| ==> |stmts[k].value| == 32) ==> |x| == 32
  {
    if stmts == [] then word
    else
      var last := Last(stmts);
      if last.assign then Shl(last.value, last.shift) else Or(RunPrefix(Front(stmts), word), Shl(last.value, last.shift))
  }

  /** Only the leading `pb` bits are set, whatever the values. */
  lemma {:induction false} PrefixOnTop(stmts: seq<PrefixStmt>, pb: nat)
    requires pb < 32 && Shifted32(stmts, pb)
    ensures |RunPrefix(stmts, Zeros(32))| == 32
    ensures RunPrefix(stmts, Zeros(32)) == TopBits(RunPrefix(stmts, Zeros(32)), pb)
  {
    if stmts != [] {
      PrefixOnTop(Front(stmts), pb);
      TopOr(RunPrefix(Front(stmts), Zeros(32)), Last(stmts).value, Last(stmts).shift, pb);
    }
  }

  lemma TopOr(x: Word, v: Word, shift: int, pb: nat)
    requires |x| == |v| == 32 && pb < 32 && 32 - pb <= shift && x == TopBits(x, pb)
    ensures Shl(v, shift) == TopBits(Shl(v, shift), pb)
    ensures Or(x, Shl(v, shift)) == TopBits(Or(x, Shl(v, shift)), pb)
  {
    var y := Shl(v, shift);
    assert forall i :: pb <= i < 32 ==> !y[i];
    assert forall i :: pb <= i < 32 ==> !TopBits(x, pb)[i];
  }

  /** The statement of field `k` sets bit `i`. */
  ghost predicate Sets(fields: seq<PrefixField>, k: nat, little: bool, width: nat, i: nat) {
    && k < |fields| && Written(fields[k]) && |fields[k].value| == 32 && i < 32
    && Shl(fields[k].value, FieldShift(fields[k], little, width))[i]
  }

  /** The first word holds the union of the shifted values, assignment and all. */
  lemma {:induction false} PrefixUnion(fields: seq<PrefixField>, little: bool, width: nat, i: nat)
    requires Values32(fields) && i < 32
    ensures
      var x := RunPrefix(Statements(fields, little, width), Zeros(32));
      |x| == 32 && (x[i] <==> exists k: nat :: Sets(fields, k, little, width, i))
  {
    if fields != [] {
      PrefixUnion(Front(fields), little, width, i);
      UnionStep(fields, little, width, i);
      StatementsStep(fields, little, width);
    }
  }

  lemma UnionStep(fields: seq<PrefixField>, little: bool, width: nat, i: nat)
    requires fields != [] && Values32(fields) && i < 32
    ensures (exists k: nat :: Sets(fields, k, little, width, i)) <==>
            (exists k: nat :: Sets(Front(fields), k, little, width, i)) || Sets(fields, |fields| - 1, little, width, i)
  {
    if k: nat :| Sets(Front(fields), k, little, width, i) {
      assert Sets(fields, k, little, width, i);
    }
    if k: nat :| Sets(fields, k, little, width, i) && k < |fields| - 1 {
      assert Sets(Front(fields), k, little, width, i);
    }
  }

  lemma StatementsStep(fields: seq<PrefixField>, little: bool, width: nat)
    requires fields != [] && Values32(fields)
    ensures
      var (x, y) := (RunPrefix(Statements(fields, little, width), Zeros(32)),
                     RunPrefix(Statements(Front(fields), little, width), Zeros(32)));
      |y| == 32 ==>
        x == if Written(Last(fields)) then Or(y, Shl(Last(fields).value, FieldShift(Last(fields), little, width))) else y
  {
    var (before, p) := (Statements(Front(fields), little, width), Last(fields));
    if Written(p) {
      var stmts := before + [PrefixStmt(before == [], p.value, FieldShift(p, little, width))];
      assert Front(stmts) == before && Last(stmts) == PrefixStmt(before == [], p.value, FieldShift(p, little, width));
      if before == [] {
        ZerosOr(Shl(p.value, FieldShift(p, little, width)));
      }
    }
  }

  lemma ZerosOr(x: Word)
    requires |x| == 32
    ensures Or(Zeros(32), x) == x
  {
  }

  /** The value of a field uses no more bits than the field has. */
  ghost predicate FitsField(p: PrefixField) {
    |p.value| == 32 && 0 < WidthOf(p) <= 32 && forall i :: 0 <= i < 32 - WidthOf(p) ==> !p.value[i]
  }

  /** No other written field lies on the bits of field `k`. */
  ghost predicate AloneAt(fields: seq<PrefixField>, k: nat, little: bool, width: nat)
    requires k < |fields|
  {
    forall j :: 0 <= j < |fields| && j != k && Written(fields[j]) ==>
      || PlaceOf(fields[j], little, width) + WidthOf(fields[j]) <= PlaceOf(fields[k], little, width)
      || PlaceOf(fields[k], little, width) + WidthOf(fields[k]) <= PlaceOf(fields[j], little, width)
  }

  /** A shifted value that fits lies on the bits of its field. */
  lemma ShiftedValue(p: PrefixField, little: bool, width: nat, i: nat)
    requires FitsField(p) && i < 32
    requires 0 <= PlaceOf(p, little, width) && PlaceOf(p, little, width) + WidthOf(p) <= 32
    ensures
      var end := PlaceOf(p, little, width) + WidthOf(p);
      Shl(p.value, FieldShift(p, little, width))[i] <==>
        PlaceOf(p, little, width) <= i < end && p.value[i + 32 - end]
  {
    assert FieldShift(p, little, width) == 32 - PlaceOf(p, little, width) - WidthOf(p);
  }

  /** Every written field lies in the instruction and carries a value that fits it. */
  ghost predicate FieldsFit(instr: PrefixInstr) {
    Values32(instr.fields) &&
    forall k :: 0 <= k < |instr.fields| && Written(instr.fields[k]) ==>
      FitsField(instr.fields[k]) && instr.fields[k].high < instr.width
  }

  lemma InFront(instr: PrefixInstr, little: bool, pb: nat, k: nat)
    requires pb == ShiftOf(instr, little) && pb < 32 && PrefixInFront(instr, little)
    requires k < |instr.fields| && Written(instr.fields[k]) && instr.fields[k].high < instr.width
    ensures
      var place := PlaceOf(instr.fields[k], little, instr.width);
      0 <= place && place + WidthOf(instr.fields[k]) <= pb
  {
    ShiftIff(instr.fields[k], instr, little, pb);
  }

  /** Each prefix value sits on the bits of its own field. */
  lemma ValueInPlace(instr: PrefixInstr, little: bool, pb: nat, k: nat)
    requires pb == ShiftOf(instr, little) && pb < 32 && PrefixInFront(instr, little) && FieldsFit(instr)
    requires k < |instr.fields| && Written(instr.fields[k]) && AloneAt(instr.fields, k, little, instr.width)
    ensures
      var (p, x) := (instr.fields[k], RunPrefix(Statements(instr.fields, little, instr.width), Zeros(32)));
      |x| == 32 && Slice(x, PlaceOf(p, little, instr.width), WidthOf(p)) == Slice(p.value, 32 - WidthOf(p), WidthOf(p))
  {
    var p, x := instr.fields[k], RunPrefix(Statements(instr.fields, little, instr.width), Zeros(32));
    var place, w := PlaceOf(p, little, instr.width), WidthOf(p);
    InFront(instr, little, pb, k);
    PrefixUnion(instr.fields, little, instr.width, 0);
    forall i | place <= i < place + w
      ensures x[i] <==> p.value[i + 32 - place - w]
    {
      PrefixUnion(instr.fields, little, instr.width, i);
      BitInPlace(instr, little, pb, k, i);
    }
    SameSlice(x, p.value, place, w);
  }

  lemma SameSlice(x: Word, v: Word, place: nat, w: nat)
    requires |x| == |v| == 32 && place + w <= 32
    requires forall i :: place <= i < place + w ==> (x[i] <==> v[i + 32 - place - w])
    ensures Slice(x, place, w) == Slice(v, 32 - w, w)
  {
    var a, b := Slice(x, place, w), Slice(v, 32 - w, w);
    forall i | 0 <= i < w
      ensures a[i] == b[i]
    {
      assert x[place + i] <==> v[place + i + 32 - place - w];
    }
  }

  lemma BitInPlace(instr: PrefixInstr, little: bool, pb: nat, k: nat, i: nat)
    requires pb == ShiftOf(instr, little) && pb < 32 && PrefixInFront(instr, little) && FieldsFit(instr)
    requires k < |instr.fields| && Written(instr.fields[k]) && AloneAt(instr.fields, k, little, instr.width)
    requires
      var place := PlaceOf(instr.fields[k], little, instr.width);
      i < 32 && 0 <= place <= i < place + WidthOf(instr.fields[k]) <= pb
    ensures
      var p := instr.fields[k];
      (exists j: nat :: Sets(instr.fields, j, little, instr.width, i)) <==>
      p.value[i + 32 - PlaceOf(p, little, instr.width) - WidthOf(p)]
  {
    ShiftedValue(instr.fields[k], little, instr.width, i);
    forall j: nat | Sets(instr.fields, j, little, instr.width, i)
      ensures j == k
    {
      InFront(instr, little, pb, j);
      ShiftedValue(instr.fields[j], little, instr.width, i);
    }
    assert Sets(instr.fields, k, little, instr.width, i) <==>
           Shl(instr.fields[k].value, FieldShift(instr.fields[k], little, instr.width))[i];
  }

  // ----- whole programs: writeDisTableStart -----

  function ZeroWords(n: nat): (z: seq<Word>)
    ensures |z| == n && forall j :: 0 <= j < n ==> z[j] == Zeros(32)
  {
    seq(n, _ => Zeros(32))
  }

  /** The array after the prefix statements and the first funnel step. */
  function Started(pb: nat, n: nat, stmts: seq<PrefixStmt>, f: seq<Word>): Option<seq<Word>> {
    RunFunnel(pb, Funnel(0, 0), ZeroWords(n + 1)[0 := RunPrefix(stmts, Zeros(32))], f)
  }

  /** The prefix bits, then the fetched words. */
  function StreamOf(pb: nat, stmts: seq<PrefixStmt>, f: seq<Word>): Word {
    Slice(RunPrefix(stmts, Zeros(32)), 0, pb) + Flat(f)
  }

  lemma FirstWordIsPrefix(x: Word, f: seq<Word>, pb: nat)
    requires |x| == 32 && 0 < pb < 32 && x == TopBits(x, pb)
    ensures x == TopBits(WordAt(Slice(x, 0, pb) + Flat(f), 0), pb)
  {
    var s := Slice(x, 0, pb) + Flat(f);
    var y := TopBits(WordAt(s, 0), pb);
    forall i | 0 <= i < 32
      ensures x[i] == y[i]
    {
      if i < pb {
        assert s[i] == x[i];
      } else {
        assert !TopBits(x, pb)[i];
      }
    }
  }

  lemma StartsReady(c: Config, stmts: seq<PrefixStmt>, f: seq<Word>)
    requires c.Funnels() && c.pb < 32 && 0 < c.n <= |f| && Words32(f) && Shifted32(stmts, c.pb)
    ensures Started(c.pb, c.n, stmts, f).Some?
    ensures Ready(c, Started(c.pb, c.n, stmts, f).value, 1, StreamOf(c.pb, stmts, f))
    ensures StreamOk(c, StreamOf(c.pb, stmts, f), f)
  {
    var x := RunPrefix(stmts, Zeros(32));
    PrefixOnTop(stmts, c.pb);
    FirstWordIsPrefix(x, f, c.pb);
    PrefixThenWords(Slice(x, 0, c.pb), f);
    assert HoldsAt(StreamOf(c.pb, stmts, f), f[0], 0, c.pb);
    FunnelStep(ZeroWords(c.n + 1)[0 := x], 0, StreamOf(c.pb, stmts, f), f, c.pb);
  }

  /** What a whole program does: the refinement, and the bits of the instruction on entry. */
  ghost predicate Decodes(c: Config, t: Tree, u: Tree, ran: Ran, stream: Word) {
    var w := Slice(stream, 0, 32 * c.n);
    var (o, fetched) := (Lookup(t, w), FetchedAt(c, u, w, 1));
    && Refines(c, ran, o, stream, fetched)
    && (o.Found? && Extent(c, o.instr) <= 32 * c.n ==> EntryIs(c, ran.insn, o.instr, fetched, stream))
  }

  /** All bits can be read if they are all fetched, and else not where the first missing one is set. */
  ghost predicate EntryIs(c: Config, insn: seq<Word>, i: Instr, fetched: nat, stream: Word) {
    if AllFetched(c, i, fetched) then BitsReady(insn, stream, Extent(c, i))
    else c.pb < 32 && (WordAt(stream, FetchedFor(c, Found(i), fetched))[c.pb] ==> !BitsReady(insn, stream, Extent(c, i)))
  }

  lemma ProgramDecodes(c: Config, t: Tree, insn: seq<Word>, stream: Word, f: seq<Word>)
    requires Ready(c, insn, 1, stream) && StreamOk(c, stream, f) && TreeOk(t, c.n) && 0 < c.n
    ensures Decodes(c, t, t, Run(c.pb, Emit(c, t, 1, 1), insn, f, stream), stream)
  {
    var w := Slice(stream, 0, 32 * c.n);
    EmitRefines(c, t, insn, 1, 1, stream, f);
    var o := Lookup(t, w);
    if o.Found? && Extent(c, o.instr) <= 32 * c.n {
      EntryBits(c, Run(c.pb, Emit(c, t, 1, 1), insn, f, stream).insn, o.instr, FetchedAt(c, t, w, 1), stream);
    }
  }

  /**
   A table with prefix bits in front: from a cleared array, the prefix statements, the first
   funnel step and the emitted switches decode the prefix bits followed by the fetched words.
   */
  lemma PrefixedDecodeRefines(c: Config, t: Tree, instrs: seq<PrefixInstr>, little: bool, f: seq<Word>)
    requires c.Funnels() && c.pb < 32 && 0 < c.n <= |f| && Words32(f) && TreeOk(t, c.n)
    requires PrefixShift(instrs, little) == c.pb
    requires var p := FirstPseudo(instrs); p.Some? ==> PrefixInFront(p.value, little) && Values32(p.value.fields)
    ensures
      var stmts := PrefixCode(instrs, little);
      var (start, stream) := (Started(c.pb, c.n, stmts, f), StreamOf(c.pb, stmts, f));
      start.Some? && Decodes(c, t, t, Run(c.pb, Emit(c, t, 1, 1), start.value, f, stream), stream)
  {
    var stmts := PrefixCode(instrs, little);
    StatementsInFront(FirstPseudo(instrs).value, little, c.pb);
    StartsReady(c, stmts, f);
    ProgramDecodes(c, t, Started(c.pb, c.n, stmts, f).value, StreamOf(c.pb, stmts, f), f);
  }

  /** In that stream each prefix value that fits sits on the bits of its own field. */
  lemma PrefixInStream(c: Config, instr: PrefixInstr, little: bool, f: seq<Word>, k: nat)
    requires c.pb == ShiftOf(instr, little) && c.pb < 32 && PrefixInFront(instr, little) && FieldsFit(instr)
    requires k < |instr.fields| && Written(instr.fields[k]) && AloneAt(instr.fields, k, little, instr.width)
    ensures
      var (p, stream) := (instr.fields[k], StreamOf(c.pb, Statements(instr.fields, little, instr.width), f));
      Slice(stream, PlaceOf(p, little, instr.width), WidthOf(p)) == Slice(p.value, 32 - WidthOf(p), WidthOf(p))
  {
    var p, stmts := instr.fields[k], Statements(instr.fields, little, instr.width);
    ValueInPlace(instr, little, c.pb, k);
    InFront(instr, little, c.pb, k);
    SliceInFront(RunPrefix(stmts, Zeros(32)), Flat(f), c.pb, PlaceOf(p, little, instr.width), WidthOf(p));
  }

  lemma SliceInFront(x: Word, rest: Word, pb: nat, start: nat, n: nat)
    requires pb <= |x| && start + n <= pb
    ensures Slice(Slice(x, 0, pb) + rest, start, n) == Slice(x, start, n)
  {
  }

  /** An instruction of 48 bits, 8 of them prefix bits, of which the last 8 are not fetched. */
  lemma ShortFetch()
    ensures
      var (c, t) := (Config(8, false, 2, true), Tree(Zeros(64), NoKid, NoTable, Some(Instr(0, 40))));
      var f := [Zeros(32), Ones(32)];
      var (start, stream) := (Started(8, 2, [], f), StreamOf(8, [], f));
      && start.Some? && Extent(c, Instr(0, 40)) == 48
      && !BitsReady(Run(8, Emit(c, t, 1, 1), start.value, f, stream).insn, stream, 48)
  {
    var c, t := Config(8, false, 2, true), Tree(Zeros(64), NoKid, NoTable, Some(Instr(0, 40)));
    var f := [Zeros(32), Ones(32)];
    var stream := StreamOf(8, [], f);
    StartsReady(c, [], f);
    ProgramDecodes(c, t, Started(8, 2, [], f).value, stream, f);
    assert HoldsAt(stream, f[1], 1, 8);
    assert stream[40] == f[1][0];
    assert WordAt(stream, 1)[8];
  }

  lemma WordOfFlat(f: seq<Word>, j: nat)
    requires Words32(f) && j < |f|
    ensures WordAt(Flat(f), j) == f[j]
  {
    var x := WordAt(Flat(f), j);
    forall i | 0 <= i < 32
      ensures x[i] == f[j][i]
    {
      FlatAt(f, j, i);
    }
  }

  /** Without prefix bits the switches read the input words directly. */
  lemma DirectDecodeRefines(c: Config, t: Tree, f: seq<Word>)
    requires c.pb == 0 && 0 < c.n <= |f| && Words32(f) && TreeOk(t, c.n)
    ensures Decodes(c, t, t, Run(c.pb, Emit(c, t, 1, 1), f, f, Flat(f)), Flat(f))
  {
    forall j | 0 <= j < c.n
      ensures f[j] == WordAt(Flat(f), j)
    {
      WordOfFlat(f, j);
    }
    ProgramDecodes(c, t, f, Flat(f), f);
  }

  /**
   A prefix table is given its first word only: its switches decode that word followed by
   clear words, whatever the following fetched words hold.
   */
  lemma PrefixTableDecodes(c: Config, t: Tree, f: seq<Word>)
    requires c.prefixTable && 0 < c.n && 0 < |f| && Words32(f) && TreeOk(t, c.n)
    ensures
      var insn := ZeroWords(c.n + 1)[0 := f[0]];
      Decodes(c, t, t, Run(c.pb, Emit(c, t, 1, 1), insn, f, Flat(insn)), Flat(insn))
  {
    var insn := ZeroWords(c.n + 1)[0 := f[0]];
    forall j | 0 <= j < c.n
      ensures insn[j] == WordAt(Flat(insn), j)
    {
      WordOfFlat(insn, j);
    }
    ProgramDecodes(c, t, insn, Flat(insn), f);
  }
}
