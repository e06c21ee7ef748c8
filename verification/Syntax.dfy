/**
 The compiler of syntax strings: "%f", "%p", "%i" and "%%" become marker bytes, the
 instruction's name and literal text.
 */
module Syntax {
  import opened Basics

  type Byte = x: int | 0 <= x < 256
  type Text = seq<Byte>

  const PERCENT: Byte := 37
  const LETTER_F: Byte := 102
  const LETTER_P: Byte := 112
  const LETTER_I: Byte := 105
  const OFFSET := 128

  predicate IsField(c: Byte) { c >= OFFSET }

  predicate IsSpace(c: Byte) { c == 32 || 9 <= c <= 13 }

  /** The spaces of the C locale: blank, tab, newline, vertical tab, form feed and carriage return. */
  lemma SpacesAre(c: Byte)
    ensures IsSpace(c) <==> (c as char) in [' ', '\t', '\n', '\U{0B}', '\U{0C}', '\r']
  {
  }

  /** The marker byte of field number `count`: one byte, so it wraps. */
  function Marker(count: nat): Byte { (OFFSET + count) % 256 }

  // ----- the state machine -----

  /**
   The text so far; fields so far; whether a "%f" was seen; whether a name was begun and ended;
   its first and last byte; ends of the permutable and of the prefix fields.
   */
  datatype Progress = Progress(text: Text, count: nat, afterP: bool, iname: bool, handled: bool,
                               inBegin: int, inEnd: int, permEnd: nat, pfxEnd: nat)

  const START := Progress([], 0, false, false, false, 0, 0, OFFSET, OFFSET)

  function AddField(p: Progress, perm: bool): Progress {
    p.(text := p.text + [Marker(p.count)],
       count := p.count + 1,
       permEnd := if perm then p.permEnd + 1 else p.permEnd,
       pfxEnd := if perm && !p.iname then p.pfxEnd + 1 else p.pfxEnd)
  }

  /** A control code. */
  function Control(p: Progress, c: Byte, items: nat, name: Text, nameFirst: bool): Result<Progress> {
    if c != LETTER_I && p.count >= items then Error
    else if c == LETTER_I then
      Ok(p.(text := p.text + name, inBegin := |p.text|, inEnd := |p.text + name| - 1, iname := true, handled := true))
    else
      var q := if p.iname then p.(handled := true) else p;
      if c == LETTER_F then
        if !q.iname && nameFirst then Error
        else Ok(AddField(q.(handled := true, afterP := true), false))
      else if c == LETTER_P then
        if q.afterP then Error else Ok(AddField(q, true))
      else if c == PERCENT then Ok(q.(text := q.text + [PERCENT]))
      else Error
  }

  /** Any other byte. */
  function Literal(p: Progress, c: Byte): Progress {
    var q :=
      if IsSpace(c) then (if p.iname then p.(handled := true) else p)
      else if p.handled then p
      else if p.iname then p.(inEnd := p.inEnd + 1)
      else p.(inBegin := |p.text|, inEnd := |p.text|, iname := true);
    q.(text := q.text + [c])
  }

  /** The whole input; a '%' at the very end is followed by the terminating zero byte. */
  function Process(p: Progress, s: Text, items: nat, name: Text, nameFirst: bool): Result<Progress>
    decreases |s|
  {
    if s == [] then Ok(p)
    else if s[0] != PERCENT then Process(Literal(p, s[0]), s[1..], items, name, nameFirst)
    else if |s| == 1 then Control(p, 0, items, name, nameFirst)
    else
      var r := Control(p, s[1], items, name, nameFirst);
      if r.Error? then Error else Process(r.value, s[2..], items, name, nameFirst)
  }

  /** What is left in the syntax object. */
  function Finish(p: Progress, nameFirst: bool): Result<Progress> {
    if !p.iname && nameFirst then Error else Ok(if p.iname then p.(inEnd := p.inEnd + 1) else p)
  }

  function Compile(s: Text, items: nat, name: Text, nameFirst: bool): Result<Progress> {
    var r := Process(START, s, items, name, nameFirst);
    if r.Error? then Error else Finish(r.value, nameFirst)
  }

  // ----- Instr::process_format -----

  class Format {
    var fmt: Text
    const items: nat
    var pfxEnd: nat
    var permEnd: nat
    var inBegin: int
    var inEnd: int
    var readCount: nat

    constructor (fmt: Text, items: nat)
      ensures this.fmt == fmt && this.items == items && Fresh()
    {
      this.fmt, this.items := fmt, items;
      pfxEnd, permEnd, inBegin, inEnd, readCount := OFFSET, OFFSET, 0, 0, 0;
    }

    ghost predicate Fresh()
      reads this
    {
      pfxEnd == OFFSET && permEnd == OFFSET && inBegin == 0 && inEnd == 0
    }

    ghost function Now(nfmt: Text, count: nat, afterP: bool, iname: bool, handled: bool): Progress
      reads this
    {
      Progress(nfmt, count, afterP, iname, handled, inBegin, inEnd, permEnd, pfxEnd)
    }

    method ProcessFormat(name: Text, nameFirst: bool) returns (ok: bool)
      requires Fresh()
      modifies this
      ensures ok <==> Compile(old(fmt), items, name, nameFirst).Ok?
      ensures ok ==>
                var p := Compile(old(fmt), items, name, nameFirst).value;
                && fmt == p.text && readCount == p.count
                && pfxEnd == p.pfxEnd && permEnd == p.permEnd && inBegin == p.inBegin && inEnd == p.inEnd
      // The missing name is found out only after the format is stored.
      ensures !ok ==>
                var r := Process(START, old(fmt), items, name, nameFirst);
                if r.Ok? then fmt == r.value.text && readCount == r.value.count
                else fmt == old(fmt) && readCount == old(readCount)
    {
      var nfmt: Text, count: nat := [], 0;
      var afterP, iname, handled := false, false, false;
      var i := 0;
      ghost var whole := Process(START, fmt, items, name, nameFirst);
      assert fmt[0..] == fmt;
      while i < |fmt|
        invariant 0 <= i <= |fmt| && fmt == old(fmt) && readCount == old(readCount)
        invariant Process(Now(nfmt, count, afterP, iname, handled), fmt[i..], items, name, nameFirst) == whole
      {
        if fmt[i] == PERCENT {
          var c := if i + 1 < |fmt| then fmt[i + 1] else 0;
          ghost var before := Now(nfmt, count, afterP, iname, handled);
          assert i + 1 < |fmt| ==> fmt[i..][2..] == fmt[i + 2..];
          ok, nfmt, count, afterP, iname, handled := Code(c, name, nameFirst, nfmt, count, afterP, iname, handled);
          if !ok { return; }
          assert c != 0;
          i := i + 2;
        } else {
          assert fmt[i..][1..] == fmt[i + 1..];
          nfmt, iname, handled := Plain(fmt[i], nfmt, count, afterP, iname, handled);
          i := i + 1;
        }
      }
      fmt := nfmt;
      readCount := count;
      inEnd := if iname then inEnd + 1 else inEnd;
      return iname || !nameFirst;
    }

    method Code(c: Byte, name: Text, nameFirst: bool, nfmt: Text, count: nat, afterP: bool, iname: bool, handled: bool)
      returns (ok: bool, nfmt': Text, count': nat, afterP': bool, iname': bool, handled': bool)
      modifies this`inBegin, this`inEnd, this`permEnd, this`pfxEnd
      ensures ok <==> Control(old(Now(nfmt, count, afterP, iname, handled)), c, items, name, nameFirst).Ok?
      ensures ok ==> Control(old(Now(nfmt, count, afterP, iname, handled)), c, items, name, nameFirst)
                     == Ok(Now(nfmt', count', afterP', iname', handled'))
    {
      nfmt', count', afterP', iname', handled' := nfmt, count, afterP, iname, handled;
      ok := false;
      if c != LETTER_I && count >= items { return; }
      if iname && c != LETTER_I {
        handled' := true;
      }
      var skip := false;
      if c == LETTER_F {
        if !iname && nameFirst { return; }
        handled' := true;
        afterP' := true;
      } else if c == LETTER_P {
        if afterP { return; }
      } else if c == LETTER_I {
        inBegin := |nfmt|;
        nfmt' := nfmt + name;
        inEnd := |nfmt'| - 1;
        skip, iname', handled' := true, true, true;
      } else if c == PERCENT {
        nfmt' := nfmt + [PERCENT];
        skip := true;
      } else {
        return;
      }
      if !skip {
        nfmt' := nfmt' + [Marker(count)];
        count' := count + 1;
        permEnd := if c == LETTER_P then permEnd + 1 else permEnd;
        pfxEnd := if c == LETTER_P && !iname then pfxEnd + 1 else pfxEnd;
      }
      ok := true;
    }

    method Plain(c: Byte, nfmt: Text, ghost count: nat, ghost afterP: bool, iname: bool, handled: bool)
      returns (nfmt': Text, iname': bool, handled': bool)
      modifies this`inBegin, this`inEnd
      ensures Now(nfmt', count, afterP, iname', handled') == Literal(old(Now(nfmt, count, afterP, iname, handled)), c)
    {
      iname', handled' := iname, handled;
      if !IsSpace(c) {
        if !handled {
          if !iname {
            inEnd, inBegin := |nfmt|, |nfmt|;
          } else {
            inEnd := inEnd + 1;
          }
          iname' := true;
        }
      } else if iname {
        handled' := true;
      }
      nfmt' := nfmt + [c];
    }
  }

  // ----- the fields of a format -----

  function Adds(c: Byte): nat { if c == LETTER_F || c == LETTER_P then 1 else 0 }

  /** The number of "%f" and "%p" codes of the input. */
  function FieldCodes(s: Text): nat
    decreases |s|
  {
    if s == [] then 0
    else if s[0] != PERCENT then FieldCodes(s[1..])
    else if |s| == 1 then 0
    else Adds(s[1]) + FieldCodes(s[2..])
  }

  /** An accepted input has as many fields as codes for them, and no more than the items listed. */
  lemma {:induction false} ProcessCounts(p: Progress, s: Text, items: nat, name: Text, nameFirst: bool)
    requires p.count <= items && Process(p, s, items, name, nameFirst).Ok?
    ensures Process(p, s, items, name, nameFirst).value.count == p.count + FieldCodes(s) <= items
    decreases |s|
  {
    if s == [] {
    } else if s[0] != PERCENT {
      ProcessCounts(Literal(p, s[0]), s[1..], items, name, nameFirst);
    } else if |s| > 1 {
      ControlCounts(p, s[1], items, name, nameFirst);
      ProcessCounts(Control(p, s[1], items, name, nameFirst).value, s[2..], items, name, nameFirst);
    }
  }

  lemma ControlCounts(p: Progress, c: Byte, items: nat, name: Text, nameFirst: bool)
    requires p.count <= items && Control(p, c, items, name, nameFirst).Ok?
    ensures Control(p, c, items, name, nameFirst).value.count == p.count + Adds(c) <= items
  {
  }

  // ----- which inputs are accepted -----

  /** A code after a percent sign, or an ordinary character. */
  datatype Token = Code(c: Byte) | Lit(c: Byte)

  function Tokens(s: Text): seq<Token>
    decreases |s|
  {
    if s == [] then []
    else if s[0] != PERCENT then [Lit(s[0])] + Tokens(s[1..])
    else if |s| == 1 then [Code(0)]
    else [Code(s[1])] + Tokens(s[2..])
  }

  predicate KnownCode(t: Token) {
    t.Lit? || t.c == LETTER_F || t.c == LETTER_P || t.c == LETTER_I || t.c == PERCENT
  }

  predicate KnownCodes(ts: seq<Token>) { forall t :: t in ts ==> KnownCode(t) }

  predicate PermutableFirst(ts: seq<Token>) {
    forall i, j :: 0 <= i < j < |ts| ==> !(ts[i] == Code(LETTER_F) && ts[j] == Code(LETTER_P))
  }

  /** There is an item left for every code except "%i"; even "%%" asks for one, but takes none. */
  predicate ItemsSuffice(ts: seq<Token>, left: int) {
    ts == [] ||
    if ts[0].Lit? || ts[0].c == LETTER_I then ItemsSuffice(ts[1..], left)
    else left > 0 && ItemsSuffice(ts[1..], left - Adds(ts[0].c))
  }

  /** The name begins: it is put in, or written out. */
  predicate Opens(t: Token) { t == Code(LETTER_I) || (t.Lit? && !IsSpace(t.c)) }

  predicate NameLeads(ts: seq<Token>) {
    exists k :: 0 <= k < |ts| && Opens(ts[k]) && forall j :: 0 <= j < k ==> ts[j] != Code(LETTER_F)
  }

  /** The "%p" in front of the name. */
  function LeadingP(ts: seq<Token>): nat {
    if ts == [] || Opens(ts[0]) then 0 else LeadingP(ts[1..]) + if ts[0] == Code(LETTER_P) then 1 else 0
  }

  function PCodes(ts: seq<Token>): nat {
    if ts == [] then 0 else PCodes(ts[1..]) + if ts[0] == Code(LETTER_P) then 1 else 0
  }

  /** What remains to be asked of the rest of the input. */
  ghost predicate Acceptable(p: Progress, ts: seq<Token>, items: nat, nameFirst: bool) {
    && KnownCodes(ts) && PermutableFirst(ts) && ItemsSuffice(ts, items - p.count)
    && (p.afterP ==> Code(LETTER_P) !in ts)
    && (nameFirst && !p.iname ==> NameLeads(ts))
  }

  /** A token is dealt with. */
  function TokenStep(p: Progress, t: Token, items: nat, name: Text, nameFirst: bool): Result<Progress> {
    if t.Lit? then Ok(Literal(p, t.c)) else Control(p, t.c, items, name, nameFirst)
  }

  /** When the name is still missing, nothing has ended it but a field. */
  ghost predicate Awaiting(p: Progress, nameFirst: bool) { !p.iname && p.handled ==> p.afterP && !nameFirst }

  lemma KnownRest(ts: seq<Token>)
    requires ts != []
    ensures KnownCodes(ts) <==> KnownCode(ts[0]) && KnownCodes(ts[1..])
  {
    assert forall t :: t in ts <==> t == ts[0] || t in ts[1..];
  }

  lemma PermutableRest(ts: seq<Token>)
    requires ts != []
    ensures PermutableFirst(ts) <==>
            PermutableFirst(ts[1..]) && (ts[0] == Code(LETTER_F) ==> Code(LETTER_P) !in ts[1..])
  {
    var r := ts[1..];
    assert forall i :: 0 <= i < |r| ==> r[i] == ts[i + 1];
    if PermutableFirst(r) && (ts[0] == Code(LETTER_F) ==> Code(LETTER_P) !in r) {
      forall i, j | 0 <= i < j < |ts|
        ensures !(ts[i] == Code(LETTER_F) && ts[j] == Code(LETTER_P))
      {
        assert ts[j] == r[j - 1] && ts[j] in r;
        if i > 0 { assert ts[i] == r[i - 1]; }
      }
    }
  }

  lemma NameRest(ts: seq<Token>)
    requires ts != []
    ensures NameLeads(ts) <==> Opens(ts[0]) || (ts[0] != Code(LETTER_F) && NameLeads(ts[1..]))
  {
    var r := ts[1..];
    assert forall i :: 0 <= i < |r| ==> r[i] == ts[i + 1];
    if NameLeads(ts) && !Opens(ts[0]) {
      var k :| 0 <= k < |ts| && Opens(ts[k]) && forall j :: 0 <= j < k ==> ts[j] != Code(LETTER_F);
      assert Opens(r[k - 1]) && forall j :: 0 <= j < k - 1 ==> r[j] != Code(LETTER_F);
    }
    if ts[0] != Code(LETTER_F) && NameLeads(r) {
      var k :| 0 <= k < |r| && Opens(r[k]) && forall j :: 0 <= j < k ==> r[j] != Code(LETTER_F);
      assert Opens(ts[k + 1]) && forall j :: 0 <= j < k + 1 ==> ts[j] != Code(LETTER_F);
    }
  }

  /** One token asks its share. */
  lemma StepAccepts(p: Progress, t: Token, items: nat, name: Text, nameFirst: bool)
    requires Awaiting(p, nameFirst)
    ensures
      var r := TokenStep(p, t, items, name, nameFirst);
      && (r.Ok? <==>
            && KnownCode(t) && (p.afterP ==> t != Code(LETTER_P))
            && (t.Code? && t.c != LETTER_I ==> items > p.count)
            && (nameFirst && !p.iname ==> t != Code(LETTER_F)))
      && (r.Ok? ==>
            && Awaiting(r.value, nameFirst)
            && r.value.count == p.count + (if t.Code? then Adds(t.c) else 0)
            && (r.value.afterP <==> p.afterP || t == Code(LETTER_F)))
  {
  }

  /** Where the name begins, and the fields it counts as lying before it. */
  lemma StepBorders(p: Progress, t: Token, items: nat, name: Text, nameFirst: bool)
    requires Awaiting(p, nameFirst) && TokenStep(p, t, items, name, nameFirst).Ok?
    ensures
      var q := TokenStep(p, t, items, name, nameFirst).value;
      && (q.iname <==> p.iname || t == Code(LETTER_I) || (Opens(t) && !p.handled))
      && q.permEnd == p.permEnd + (if t == Code(LETTER_P) then 1 else 0)
      && q.pfxEnd == p.pfxEnd + (if t == Code(LETTER_P) && !p.iname then 1 else 0)
  {
  }

  lemma TokensStep(p: Progress, s: Text, items: nat, name: Text, nameFirst: bool)
    requires s != []
    ensures
      var (ts, rest) := (Tokens(s), if s[0] != PERCENT || |s| == 1 then s[1..] else s[2..]);
      && ts != [] && ts[1..] == Tokens(rest) && |rest| < |s|
      && var r := TokenStep(p, ts[0], items, name, nameFirst);
         Process(p, s, items, name, nameFirst) ==
         if r.Error? then Error else Process(r.value, rest, items, name, nameFirst)
  {
  }

  lemma {:induction false} ProcessAccepts(p: Progress, s: Text, items: nat, name: Text, nameFirst: bool)
    requires Awaiting(p, nameFirst)
    ensures
      var r := Process(p, s, items, name, nameFirst);
      (r.Ok? && (nameFirst ==> r.value.iname)) <==> Acceptable(p, Tokens(s), items, nameFirst)
    decreases |s|
  {
    if s != [] {
      var (ts, rest) := (Tokens(s), if s[0] != PERCENT || |s| == 1 then s[1..] else s[2..]);
      TokensStep(p, s, items, name, nameFirst);
      StepAccepts(p, ts[0], items, name, nameFirst);
      var r := TokenStep(p, ts[0], items, name, nameFirst);
      if r.Ok? {
        StepBorders(p, ts[0], items, name, nameFirst);
        ProcessAccepts(r.value, rest, items, name, nameFirst);
      }
      AcceptableStep(p, ts, items, name, nameFirst);
    }
  }

  lemma AcceptableStep(p: Progress, ts: seq<Token>, items: nat, name: Text, nameFirst: bool)
    requires Awaiting(p, nameFirst) && ts != []
    ensures
      var r := TokenStep(p, ts[0], items, name, nameFirst);
      Acceptable(p, ts, items, nameFirst) <==> r.Ok? && Acceptable(r.value, ts[1..], items, nameFirst)
  {
    StepAccepts(p, ts[0], items, name, nameFirst);
    KnownRest(ts);
    PermutableRest(ts);
    NameRest(ts);
    assert Code(LETTER_P) in ts <==> ts[0] == Code(LETTER_P) || Code(LETTER_P) in ts[1..];
    if TokenStep(p, ts[0], items, name, nameFirst).Ok? {
      StepBorders(p, ts[0], items, name, nameFirst);
    }
  }

  /**
   Exactly the inputs are accepted that use the four codes only, have no "%p" after a "%f", have items
   for their codes and, where it is asked for, begin the name before the first "%f".
   */
  lemma AcceptedIff(s: Text, items: nat, name: Text, nameFirst: bool)
    ensures
      var ts := Tokens(s);
      Compile(s, items, name, nameFirst).Ok? <==>
      KnownCodes(ts) && PermutableFirst(ts) && ItemsSuffice(ts, items) && (nameFirst ==> NameLeads(ts))
  {
    ProcessAccepts(START, s, items, name, nameFirst);
  }

  lemma {:induction false} NoneLeading(ts: seq<Token>)
    requires Code(LETTER_P) !in ts
    ensures LeadingP(ts) == 0 && PCodes(ts) == 0
  {
    if ts != [] {
      assert ts[0] in ts;
      NoneLeading(ts[1..]);
    }
  }

  lemma {:induction false} ProcessBorders(p: Progress, s: Text, items: nat, name: Text, nameFirst: bool)
    requires Awaiting(p, nameFirst) && Process(p, s, items, name, nameFirst).Ok?
    requires p.afterP ==> Code(LETTER_P) !in Tokens(s)
    requires PermutableFirst(Tokens(s))
    ensures
      var q := Process(p, s, items, name, nameFirst).value;
      && q.permEnd == p.permEnd + PCodes(Tokens(s))
      && q.pfxEnd == p.pfxEnd + if p.iname then 0 else LeadingP(Tokens(s))
    decreases |s|
  {
    if s != [] {
      var (ts, rest) := (Tokens(s), if s[0] != PERCENT || |s| == 1 then s[1..] else s[2..]);
      TokensStep(p, s, items, name, nameFirst);
      StepAccepts(p, ts[0], items, name, nameFirst);
      StepBorders(p, ts[0], items, name, nameFirst);
      PermutableRest(ts);
      assert Code(LETTER_P) in ts[1..] ==> Code(LETTER_P) in ts;
      ProcessBorders(TokenStep(p, ts[0], items, name, nameFirst).value, rest, items, name, nameFirst);
      if p.afterP {
        NoneLeading(ts);
        NoneLeading(ts[1..]);
      }
    }
  }

  /** The permutable fields are the "%p", and the prefix fields those in front of the name. */
  lemma BordersMean(s: Text, items: nat, name: Text, nameFirst: bool)
    requires Compile(s, items, name, nameFirst).Ok?
    ensures
      var p := Compile(s, items, name, nameFirst).value;
      p.permEnd == OFFSET + PCodes(Tokens(s)) && p.pfxEnd == OFFSET + LeadingP(Tokens(s))
  {
    PermutableWhenOk(START, s, items, name, nameFirst);
    ProcessBorders(START, s, items, name, nameFirst);
  }

  lemma {:induction false} PermutableWhenOk(p: Progress, s: Text, items: nat, name: Text, nameFirst: bool)
    requires Awaiting(p, nameFirst) && Process(p, s, items, name, nameFirst).Ok?
    ensures PermutableFirst(Tokens(s)) && (p.afterP ==> Code(LETTER_P) !in Tokens(s))
    decreases |s|
  {
    if s != [] {
      var (ts, rest) := (Tokens(s), if s[0] != PERCENT || |s| == 1 then s[1..] else s[2..]);
      TokensStep(p, s, items, name, nameFirst);
      StepAccepts(p, ts[0], items, name, nameFirst);
      PermutableWhenOk(TokenStep(p, ts[0], items, name, nameFirst).value, rest, items, name, nameFirst);
      PermutableRest(ts);
      assert Code(LETTER_P) in ts <==> ts[0] == Code(LETTER_P) || Code(LETTER_P) in ts[1..];
    }
  }

  // ----- what an accepted format looks like -----

  /** Literal text stays below the marker bytes. */
  ghost predicate Plain7(s: Text) { forall i :: 0 <= i < |s| ==> !IsField(s[i]) }

  /** A usable instruction name: not empty, no space, no marker byte. */
  ghost predicate GoodName(name: Text) { name != [] && Plain7(name) && forall i :: 0 <= i < |name| ==> !IsSpace(name[i]) }

  /** The marker bytes of a text, in order. */
  function Markers(s: Text): Text {
    if s == [] then [] else if IsField(s[|s| - 1]) then Markers(s[..|s| - 1]) + [s[|s| - 1]] else Markers(s[..|s| - 1])
  }

  function Numbered(n: nat): Text
    requires n <= 128
  {
    seq(n, i requires 0 <= i < n => (OFFSET + i) as Byte)
  }

  ghost predicate NameRange(text: Text, from: int, to: int) {
    0 <= from < to <= |text| && forall i :: from <= i < to ==> !IsSpace(text[i]) && !IsField(text[i])
  }

  /** What every step keeps. */
  ghost predicate Shape(p: Progress) {
    && p.count <= 128 && Markers(p.text) == Numbered(p.count)
    && OFFSET <= p.pfxEnd <= p.permEnd <= OFFSET + p.count
    && (!p.afterP ==> p.permEnd == OFFSET + p.count)
    && (p.iname ==> NameRange(p.text, p.inBegin, p.inEnd + 1))
    && (p.iname && !p.handled ==> p.inEnd + 1 == |p.text|)
  }

  lemma MarkersSnoc(s: Text, c: Byte)
    ensures Markers(s + [c]) == if IsField(c) then Markers(s) + [c] else Markers(s)
  {
    assert (s + [c])[..|s|] == s;
  }

  lemma {:induction false} MarkersPlain(s: Text, t: Text)
    requires Plain7(t)
    ensures Markers(s + t) == Markers(s)
  {
    if t == [] {
      assert s + t == s;
    } else {
      var t' := t[..|t| - 1];
      MarkersPlain(s, t');
      assert s + t == (s + t') + [t[|t| - 1]];
      MarkersSnoc(s + t', t[|t| - 1]);
    }
  }

  lemma NumberedSnoc(n: nat)
    requires n < 128
    ensures Numbered(n + 1) == Numbered(n) + [Marker(n)]
  {
  }

  lemma LiteralKeepsShape(p: Progress, c: Byte)
    requires Shape(p) && !IsField(c)
    ensures Shape(Literal(p, c))
  {
    MarkersSnoc(p.text, c);
  }

  lemma AddFieldKeepsShape(p: Progress, perm: bool)
    requires Shape(p) && p.count < 128 && (perm ==> !p.afterP) && (!perm ==> p.afterP) && (p.iname ==> p.handled)
    ensures Shape(AddField(p, perm))
  {
    MarkersSnoc(p.text, Marker(p.count));
    NumberedSnoc(p.count);
  }

  lemma ControlKeepsShape(p: Progress, c: Byte, items: nat, name: Text, nameFirst: bool)
    requires Shape(p) && p.count + Adds(c) <= 128 && GoodName(name) && Control(p, c, items, name, nameFirst).Ok?
    ensures Shape(Control(p, c, items, name, nameFirst).value)
  {
    if c == LETTER_I {
      MarkersPlain(p.text, name);
    } else {
      var q := if p.iname then p.(handled := true) else p;
      assert Shape(q);
      if c == LETTER_F {
        AddFieldKeepsShape(q.(handled := true, afterP := true), false);
      } else if c == LETTER_P {
        AddFieldKeepsShape(q, true);
      } else {
        MarkersSnoc(q.text, PERCENT);
      }
    }
  }

  lemma {:induction false} ProcessKeepsShape(p: Progress, s: Text, items: nat, name: Text, nameFirst: bool)
    requires Shape(p) && p.count + FieldCodes(s) <= 128 && GoodName(name) && Plain7(s)
    requires Process(p, s, items, name, nameFirst).Ok?
    ensures Shape(Process(p, s, items, name, nameFirst).value)
    decreases |s|
  {
    if s == [] {
    } else if s[0] != PERCENT {
      LiteralKeepsShape(p, s[0]);
      ProcessKeepsShape(Literal(p, s[0]), s[1..], items, name, nameFirst);
    } else if |s| > 1 {
      ControlKeepsShape(p, s[1], items, name, nameFirst);
      ProcessKeepsShape(Control(p, s[1], items, name, nameFirst).value, s[2..], items, name, nameFirst);
    }
  }

  /**
   In every accepted format the markers occur once each, in increasing order from the first;
   the prefix fields come first among the permutable ones, these first among all; and the name,
   if there is one, is one stretch of text without space or marker.
   */
  lemma CompiledShape(s: Text, items: nat, name: Text, nameFirst: bool)
    requires FieldCodes(s) <= 128 && GoodName(name) && Plain7(s) && Compile(s, items, name, nameFirst).Ok?
    ensures
      var p := Compile(s, items, name, nameFirst).value;
      && p.count == FieldCodes(s) <= items && Markers(p.text) == Numbered(p.count)
      && OFFSET <= p.pfxEnd <= p.permEnd <= OFFSET + p.count
      && (p.iname ==> NameRange(p.text, p.inBegin, p.inEnd))
      && (nameFirst ==> p.iname)
  {
    ProcessKeepsShape(START, s, items, name, nameFirst);
    ProcessCounts(START, s, items, name, nameFirst);
  }

  /** How many of the first `n` marker bytes are in the marker range. */
  function Visible(n: nat): nat { if n == 0 then 0 else Visible(n - 1) + if IsField(Marker(n - 1)) then 1 else 0 }

  lemma {:induction false} VisibleBounds(n: nat)
    ensures Visible(n) <= n && (Visible(n) == n <==> n <= 128)
  {
    if n > 0 {
      VisibleBounds(n - 1);
    }
  }

  ghost predicate Marked(p: Progress) { |Markers(p.text)| == Visible(p.count) }

  lemma ControlMarks(p: Progress, c: Byte, items: nat, name: Text, nameFirst: bool)
    requires Marked(p) && Plain7(name) && Control(p, c, items, name, nameFirst).Ok?
    ensures Marked(Control(p, c, items, name, nameFirst).value)
  {
    if c == LETTER_I {
      MarkersPlain(p.text, name);
    } else if c == PERCENT {
      MarkersSnoc(p.text, PERCENT);
    } else {
      MarkersSnoc(p.text, Marker(p.count));
    }
  }

  lemma {:induction false} MarkerCount(p: Progress, s: Text, items: nat, name: Text, nameFirst: bool)
    requires Marked(p) && Plain7(name) && Plain7(s) && Process(p, s, items, name, nameFirst).Ok?
    ensures Marked(Process(p, s, items, name, nameFirst).value)
    decreases |s|
  {
    if s == [] {
    } else if s[0] != PERCENT {
      MarkersSnoc(p.text, s[0]);
      MarkerCount(Literal(p, s[0]), s[1..], items, name, nameFirst);
    } else if |s| > 1 {
      ControlMarks(p, s[1], items, name, nameFirst);
      MarkerCount(Control(p, s[1], items, name, nameFirst).value, s[2..], items, name, nameFirst);
    }
  }

  /** Every field keeps a marker of its own exactly when the input has at most 128 codes for fields. */
  lemma EveryFieldMarkedIff(s: Text, items: nat, name: Text, nameFirst: bool)
    requires Plain7(name) && Plain7(s) && Compile(s, items, name, nameFirst).Ok?
    ensures
      var p := Compile(s, items, name, nameFirst).value;
      p.count == FieldCodes(s) && (|Markers(p.text)| == p.count <==> FieldCodes(s) <= 128)
  {
    MarkerCount(START, s, items, name, nameFirst);
    ProcessCounts(START, s, items, name, nameFirst);
    VisibleBounds(FieldCodes(s));
  }

  /** "%f", `n` times. */
  function Fields(n: nat): Text { if n == 0 then [] else [PERCENT, LETTER_F] + Fields(n - 1) }

  lemma {:induction false} FieldsCompile(p: Progress, n: nat, items: nat, name: Text)
    requires p.count + n <= items
    ensures Process(p, Fields(n), items, name, false).Ok?
    ensures FieldCodes(Fields(n)) == n && Plain7(Fields(n))
    decreases n
  {
    if n > 0 {
      var s := Fields(n);
      assert s[0] == PERCENT && s[1] == LETTER_F && s[2..] == Fields(n - 1);
      FieldsCompile(Control(p, LETTER_F, items, name, false).value, n - 1, items, name);
    }
  }

  /** From 129 codes on a format is accepted and loses markers. */
  lemma FieldsLost(n: nat)
    requires n > 128
    ensures
      var r := Compile(Fields(n), n, [], false);
      r.Ok? && r.value.count == n && |Markers(r.value.text)| < n
  {
    FieldsCompile(START, n, n, []);
    MarkerCount(START, Fields(n), n, [], false);
    ProcessCounts(START, Fields(n), n, [], false);
    VisibleBounds(n);
  }

  // ----- printing a format back -----

  function PrintByte(c: Byte, permEnd: nat): Text {
    if OFFSET <= c < permEnd then [PERCENT, LETTER_P] else if IsField(c) then [PERCENT, LETTER_F] else [c]
  }

  function Print(s: Text, permEnd: nat): Text {
    if s == [] then [] else Print(s[..|s| - 1], permEnd) + PrintByte(s[|s| - 1], permEnd)
  }

  /** The input with "%i" replaced by the name and "%%" by '%'. */
  function Expand(s: Text, name: Text): Text
    decreases |s|
  {
    if |s| < 2 || s[0] != PERCENT then (if s == [] then [] else [s[0]] + Expand(s[1..], name))
    else (if s[1] == LETTER_I then name else if s[1] == PERCENT then [PERCENT] else s[..2]) + Expand(s[2..], name)
  }

  lemma PrintSnoc(s: Text, c: Byte, permEnd: nat)
    ensures Print(s + [c], permEnd) == Print(s, permEnd) + PrintByte(c, permEnd)
  {
    assert (s + [c])[..|s|] == s;
  }

  lemma {:induction false} PrintPlain(s: Text, t: Text, permEnd: nat)
    requires Plain7(t)
    ensures Print(s + t, permEnd) == Print(s, permEnd) + t
  {
    if t == [] {
      assert s + t == s;
    } else {
      PlainFront(t);
      PrintPlain(s, Front(t), permEnd);
      PrintPlainSnoc(s, Front(t), Last(t), permEnd, t);
    }
  }

  lemma PlainFront(t: Text)
    requires Plain7(t) && t != []
    ensures Plain7(Front(t)) && !IsField(Last(t)) && t == Front(t) + [Last(t)]
  {
  }

  lemma PrintPlainSnoc(s: Text, front: Text, c: Byte, permEnd: nat, t: Text)
    requires t == front + [c] && !IsField(c) && Print(s + front, permEnd) == Print(s, permEnd) + front
    ensures Print(s + t, permEnd) == Print(s, permEnd) + t
  {
    Associate(s, front, [c], t);
    Associate(Print(s, permEnd), front, [c], t);
    PrintSnoc(s + front, c, permEnd);
  }

  lemma Associate(x: Text, y: Text, z: Text, yz: Text)
    requires yz == y + z
    ensures (x + y) + z == x + yz
  {
  }

  /** While every marker is permutable, one more permutable marker does not change the others. */
  lemma {:induction false} PrintStable(s: Text, permEnd: nat)
    requires forall i :: 0 <= i < |s| && IsField(s[i]) ==> s[i] < permEnd
    ensures Print(s, permEnd + 1) == Print(s, permEnd)
  {
    if s != [] {
      PrintStable(s[..|s| - 1], permEnd);
    }
  }

  lemma {:induction false} MarkersCover(s: Text, i: nat)
    requires i < |s| && IsField(s[i])
    ensures s[i] in Markers(s)
  {
    if i < |s| - 1 {
      MarkersCover(s[..|s| - 1], i);
    }
  }

  lemma PermutableSoFar(p: Progress)
    requires Shape(p) && !p.afterP
    ensures Print(p.text, p.permEnd + 1) == Print(p.text, p.permEnd)
  {
    forall i | 0 <= i < |p.text| && IsField(p.text[i])
      ensures p.text[i] < p.permEnd
    {
      MarkersCover(p.text, i);
      assert p.text[i] in Numbered(p.count);
    }
    PrintStable(p.text, p.permEnd);
  }

  lemma FieldPrints(p: Progress, perm: bool)
    requires Shape(p) && p.count < 128 && (perm ==> !p.afterP)
    ensures
      var q := AddField(p, perm);
      Print(q.text, q.permEnd) == Print(p.text, p.permEnd) + [PERCENT, if perm then LETTER_P else LETTER_F]
  {
    var q := AddField(p, perm);
    if perm {
      PermutableSoFar(p);
    }
    PrintSnoc(p.text, Marker(p.count), q.permEnd);
  }

  lemma ControlPrints(p: Progress, c: Byte, items: nat, name: Text, nameFirst: bool)
    requires Shape(p) && p.count + Adds(c) <= 128 && GoodName(name) && Control(p, c, items, name, nameFirst).Ok?
    ensures
      var q := Control(p, c, items, name, nameFirst).value;
      Print(q.text, q.permEnd) == Print(p.text, p.permEnd) + Resolved(c, name)
  {
    var q := if p.iname then p.(handled := true) else p;
    if c == LETTER_I {
      PrintPlain(p.text, name, p.permEnd);
    } else if c == PERCENT {
      PrintSnoc(p.text, PERCENT, p.permEnd);
    } else if c == LETTER_P {
      FieldPrints(q, true);
    } else {
      FieldPrints(q.(handled := true, afterP := true), false);
    }
  }

  lemma {:induction false} ProcessPrints(p: Progress, s: Text, items: nat, name: Text, nameFirst: bool)
    requires Shape(p) && p.count + FieldCodes(s) <= 128 && GoodName(name) && Plain7(s)
    requires Process(p, s, items, name, nameFirst).Ok?
    ensures
      var q := Process(p, s, items, name, nameFirst).value;
      Print(q.text, q.permEnd) == Print(p.text, p.permEnd) + Expand(s, name)
    decreases |s|
  {
    if s == [] {
    } else if s[0] != PERCENT {
      LiteralKeepsShape(p, s[0]);
      LiteralPrints(p, s[0]);
      ProcessPrints(Literal(p, s[0]), s[1..], items, name, nameFirst);
      Associate(Print(p.text, p.permEnd), [s[0]], Expand(s[1..], name), Expand(s, name));
    } else if |s| > 1 {
      var q := CodeStep(p, s, items, name, nameFirst);
      ProcessPrints(q, s[2..], items, name, nameFirst);
      Associate(Print(p.text, p.permEnd), Resolved(s[1], name), Expand(s[2..], name), Expand(s, name));
    }
  }

  /** One control code of an accepted input. */
  lemma CodeStep(p: Progress, s: Text, items: nat, name: Text, nameFirst: bool) returns (q: Progress)
    requires Shape(p) && p.count + FieldCodes(s) <= 128 && GoodName(name)
    requires |s| > 1 && s[0] == PERCENT && Process(p, s, items, name, nameFirst).Ok?
    ensures Shape(q) && q.count + FieldCodes(s[2..]) <= 128
    ensures Process(q, s[2..], items, name, nameFirst) == Process(p, s, items, name, nameFirst)
    ensures Print(q.text, q.permEnd) == Print(p.text, p.permEnd) + Resolved(s[1], name)
    ensures Expand(s, name) == Resolved(s[1], name) + Expand(s[2..], name)
  {
    q := Control(p, s[1], items, name, nameFirst).value;
    ControlKeepsShape(p, s[1], items, name, nameFirst);
    ControlPrints(p, s[1], items, name, nameFirst);
    ExpandCode(s, name);
  }

  lemma LiteralPrints(p: Progress, c: Byte)
    requires !IsField(c)
    ensures Print(Literal(p, c).text, Literal(p, c).permEnd) == Print(p.text, p.permEnd) + [c]
  {
    PrintSnoc(p.text, c, p.permEnd);
  }

  /** What a code prints as. */
  function Resolved(c: Byte, name: Text): Text {
    if c == LETTER_I then name else if c == PERCENT then [PERCENT] else [PERCENT, c]
  }

  lemma ExpandCode(s: Text, name: Text)
    requires |s| > 1 && s[0] == PERCENT
    ensures Expand(s, name) == Resolved(s[1], name) + Expand(s[2..], name)
  {
    assert s[..2] == [PERCENT, s[1]];
  }

  /** The printer gives back the input with its name and percent codes resolved. */
  lemma CompiledPrints(s: Text, items: nat, name: Text, nameFirst: bool)
    requires FieldCodes(s) <= 128 && GoodName(name) && Plain7(s) && Compile(s, items, name, nameFirst).Ok?
    ensures
      var p := Compile(s, items, name, nameFirst).value;
      Print(p.text, p.permEnd) == Expand(s, name)
  {
    ProcessPrints(START, s, items, name, nameFirst);
  }

  // ----- when the printer gives back the input itself -----

  /** Neither "%i" nor "%%" occurs. */
  predicate NoNameOrPercent(s: Text)
    decreases |s|
  {
    if |s| < 2 then true
    else if s[0] != PERCENT then NoNameOrPercent(s[1..])
    else s[1] != LETTER_I && s[1] != PERCENT && NoNameOrPercent(s[2..])
  }

  function Percents(s: Text): nat { if s == [] then 0 else (if s[0] == PERCENT then 1 else 0) + Percents(s[1..]) }

  lemma {:induction false} PercentsConcat(s: Text, t: Text)
    ensures Percents(s + t) == Percents(s) + Percents(t)
  {
    if s == [] {
      assert s + t == t;
    } else {
      assert (s + t)[1..] == s[1..] + t;
      PercentsConcat(s[1..], t);
    }
  }

  lemma {:induction false} NoPercents(s: Text)
    requires PERCENT !in s
    ensures Percents(s) == 0
  {
    if s != [] {
      NoPercents(s[1..]);
    }
  }

  /** Resolving codes only ever removes percent signs, and removes one for each code resolved. */
  lemma {:induction false} ExpandPercents(s: Text, name: Text)
    requires PERCENT !in name
    ensures Percents(Expand(s, name)) <= Percents(s)
    ensures Percents(Expand(s, name)) == Percents(s) ==> NoNameOrPercent(s)
    ensures NoNameOrPercent(s) ==> Expand(s, name) == s
    decreases |s|
  {
    if s == [] {
    } else if |s| < 2 || s[0] != PERCENT {
      ExpandPercents(s[1..], name);
      PercentsConcat([s[0]], Expand(s[1..], name));
      assert s == [s[0]] + s[1..];
    } else {
      ExpandPercents(s[2..], name);
      ExpandCode(s, name);
      PercentsConcat(Resolved(s[1], name), Expand(s[2..], name));
      CodePercents(s, name);
    }
  }

  /** The percent signs of a code, and of what it is resolved to. */
  lemma CodePercents(s: Text, name: Text)
    requires |s| > 1 && s[0] == PERCENT && PERCENT !in name
    ensures s == s[..2] + s[2..]
    ensures Percents(s) == Percents(s[2..]) + if s[1] == PERCENT then 2 else 1
    ensures Percents(Resolved(s[1], name)) == if s[1] == LETTER_I then 0 else 1
    ensures s[1] != LETTER_I && s[1] != PERCENT ==> Resolved(s[1], name) == s[..2]
  {
    NoPercents(name);
    assert s[1..][1..] == s[2..];
    assert [PERCENT, s[1]][1..] == [s[1]] && [s[1]][1..] == [];
    assert [PERCENT][1..] == [];
  }

  /** The printer gives back an accepted input unchanged exactly when it has neither "%i" nor "%%". */
  lemma PrintsBackIff(s: Text, items: nat, name: Text, nameFirst: bool)
    requires FieldCodes(s) <= 128 && GoodName(name) && PERCENT !in name && Plain7(s)
    requires Compile(s, items, name, nameFirst).Ok?
    ensures
      var p := Compile(s, items, name, nameFirst).value;
      Print(p.text, p.permEnd) == s <==> NoNameOrPercent(s)
  {
    CompiledPrints(s, items, name, nameFirst);
    ExpandPercents(s, name);
  }
}
