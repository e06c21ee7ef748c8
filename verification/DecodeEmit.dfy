/**
 Disassembler generation: the decode tree becomes nested switches on single 32-bit words,
 and further instruction words are funnelled in only where a switch or an entry needs them.
 */
module DecodeEmit {
  import opened Basics
  import opened Words
  import opened DecodeTree

  // ----- words of a mask: get_submask, get_index, required_fetch -----

  function WordAt(x: Word, i: int): (y: Word)
    ensures |y| == 32
  {
    Slice(x, 32 * i, 32)
  }

  /** The last of the first `n` words with a bit set; 0 if there is none. */
  function LastWord(mask: Word, n: nat): nat {
    if n == 0 then 0 else if !IsZero(WordAt(mask, n - 1)) then n - 1 else LastWord(mask, n - 1)
  }

  /** The words before index `n` hold no bit outside word `i`. */
  ghost predicate OnlyWord(mask: Word, n: nat, i: nat) {
    forall j :: 0 <= j < n && j != i ==> IsZero(WordAt(mask, j))
  }

  /** The mask is confined to one word. */
  ghost predicate OneWord(mask: Word, n: nat) {
    |mask| == 32 * n && OnlyWord(mask, n, LastWord(mask, n))
  }

  /** A word is clear exactly when all its 32-bit words are. */
  lemma ZeroByWords(x: Word, n: nat)
    requires |x| == 32 * n
    ensures IsZero(x) <==> forall j :: 0 <= j < n ==> IsZero(WordAt(x, j))
  {
    if forall j :: 0 <= j < n ==> IsZero(WordAt(x, j)) {
      forall i | 0 <= i < |x|
        ensures !x[i]
      {
        assert IsZero(WordAt(x, i / 32));
        assert !WordAt(x, i / 32)[i % 32];
      }
    }
  }

  /** The mask after `k` shifts by 32. */
  function Shifted(mask: Word, k: nat): Word { if k == 0 then mask else Shr(mask, 32 * k) }

  /** After `k` shifts by 32, the low word is word `n - 1 - k`. */
  lemma LowWordAfter(mask: Word, m: Word, n: nat, k: nat)
    requires |mask| == 32 * n && k < n && m == Shifted(mask, k)
    ensures LowWord(m) == WordAt(mask, n - 1 - k)
    ensures Shr(m, 32) == Shifted(mask, k + 1)
  {
  }

  ghost predicate ClearFrom(mask: Word, n: nat, i: int) {
    forall j :: i <= j < n && 0 <= j ==> IsZero(WordAt(mask, j))
  }

  lemma {:induction false} LastWordIs(mask: Word, n: nat, i: nat)
    requires i < n && !IsZero(WordAt(mask, i)) && ClearFrom(mask, n, i + 1)
    ensures LastWord(mask, n) == i
  {
    if i < n - 1 {
      assert IsZero(WordAt(mask, n - 1));
      LastWordIs(mask, n - 1, i);
    }
  }

  lemma {:induction false} NoLastWord(mask: Word, n: nat)
    requires ClearFrom(mask, n, 0)
    ensures LastWord(mask, n) == 0
  {
    if n > 0 {
      assert IsZero(WordAt(mask, n - 1));
      NoLastWord(mask, n - 1);
    }
  }

  /** When the shifted mask is clear, the words it still holds are clear. */
  lemma AllClear(mask: Word, n: nat, k: nat)
    requires |mask| == 32 * n && k <= n && IsZero(Shifted(mask, k)) && ClearFrom(mask, n, n - k)
    ensures ClearFrom(mask, n, 0)
  {
    forall j | 0 <= j < n
      ensures IsZero(WordAt(mask, j))
    {
      if j < n - k {
        forall i | 0 <= i < 32
          ensures !WordAt(mask, j)[i]
        {
          assert !Shifted(mask, k)[32 * j + i + 32 * k];
        }
      }
    }
  }

  /** `k` clear words have been shifted out of the mask. */
  ghost predicate Scanning(mask: Word, m: Word, n: nat, k: nat) {
    |mask| == 32 * n && k <= n && m == Shifted(mask, k) && ClearFrom(mask, n, n - k)
  }

  lemma ScanStart(mask: Word, n: nat)
    requires |mask| == 32 * n
    ensures Scanning(mask, mask, n, 0)
  {
  }

  lemma ClearMore(mask: Word, n: nat, i: int)
    requires ClearFrom(mask, n, i) && IsZero(WordAt(mask, i - 1))
    ensures ClearFrom(mask, n, i - 1)
  {
  }

  lemma ScanStep(mask: Word, m: Word, n: nat, k: nat)
    requires Scanning(mask, m, n, k) && !IsZero(m)
    ensures k < n
    ensures
      var low := LowWord(m);
      if IsZero(low) then Scanning(mask, Shr(m, 32), n, k + 1)
      else LastWord(mask, n) == n - 1 - k && low == WordAt(mask, n - 1 - k)
  {
    assert k < n;
    LowWordAfter(mask, m, n, k);
    if IsZero(WordAt(mask, n - 1 - k)) {
      ClearMore(mask, n, n - k);
    } else {
      LastWordIs(mask, n, n - 1 - k);
    }
  }

  lemma ScanEnd(mask: Word, m: Word, n: nat, k: nat)
    requires n > 0 && Scanning(mask, m, n, k) && IsZero(m)
    ensures LastWord(mask, n) == 0 && WordAt(mask, 0) == Zeros(32)
  {
    AllClear(mask, n, k);
    NoLastWord(mask, n);
    assert IsZero(WordAt(mask, 0));
  }

  function LowWord(m: Word): (y: Word)
    ensures |y| == 32
  {
    Slice(m, |m| - 32, 32)
  }

  method GetIndex(mask: Word, n: nat) returns (index: nat)
    requires n > 0 && |mask| == 32 * n
    ensures index == LastWord(mask, n)
  {
    var ret: nat := 0;
    var m := mask;
    ScanStart(mask, n);
    while !IsZero(m)
      invariant Scanning(mask, m, n, ret)
      decreases n - ret
    {
      ScanStep(mask, m, n, ret);
      if !IsZero(LowWord(m)) { return n - 1 - ret; }
      m := Shr(m, 32);
      ret := ret + 1;
    }
    ScanEnd(mask, m, n, ret);
    index := 0;
  }

  method GetSubmask(mask: Word, n: nat) returns (sub: Word)
    requires n > 0 && |mask| == 32 * n
    ensures sub == WordAt(mask, LastWord(mask, n))
  {
    ghost var k: nat := 0;
    var m := mask;
    ScanStart(mask, n);
    while !IsZero(m)
      invariant Scanning(mask, m, n, k)
      decreases n - k
    {
      ScanStep(mask, m, n, k);
      sub := LowWord(m);
      if !IsZero(sub) { return; }
      m := Shr(m, 32);
      k := k + 1;
    }
    ScanEnd(mask, m, n, k);
    sub := Zeros(32);
  }

  /** Words that must be complete before the mask can be applied. */
  function Required(mask: Word, n: nat): nat {
    if IsZero(mask) then 0 else LastWord(mask, n) + 1
  }

  /** Exactly the words up to the last one with a bit of the mask. */
  lemma RequiredMeans(mask: Word, n: nat)
    requires |mask| == 32 * n
    ensures Required(mask, n) <= n && ClearFrom(mask, n, Required(mask, n))
    ensures Required(mask, n) > 0 ==> !IsZero(WordAt(mask, Required(mask, n) - 1))
  {
    ZeroByWords(mask, n);
    if !IsZero(mask) {
      LastWordHas(mask, n);
    }
  }

  lemma {:induction false} LastWordHas(mask: Word, n: nat)
    requires exists j :: 0 <= j < n && !IsZero(WordAt(mask, j))
    ensures LastWord(mask, n) < n && !IsZero(WordAt(mask, LastWord(mask, n))) && ClearFrom(mask, n, LastWord(mask, n) + 1)
  {
    if IsZero(WordAt(mask, n - 1)) {
      LastWordHas(mask, n - 1);
    }
  }

  method RequiredFetch(mask: Word, n: nat) returns (words: nat)
    requires |mask| == 32 * n
    ensures words == Required(mask, n)
  {
    for i := 0 to n
      invariant ClearFrom(mask, n, n - i)
    {
      LowWordAfter(mask, Shifted(mask, i), n, i);
      var tmp := LowWord(Shifted(mask, i));
      if !IsZero(tmp) {
        LastWordIs(mask, n, n - 1 - i);
        ZeroByWords(mask, n);
        return n - i;
      }
    }
    ZeroByWords(mask, n);
    return 0;
  }

  // ----- one switch against one masked lookup -----

  /** Selecting a case by one word of the instruction. */
  predicate CaseMatches(w: Word, mask: Word, key: Word, i: nat) {
    And(WordAt(w, i), WordAt(mask, i)) == WordAt(key, i)
  }

  /** Within one word, the case label decides exactly what the full-width key decides. */
  lemma CaseIsKey(w: Word, mask: Word, key: Word, n: nat)
    requires |w| == 32 * n && n > 0 && OneWord(mask, n) && Within(key, mask)
    ensures CaseMatches(w, mask, key, LastWord(mask, n)) <==> And(w, mask) == key
  {
    var i := LastWord(mask, n);
    LastWordBounds(mask, n);
    var a, b := And(w, mask), And(WordAt(w, i), WordAt(mask, i));
    assert b == WordAt(a, i);
    if b == WordAt(key, i) {
      forall k | 0 <= k < |a|
        ensures a[k] == key[k]
      {
        SameInWord(a, key, mask, n, i, k);
      }
    }
  }

  lemma {:induction false} LastWordBounds(mask: Word, n: nat)
    requires n > 0
    ensures LastWord(mask, n) < n
  {
    if n > 1 {
      LastWordBounds(mask, n - 1);
    }
  }

  lemma SameInWord(a: Word, b: Word, mask: Word, n: nat, i: nat, k: nat)
    requires |mask| == 32 * n && OnlyWord(mask, n, i) && Within(a, mask) && Within(b, mask)
    requires k < |a| && WordAt(a, i) == WordAt(b, i)
    ensures a[k] == b[k]
  {
    var j, r := k / 32, k % 32;
    if j == i {
      assert WordAt(a, i)[r] == a[k] && WordAt(b, i)[r] == b[k];
    } else {
      assert IsZero(WordAt(mask, j));
      assert WordAt(mask, j)[r] == mask[k];
    }
  }

  /** The case of `key` is taken by exactly the instructions that have the key. */
  ghost predicate SwitchExact(mask: Word, key: Word, n: nat) {
    forall w: Word :: |w| == 32 * n ==> (CaseMatches(w, mask, key, LastWord(mask, n)) <==> And(w, mask) == key)
  }

  /**
   That a mask is confined to one word is exactly what a switch on one word needs: with a
   mask bit in another word, some instruction takes the case without having the key.
   */
  lemma SwitchExactIffOneWord(mask: Word, key: Word, n: nat)
    requires n > 0 && |mask| == 32 * n && Within(key, mask)
    ensures SwitchExact(mask, key, n) <==> OneWord(mask, n)
  {
    if OneWord(mask, n) {
      forall w: Word | |w| == 32 * n
        ensures CaseMatches(w, mask, key, LastWord(mask, n)) <==> And(w, mask) == key
      {
        CaseIsKey(w, mask, key, n);
      }
    } else {
      var j :| 0 <= j < n && j != LastWord(mask, n) && !IsZero(WordAt(mask, j));
      LastWordBounds(mask, n);
      var w := WrongCase(mask, key, n, LastWord(mask, n), j);
      assert !(CaseMatches(w, mask, key, LastWord(mask, n)) <==> And(w, mask) == key);
    }
  }

  /** Flip one masked bit of the key outside word `i`. */
  lemma WrongCase(mask: Word, key: Word, n: nat, i: nat, j: nat) returns (w: Word)
    requires |mask| == 32 * n && Within(key, mask) && i < n && j < n && i != j && !IsZero(WordAt(mask, j))
    ensures |w| == 32 * n && CaseMatches(w, mask, key, i) && And(w, mask) != key
  {
    var r :| 0 <= r < 32 && WordAt(mask, j)[r];
    var p := 32 * j + r;
    w := key[p := !key[p]];
    assert And(w, mask)[p] != key[p];
    var a, b := And(WordAt(w, i), WordAt(mask, i)), WordAt(key, i);
    forall q | 0 <= q < 32
      ensures a[q] == b[q]
    {
      assert 32 * i + q != p;
    }
  }

  // ----- the emitted code -----

  /** insn[i] |= f[src] >> pb;  insn[i+1] = f[src] << (32 - pb); */
  datatype Funnel = Funnel(i: nat, src: nat)

  datatype Code =
    | Empty
    | Enter(instr: Instr)
    | PrintMiss
    | Fetch(ops: seq<Funnel>, rest: Code)
    | Switch(index: nat, mask: Word, cases: Cases, default: Code)
  datatype Cases = NoCase | Case(tag: Word, body: Code, more: Cases)

  /** How the generator was set up: prefix bits, words per instruction, misses printed or not. */
  datatype Config = Config(pb: nat, prefixTable: bool, n: nat, writeMiss: bool) {
    predicate Funnels() { !prefixTable && pb > 0 }
  }

  function Gap(start: nat, end: nat): nat { if start < end then end - start else 0 }

  /** The funnel steps for instruction words `start .. end - 1`. */
  function FunnelOps(start: nat, end: nat, fetchIndex: nat): (ops: seq<Funnel>)
    ensures |ops| == Gap(start, end)
    ensures forall k :: 0 <= k < |ops| ==> ops[k] == Funnel(start + k, fetchIndex + k)
  {
    seq(Gap(start, end), k requires 0 <= k => Funnel(start + k, fetchIndex + k))
  }

  method WriteAdditionalFetch(c: Config, start: nat, end: nat, fetchIndex: nat)
    returns (wrote: bool, ops: seq<Funnel>, next: nat)
    ensures wrote <==> start < end
    ensures ops == if c.Funnels() then FunnelOps(start, end, fetchIndex) else []
    ensures next == fetchIndex + |ops|
  {
    ops, next := [], fetchIndex;
    if start >= end { return false, ops, next; }
    if c.Funnels() {
      for i := start to end
        invariant ops == FunnelOps(start, i, fetchIndex) && next == fetchIndex + |ops|
      {
        ops := ops + [Funnel(i, next)];
        next := next + 1;
      }
    }
    return true, ops, next;
  }

  function Max(a: nat, b: nat): nat { if a > b then a else b }

  /** Words an instruction of this width needs beyond the prefix bits. */
  function NumWords(c: Config, bits: nat): nat {
    var x := bits - c.pb + 31; if x < 0 then 0 else x / 32
  }

  function Fetching(c: Config, start: nat, end: nat, fetchIndex: nat, rest: Code): Code {
    if c.Funnels() && start < end then Fetch(FunnelOps(start, end, fetchIndex), rest) else rest
  }

  /** Fetch index after fetching up to `end`. */
  function Advanced(c: Config, start: nat, end: nat, fetchIndex: nat): nat {
    if c.Funnels() && start < end then fetchIndex + (end - start) else fetchIndex
  }

  function EmitEntry(c: Config, instr: Instr, fetched: nat, fetchIndex: nat): Code {
    Fetching(c, fetched, NumWords(c, instr.fetchWidth), fetchIndex, Enter(instr))
  }

  function Emit(c: Config, t: Tree, fetched: nat, fetchIndex: nat): Code
    decreases t
  {
    if t.kids.NoKid? then
      if t.instr.Some? then EmitEntry(c, t.instr.value, fetched, fetchIndex) else Empty
    else
      var need := Required(t.mask, c.n);
      var f, fi := Max(fetched, need), Advanced(c, fetched, need, fetchIndex);
      var index := LastWord(t.mask, c.n);
      Fetching(c, fetched, need, fetchIndex,
               Switch(index, WordAt(t.mask, index), EmitCases(c, t.kids, index, f, fi), EmitDefault(c, t, f, fi)))
  }

  function EmitCases(c: Config, kids: Kids, index: nat, fetched: nat, fetchIndex: nat): Cases
    decreases kids
  {
    match kids
    case NoKid => NoCase
    case Kid(k, sub, more) =>
      Case(WordAt(k, index), Emit(c, sub, fetched, fetchIndex), EmitCases(c, more, index, fetched, fetchIndex))
  }

  function EmitDefault(c: Config, t: Tree, fetched: nat, fetchIndex: nat): Code
    decreases t, 0
  {
    match t.other
    case Table(d) => Emit(c, d, fetched, fetchIndex)
    case NoTable =>
      if t.instr.Some? then EmitEntry(c, t.instr.value, fetched, fetchIndex)
      else if c.writeMiss then PrintMiss else Empty
  }

  // ----- what the emitted code does -----

  /**
   Outcome and contents of `insn`; or a word outside the array is touched, or a switch reads
   a word before it is the instruction's.
   */
  datatype Ran = Ran(outcome: Outcome, insn: seq<Word>) | OutOfBounds | Incomplete

  function RunFunnel(pb: nat, op: Funnel, insn: seq<Word>, f: seq<Word>): Option<seq<Word>> {
    if op.i + 1 < |insn| && op.src < |f| then
      Some(insn[op.i := Or(insn[op.i], Shr(f[op.src], pb))][op.i + 1 := Shl(f[op.src], 32 - pb)])
    else None
  }

  function RunFunnels(pb: nat, ops: seq<Funnel>, insn: seq<Word>, f: seq<Word>): Option<seq<Word>> {
    if ops == [] then Some(insn)
    else
      var r := RunFunnels(pb, ops[..|ops| - 1], insn, f);
      if r.None? then None else RunFunnel(pb, ops[|ops| - 1], r.value, f)
  }

  /** The code at work on the fetched words `f`; `stream` is what `insn` should come to hold. */
  function Run(pb: nat, code: Code, insn: seq<Word>, f: seq<Word>, stream: Word): Ran
    decreases code
  {
    match code
    case Empty => Ran(Nothing, insn)
    case Enter(i) => Ran(Found(i), insn)
    case PrintMiss => Ran(Miss, insn)
    case Fetch(ops, rest) =>
      var r := RunFunnels(pb, ops, insn, f);
      if r.None? then OutOfBounds else Run(pb, rest, r.value, f, stream)
    case Switch(index, mask, cases, default) =>
      if index >= |insn| then OutOfBounds
      else if insn[index] != WordAt(stream, index) then Incomplete
      else
        var r := RunCases(pb, cases, And(insn[index], mask), insn, f, stream);
        if r.Some? then r.value else Run(pb, default, insn, f, stream)
  }

  function RunCases(pb: nat, cases: Cases, selected: Word, insn: seq<Word>, f: seq<Word>, stream: Word): Option<Ran>
    decreases cases
  {
    match cases
    case NoCase => None
    case Case(l, body, more) =>
      if l == selected then Some(Run(pb, body, insn, f, stream)) else RunCases(pb, more, selected, insn, f, stream)
  }

  // ----- the instruction stream -----

  /** The fetched words, end to end. */
  function Flat(f: seq<Word>): Word { if f == [] then [] else Flat(f[..|f| - 1]) + f[|f| - 1] }

  ghost predicate Words32(f: seq<Word>) { forall j :: 0 <= j < |f| ==> |f[j]| == 32 }

  lemma {:induction false} FlatAt(f: seq<Word>, j: nat, i: nat)
    requires Words32(f) && j < |f| && i < 32
    ensures |Flat(f)| == 32 * |f| && Flat(f)[32 * j + i] == f[j][i]
  {
    var g := f[..|f| - 1];
    FlatSize(g);
    if j < |f| - 1 {
      FlatAt(g, j, i);
    }
  }

  lemma {:induction false} FlatSize(f: seq<Word>)
    requires Words32(f)
    ensures |Flat(f)| == 32 * |f|
  {
    if f != [] {
      FlatSize(f[..|f| - 1]);
    }
  }

  /** The `pb` leading bits of a word; the others clear. */
  function TopBits(x: Word, pb: nat): (y: Word)
    ensures |y| == |x| && forall i :: 0 <= i < |x| ==> y[i] == (i < pb && x[i])
  {
    seq(|x|, i requires 0 <= i < |x| => i < pb && x[i])
  }

  /** `k` words are complete; the next one holds only the bits left over from the last fetch. */
  ghost predicate Funnelled(insn: seq<Word>, k: nat, stream: Word, pb: nat) {
    && k < |insn|
    && (forall j :: 0 <= j < k ==> insn[j] == WordAt(stream, j))
    && insn[k] == TopBits(WordAt(stream, k), pb)
  }

  /** One funnel step completes one more word. */
  lemma FunnelStep(insn: seq<Word>, k: nat, s: Word, f: seq<Word>, pb: nat)
    requires 0 < pb < 32 && k < |f| && k + 1 < |insn|
    requires Funnelled(insn, k, s, pb) && HoldsAt(s, f[k], k, pb)
    ensures
      var r := RunFunnel(pb, Funnel(k, k), insn, f);
      r.Some? && |r.value| == |insn| && Funnelled(r.value, k + 1, s, pb)
  {
    CompleteWord(s, f[k], k, pb);
    LeftOver(s, f[k], k, pb);
  }

  /** After the prefix bits and `k` words, the stream goes on with `g`. */
  ghost predicate HoldsAt(s: Word, g: Word, k: nat, pb: nat) {
    && |g| == 32 && pb + 32 * k + 32 <= |s|
    && forall i :: 0 <= i < 32 ==> s[pb + 32 * k + i] == g[i]
  }

  /** The stream: `pb` bits, then the fetched words. */
  ghost predicate Streams(s: Word, f: seq<Word>, pb: nat) {
    forall k :: 0 <= k < |f| ==> HoldsAt(s, f[k], k, pb)
  }

  /** The prefix bits followed by the fetched words are such a stream. */
  lemma PrefixThenWords(prefix: Word, f: seq<Word>)
    requires Words32(f)
    ensures Streams(prefix + Flat(f), f, |prefix|)
  {
    forall k | 0 <= k < |f|
      ensures HoldsAt(prefix + Flat(f), f[k], k, |prefix|)
    {
      StreamHolds(prefix, f, k, |prefix|);
    }
  }

  lemma StreamHolds(prefix: Word, f: seq<Word>, k: nat, pb: nat)
    requires |prefix| == pb && Words32(f) && k < |f|
    ensures HoldsAt(prefix + Flat(f), f[k], k, pb)
  {
    FlatSize(f);
    var t, s := Flat(f), prefix + Flat(f);
    forall i | 0 <= i < 32
      ensures s[pb + 32 * k + i] == f[k][i]
    {
      FlatAt(f, k, i);
      assert s[pb + (32 * k + i)] == t[32 * k + i];
    }
  }

  lemma CompleteWord(s: Word, g: Word, k: nat, pb: nat)
    requires 0 < pb < 32 && HoldsAt(s, g, k, pb)
    ensures Or(TopBits(WordAt(s, k), pb), Shr(g, pb)) == WordAt(s, k)
  {
    var x, y := Or(TopBits(WordAt(s, k), pb), Shr(g, pb)), WordAt(s, k);
    forall i | 0 <= i < 32
      ensures x[i] == y[i]
    {
      if i >= pb {
        assert s[pb + 32 * k + (i - pb)] == g[i - pb];
      }
    }
  }

  lemma LeftOver(s: Word, g: Word, k: nat, pb: nat)
    requires 0 < pb < 32 && HoldsAt(s, g, k, pb)
    ensures Shl(g, 32 - pb) == TopBits(WordAt(s, k + 1), pb)
  {
    var x, y := Shl(g, 32 - pb), TopBits(WordAt(s, k + 1), pb);
    forall i | 0 <= i < 32
      ensures x[i] == y[i]
    {
      if i < pb {
        assert s[pb + 32 * k + (i + 32 - pb)] == g[i + 32 - pb];
      }
    }
  }

  /** Fetching up to `end` completes `end` words. */
  lemma {:induction false} FunnelsRun(insn: seq<Word>, k: nat, end: nat, s: Word, f: seq<Word>, pb: nat)
    requires 0 < pb < 32 && k <= end <= |f| && end < |insn|
    requires Funnelled(insn, k, s, pb) && Streams(s, f, pb)
    ensures
      var r := RunFunnels(pb, FunnelOps(k, end, k), insn, f);
      r.Some? && |r.value| == |insn| && Funnelled(r.value, end, s, pb)
    decreases end
  {
    if k == end {
      assert FunnelOps(k, end, k) == [];
    } else {
      FunnelsRun(insn, k, end - 1, s, f, pb);
      FunnelOpsSnoc(k, end);
      assert HoldsAt(s, f[end - 1], end - 1, pb);
      FunnelStep(RunFunnels(pb, FunnelOps(k, end - 1, k), insn, f).value, end - 1, s, f, pb);
    }
  }

  lemma FunnelOpsSnoc(k: nat, end: nat)
    requires k < end
    ensures
      var ops := FunnelOps(k, end, k);
      ops != [] && ops[..|ops| - 1] == FunnelOps(k, end - 1, k) && ops[|ops| - 1] == Funnel(end - 1, end - 1)
  {
  }

  // ----- the tree the generator is given -----

  ghost predicate TreeOk(t: Tree, n: nat)
    decreases t
  {
    && (t.instr.Some? ==> t.instr.value.fetchWidth <= 32 * n)
    && (t.kids.Kid? ==> OneWord(t.mask, n) && KeysOk(t.kids, t.mask) && KidsOk(t.kids, n))
    && (t.other.Table? ==> TreeOk(t.other.t, n))
  }

  ghost predicate KidsOk(kids: Kids, n: nat)
    decreases kids
  {
    kids.Kid? ==> TreeOk(kids.sub, n) && KidsOk(kids.more, n)
  }

  // ----- the refinement -----

  /** A decode miss is reported only where the generator was told to. */
  function Reported(c: Config, o: Outcome): Outcome { if o.Miss? && !c.writeMiss then Nothing else o }

  /**
   `fetched` words of the instruction can be read from `insn`.  With prefix bits to funnel in,
   they are completed one by one; otherwise all of them are there from the start.
   */
  ghost predicate Ready(c: Config, insn: seq<Word>, fetched: nat, stream: Word) {
    if c.Funnels() then c.pb < 32 && |insn| == c.n + 1 && Funnelled(insn, fetched, stream, c.pb)
    else c.n <= |insn| && forall j :: 0 <= j < c.n ==> insn[j] == WordAt(stream, j)
  }

  /** The stream is the prefix bits and the fetched words. */
  ghost predicate StreamOk(c: Config, stream: Word, f: seq<Word>) {
    c.Funnels() ==> c.n <= |f| && Streams(stream, f, c.pb)
  }

  ghost predicate Indexed(c: Config, fetched: nat, fetchIndex: nat) { c.Funnels() ==> fetchIndex == fetched }

  /** The words fetched on the path to the node that decides `w`, before its instruction is entered. */
  function FetchedAt(c: Config, t: Tree, w: Word, fetched: nat): nat
    decreases t
  {
    if t.kids.NoKid? then fetched
    else
      var f := Max(fetched, Required(t.mask, c.n));
      var r := FetchedIn(c, t.kids, And(w, t.mask), w, f);
      if r.Some? then r.value else FetchedOther(c, t, w, f)
  }

  function FetchedOther(c: Config, t: Tree, w: Word, fetched: nat): nat
    decreases t, 0
  {
    match t.other
    case Table(d) => FetchedAt(c, d, w, fetched)
    case NoTable => fetched
  }

  function FetchedIn(c: Config, kids: Kids, masked: Word, w: Word, fetched: nat): Option<nat>
    decreases kids
  {
    match kids
    case NoKid => None
    case Kid(k, sub, more) =>
      if k == masked then Some(FetchedAt(c, sub, w, fetched)) else FetchedIn(c, more, masked, w, fetched)
  }

  /** The words fetched in the end: entering an instruction may fetch some more. */
  function FetchedFor(c: Config, o: Outcome, fetched: nat): nat {
    if o.Found? then Max(fetched, NumWords(c, o.instr.fetchWidth)) else fetched
  }

  /** The fetch code in front of a statement makes the words it needs readable. */
  lemma FetchingReady(c: Config, insn: seq<Word>, fetched: nat, end: nat, fi: nat, rest: Code,
                      stream: Word, f: seq<Word>) returns (insn': seq<Word>)
    requires Ready(c, insn, fetched, stream) && StreamOk(c, stream, f) && Indexed(c, fetched, fi) && end <= c.n
    ensures Run(c.pb, Fetching(c, fetched, end, fi, rest), insn, f, stream) == Run(c.pb, rest, insn', f, stream)
    ensures Ready(c, insn', Max(fetched, end), stream)
    ensures Indexed(c, Max(fetched, end), Advanced(c, fetched, end, fi))
  {
    insn' := insn;
    if c.Funnels() && fetched < end {
      FunnelsRun(insn, fetched, end, stream, f, c.pb);
      insn' := RunFunnels(c.pb, FunnelOps(fetched, end, fi), insn, f).value;
    }
  }

  /**
   What the emitted code must come to: the outcome of the lookup, without a word outside the
   array touched or an incomplete one read, and with the funnel invariant at the end.
   */
  ghost predicate Refines(c: Config, ran: Ran, expected: Outcome, stream: Word, fetched: nat) {
    ran.Ran? && ran.outcome == Reported(c, expected) && Ready(c, ran.insn, FetchedFor(c, expected, fetched), stream)
  }

  lemma EntryRefines(c: Config, instr: Instr, insn: seq<Word>, fetched: nat, fi: nat, stream: Word, f: seq<Word>)
    requires Ready(c, insn, fetched, stream) && StreamOk(c, stream, f) && Indexed(c, fetched, fi)
    requires instr.fetchWidth <= 32 * c.n
    ensures Refines(c, Run(c.pb, EmitEntry(c, instr, fetched, fi), insn, f, stream), Found(instr), stream, fetched)
  {
    var insn' := FetchingReady(c, insn, fetched, NumWords(c, instr.fetchWidth), fi, Enter(instr), stream, f);
  }

  /**
   The emitted code refines tree lookup.  Run on any instruction stream, the nested switches
   reach the leaf, default table, default instruction or miss that applying the full-width
   masks of the tree reaches; no word outside the array is touched, and every switch reads a
   completed word.
   */
  lemma {:induction false} EmitRefines(c: Config, t: Tree, insn: seq<Word>, fetched: nat, fi: nat,
                                       stream: Word, f: seq<Word>)
    requires Ready(c, insn, fetched, stream) && StreamOk(c, stream, f) && Indexed(c, fetched, fi)
    requires TreeOk(t, c.n) && 0 < c.n && 0 < fetched
    ensures
      var w := Slice(stream, 0, 32 * c.n);
      Refines(c, Run(c.pb, Emit(c, t, fetched, fi), insn, f, stream), Lookup(t, w), stream, FetchedAt(c, t, w, fetched))
    decreases t
  {
    if t.kids.NoKid? {
      if t.instr.Some? {
        EntryRefines(c, t.instr.value, insn, fetched, fi, stream, f);
      }
    } else {
      var index, need := LastWord(t.mask, c.n), Required(t.mask, c.n);
      var fetched', fi' := Max(fetched, need), Advanced(c, fetched, need, fi);
      var code := Switch(index, WordAt(t.mask, index), EmitCases(c, t.kids, index, fetched', fi'),
                         EmitDefault(c, t, fetched', fi'));
      LastWordBounds(t.mask, c.n);
      var insn' := FetchingReady(c, insn, fetched, need, fi, code, stream, f);
      SwitchReads(c, t.mask, insn', fetched', stream);
      CasesRefine(c, t.kids, t.mask, insn', fetched', fi', stream, f);
      DefaultRefines(c, t, insn', fetched', fi', stream, f);
    }
  }

  /** The word a switch looks at is the instruction's. */
  lemma SwitchReads(c: Config, mask: Word, insn: seq<Word>, fetched: nat, stream: Word)
    requires Ready(c, insn, fetched, stream) && 0 < c.n && |mask| == 32 * c.n
    requires 0 < fetched && Required(mask, c.n) <= fetched
    ensures
      var index := LastWord(mask, c.n);
      index < |insn| && insn[index] == WordAt(stream, index) == WordAt(Slice(stream, 0, 32 * c.n), index)
  {
    var index := LastWord(mask, c.n);
    LastWordBounds(mask, c.n);
    if IsZero(mask) {
      ZeroByWords(mask, c.n);
      NoLastWord(mask, c.n);
    }
    assert insn[index] == WordAt(stream, index);
    assert WordAt(Slice(stream, 0, 32 * c.n), index) == WordAt(stream, index);
  }

  lemma {:induction false} CasesRefine(c: Config, kids: Kids, mask: Word, insn: seq<Word>, fetched: nat, fi: nat,
                                       stream: Word, f: seq<Word>)
    requires Ready(c, insn, fetched, stream) && StreamOk(c, stream, f) && Indexed(c, fetched, fi)
    requires 0 < c.n && 0 < fetched && OneWord(mask, c.n) && KeysOk(kids, mask) && KidsOk(kids, c.n)
    requires LastWord(mask, c.n) < |insn|
    requires insn[LastWord(mask, c.n)] == WordAt(Slice(stream, 0, 32 * c.n), LastWord(mask, c.n))
    ensures
      var (w, index) := (Slice(stream, 0, 32 * c.n), LastWord(mask, c.n));
      var ran := RunCases(c.pb, EmitCases(c, kids, index, fetched, fi), And(insn[index], WordAt(mask, index)), insn, f, stream);
      var found := LookupIn(kids, And(w, mask), w);
      var at := FetchedIn(c, kids, And(w, mask), w, fetched);
      && (ran.Some? <==> found.Some?) && (at.Some? <==> found.Some?)
      && (ran.Some? ==> Refines(c, ran.value, found.value, stream, at.value))
    decreases kids
  {
    if kids.Kid? {
      CaseIsKey(Slice(stream, 0, 32 * c.n), mask, kids.key, c.n);
      EmitRefines(c, kids.sub, insn, fetched, fi, stream, f);
      CasesRefine(c, kids.more, mask, insn, fetched, fi, stream, f);
    }
  }

  lemma {:induction false} DefaultRefines(c: Config, t: Tree, insn: seq<Word>, fetched: nat, fi: nat,
                                          stream: Word, f: seq<Word>)
    requires Ready(c, insn, fetched, stream) && StreamOk(c, stream, f) && Indexed(c, fetched, fi)
    requires TreeOk(t, c.n) && 0 < c.n && 0 < fetched
    ensures
      var w := Slice(stream, 0, 32 * c.n);
      Refines(c, Run(c.pb, EmitDefault(c, t, fetched, fi), insn, f, stream), LookupOther(t, w), stream,
              FetchedOther(c, t, w, fetched))
    decreases t, 0
  {
    match t.other {
      case Table(d) => EmitRefines(c, d, insn, fetched, fi, stream, f);
      case NoTable =>
        if t.instr.Some? {
          EntryRefines(c, t.instr.value, insn, fetched, fi, stream, f);
        }
    }
  }

  // ----- the fetch index -----

  /** Every funnel step takes the fetched word of its own number. */
  ghost predicate InStep(code: Code)
    decreases code
  {
    match code
    case Fetch(ops, rest) => (forall k :: 0 <= k < |ops| ==> ops[k].src == ops[k].i) && InStep(rest)
    case Switch(_, _, cases, default) => CasesInStep(cases) && InStep(default)
    case _ => true
  }

  ghost predicate CasesInStep(cases: Cases)
    decreases cases
  {
    cases.Case? ==> InStep(cases.body) && CasesInStep(cases.more)
  }

  /** On every path the fetch index is the number of fetched words. */
  lemma {:induction false} EmitInStep(c: Config, t: Tree, fetched: nat, fi: nat)
    requires Indexed(c, fetched, fi)
    ensures InStep(Emit(c, t, fetched, fi))
    decreases t, 1
  {
    if t.kids.Kid? {
      var need := Required(t.mask, c.n);
      CasesEmitInStep(c, t.kids, LastWord(t.mask, c.n), Max(fetched, need), Advanced(c, fetched, need, fi));
      DefaultInStep(c, t, Max(fetched, need), Advanced(c, fetched, need, fi));
    }
  }

  lemma {:induction false} DefaultInStep(c: Config, t: Tree, fetched: nat, fi: nat)
    requires Indexed(c, fetched, fi)
    ensures InStep(EmitDefault(c, t, fetched, fi))
    decreases t, 0
  {
    if t.other.Table? {
      EmitInStep(c, t.other.t, fetched, fi);
    }
  }

  lemma {:induction false} CasesEmitInStep(c: Config, kids: Kids, index: nat, fetched: nat, fi: nat)
    requires Indexed(c, fetched, fi)
    ensures CasesInStep(EmitCases(c, kids, index, fetched, fi))
    decreases kids
  {
    if kids.Kid? {
      EmitInStep(c, kids.sub, fetched, fi);
      CasesEmitInStep(c, kids.more, index, fetched, fi);
    }
  }

  // ----- the bits of the instruction on entry -----

  /** The first `m` bits of the stream can be read from `insn`. */
  ghost predicate BitsReady(insn: seq<Word>, stream: Word, m: nat) {
    forall j, i :: 0 <= j && 0 <= i < 32 && 32 * j + i < m ==>
      j < |insn| && i < |insn[j]| && insn[j][i] == WordAt(stream, j)[i]
  }

  /** The bits of an instruction: those it fetches, after the prefix bits. */
  function Extent(c: Config, i: Instr): nat { i.fetchWidth + if c.Funnels() then c.pb else 0 }

  /**
   The words an entry fetches hold all bits of the instruction.  The generator takes the prefix
   bits off a width that does not include them, so that the last few bits can be missing.
   */
  predicate AllFetched(c: Config, i: Instr, fetched: nat) {
    !c.Funnels() || i.fetchWidth <= 32 * fetched || i.fetchWidth % 32 == 0 || i.fetchWidth % 32 > c.pb
  }

  lemma WordsSuffice(c: Config, i: Instr, fetched: nat)
    requires c.Funnels() && c.pb < 32
    ensures i.fetchWidth <= 32 * Max(fetched, NumWords(c, i.fetchWidth)) <==> AllFetched(c, i, fetched)
  {
    var q, r := i.fetchWidth / 32, i.fetchWidth % 32;
    assert i.fetchWidth == 32 * q + r;
    assert NumWords(c, i.fetchWidth) == if r > c.pb then q + 1 else q;
  }

  lemma ReadyBits(c: Config, insn: seq<Word>, m: nat, stream: Word, bits: nat)
    requires Ready(c, insn, m, stream) && bits <= 32 * c.n
    requires c.Funnels() ==> bits <= 32 * m + c.pb
    ensures BitsReady(insn, stream, bits)
  {
    forall j, i | 0 <= j && 0 <= i < 32 && 32 * j + i < bits
      ensures j < |insn| && i < |insn[j]| && insn[j][i] == WordAt(stream, j)[i]
    {
      if c.Funnels() && j >= m {
        assert j == m && i < c.pb;
      }
    }
  }

  /** One run: whether the bits are there, and a bit that is missing otherwise. */
  lemma EntryBits(c: Config, insn: seq<Word>, i: Instr, fetched: nat, stream: Word)
    requires Ready(c, insn, FetchedFor(c, Found(i), fetched), stream) && Extent(c, i) <= 32 * c.n
    ensures AllFetched(c, i, fetched) ==> BitsReady(insn, stream, Extent(c, i))
    ensures
      var m := FetchedFor(c, Found(i), fetched);
      !AllFetched(c, i, fetched) ==>
        m < c.n && c.pb < 32 && (WordAt(stream, m)[c.pb] ==> !BitsReady(insn, stream, Extent(c, i)))
  {
    var m := FetchedFor(c, Found(i), fetched);
    if c.Funnels() { WordsSuffice(c, i, fetched); }
    if AllFetched(c, i, fetched) {
      ReadyBits(c, insn, m, stream, Extent(c, i));
    } else if WordAt(stream, m)[c.pb] {
      assert 32 * m + c.pb < Extent(c, i);
      assert insn[m][c.pb] != WordAt(stream, m)[c.pb];
    }
  }

  /** Exactly when every bit of an instruction is there on entry, whatever the stream. */
  lemma EntryBitsIff(c: Config, i: Instr, fetched: nat)
    requires c.Funnels() && c.pb < 32 && Extent(c, i) <= 32 * c.n && fetched <= c.n
    ensures
      (forall insn: seq<Word>, stream: Word | Ready(c, insn, FetchedFor(c, Found(i), fetched), stream) ::
         BitsReady(insn, stream, Extent(c, i)))
      <==> AllFetched(c, i, fetched)
  {
    var m := FetchedFor(c, Found(i), fetched);
    if AllFetched(c, i, fetched) {
      forall insn: seq<Word>, stream: Word | Ready(c, insn, m, stream)
        ensures BitsReady(insn, stream, Extent(c, i))
      {
        EntryBits(c, insn, i, fetched, stream);
      }
    } else {
      var insn, stream := ShortOf(c, m);
      EntryBits(c, insn, i, fetched, stream);
    }
  }

  /** A stream of ones of which `m` words are fetched. */
  lemma ShortOf(c: Config, m: nat) returns (insn: seq<Word>, stream: Word)
    requires c.Funnels() && c.pb < 32
    ensures m < c.n ==> Ready(c, insn, m, stream) && WordAt(stream, m)[c.pb]
  {
    stream := Ones(32 * c.n);
    var part := TopBits(Ones(32), c.pb);
    insn := seq(c.n + 1, j => if j == m then part else Ones(32));
    if m < c.n {
      forall j | 0 <= j <= m
        ensures WordAt(stream, j) == Ones(32)
      {
      }
    }
  }

  // ----- case labels -----

  ghost predicate TagsDistinct(cases: Cases, seen: set<Word>) {
    match cases
    case NoCase => true
    case Case(l, _, more) => l !in seen && TagsDistinct(more, seen + {l})
  }

  ghost predicate NoDuplicateTags(code: Code)
    decreases code
  {
    match code
    case Fetch(_, rest) => NoDuplicateTags(rest)
    case Switch(_, _, cases, default) => TagsDistinct(cases, {}) && CasesNoDuplicates(cases) && NoDuplicateTags(default)
    case _ => true
  }

  ghost predicate CasesNoDuplicates(cases: Cases)
    decreases cases
  {
    cases.Case? ==> NoDuplicateTags(cases.body) && CasesNoDuplicates(cases.more)
  }

  /** No switch that is emitted has the same case label twice. */
  lemma {:induction false} EmitNoDuplicateTags(c: Config, t: Tree, fetched: nat, fi: nat)
    requires TreeOk(t, c.n) && 0 < c.n
    ensures NoDuplicateTags(Emit(c, t, fetched, fi))
    decreases t, 1
  {
    if t.kids.Kid? {
      var need := Required(t.mask, c.n);
      var f, fi' := Max(fetched, need), Advanced(c, fetched, need, fi);
      KeysTagsDistinct(c, t.kids, t.mask, {}, {}, f, fi');
      CasesNoDuplicateTags(c, t.kids, LastWord(t.mask, c.n), f, fi');
      DefaultNoDuplicateTags(c, t, f, fi');
    }
  }

  lemma {:induction false} DefaultNoDuplicateTags(c: Config, t: Tree, fetched: nat, fi: nat)
    requires TreeOk(t, c.n) && 0 < c.n
    ensures NoDuplicateTags(EmitDefault(c, t, fetched, fi))
    decreases t, 0
  {
    if t.other.Table? {
      EmitNoDuplicateTags(c, t.other.t, fetched, fi);
    }
  }

  lemma {:induction false} CasesNoDuplicateTags(c: Config, kids: Kids, index: nat, fetched: nat, fi: nat)
    requires KidsOk(kids, c.n) && 0 < c.n
    ensures CasesNoDuplicates(EmitCases(c, kids, index, fetched, fi))
    decreases kids
  {
    if kids.Kid? {
      EmitNoDuplicateTags(c, kids.sub, fetched, fi);
      CasesNoDuplicateTags(c, kids.more, index, fetched, fi);
    }
  }

  /** Keys that differ, differ in the word the switch looks at. */
  lemma {:induction false} KeysTagsDistinct(c: Config, kids: Kids, mask: Word, keys: set<Word>, seen: set<Word>,
                                            fetched: nat, fi: nat)
    requires 0 < c.n && OneWord(mask, c.n) && KeysOk(kids, mask)
    requires keys !! Keys(kids) && forall k :: k in keys ==> Within(k, mask)
    requires forall l :: l in seen ==> exists k :: k in keys && l == WordAt(k, LastWord(mask, c.n))
    ensures TagsDistinct(EmitCases(c, kids, LastWord(mask, c.n), fetched, fi), seen)
    decreases kids
  {
    if kids.Kid? {
      var i := LastWord(mask, c.n);
      var l := WordAt(kids.key, i);
      if l in seen {
        var k :| k in keys && l == WordAt(k, i);
        assert k == kids.key by {
          SameWords(k, kids.key, mask, c.n, i);
        }
        assert false;
      }
      KeysTagsDistinct(c, kids.more, mask, keys + {kids.key}, seen + {l}, fetched, fi);
    }
  }

  lemma SameWords(a: Word, b: Word, mask: Word, n: nat, i: nat)
    requires |mask| == 32 * n && OnlyWord(mask, n, i) && Within(a, mask) && Within(b, mask)
    requires WordAt(a, i) == WordAt(b, i)
    ensures a == b
  {
    forall k | 0 <= k < |a|
      ensures a[k] == b[k]
    {
      SameInWord(a, b, mask, n, i, k);
    }
  }
}
