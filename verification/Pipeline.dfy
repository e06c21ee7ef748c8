/**
 The two execution loops of the transactional driver: one instruction at a time, and a
 three-stage pipeline without forwarding or hazard logic.

 The fetch stream is given: what each call of fetch returns while the core is active, with
 None for a call that returns no packet.  Memory traffic is not part of this model.
 */
module Pipeline {
  import opened Basics

  type Reg = nat
  type Regs = map<Reg, int>
  type Faults = set<nat>

  /** What an instruction does: the registers it reads, and what it makes of their values. */
  datatype Instr = Instr(srcs: set<Reg>, readFaults: Regs -> Faults, compute: Regs -> Regs, execFaults: Regs -> Faults)

  /** An instruction in flight, with its exception state, operand values and results. */
  datatype Packet = Packet(instr: Instr, exdata: Faults, operands: Regs, results: Regs)

  /** How the core handles the exceptions of a packet: the registers it then sets. */
  type Handler = (Faults, Regs) -> Regs

  /** A fetched packet: the instruction and the core's exception state at the fetch. */
  datatype Fetched = Fetched(instr: Instr, exdata: Faults)

  type Stream = seq<Option<Fetched>>

  // ----- the stages -----

  function Issue(f: Fetched): Packet { Packet(f.instr, f.exdata, map[], map[]) }

  function Restrict(regs: Regs, srcs: set<Reg>): Regs { map r | r in regs && r in srcs :: regs[r] }

  function ReadOperands(p: Packet, regs: Regs): Packet {
    var ops := Restrict(regs, p.instr.srcs);
    p.(operands := ops, exdata := p.exdata + p.instr.readFaults(ops))
  }

  function Execute(p: Packet): Packet {
    p.(results := p.instr.compute(p.operands), exdata := p.exdata + p.instr.execFaults(p.operands))
  }

  /** Results first, then the exceptions of the packet. */
  function Commit(h: Handler, p: Packet, regs: Regs): Regs {
    var done := regs + p.results;
    if p.exdata == {} then done else done + h(p.exdata, done)
  }

  predicate Faultless(p: Packet) { p.exdata == {} }

  /** The pipeline executes a packet that has no exceptions. */
  function ExecutePiped(p: Packet): Packet { if Faultless(p) then Execute(p) else p }

  /** The sequential loop executes a packet whose exception state the operand read left alone. */
  function ExecuteSequential(p: Packet, before: Faults): Packet { if p.exdata == before then Execute(p) else p }

  // ----- sequential execution: non_pipelined_exec -----

  /** The packet of slot `f`, complete, when its operands are read from `regs`. */
  function Completed(f: Fetched, regs: Regs): Packet { ExecuteSequential(ReadOperands(Issue(f), regs), f.exdata) }

  function Sequential(h: Handler, s: Stream, regs: Regs): Regs {
    if s == [] then regs
    else
      var (before, last) := (Sequential(h, s[..|s| - 1], regs), s[|s| - 1]);
      if last.None? then before else Commit(h, Completed(last.value, before), before)
  }

  method NonPipelinedExec(h: Handler, s: Stream, initial: Regs) returns (regs: Regs)
    ensures regs == Sequential(h, s, initial)
  {
    regs := initial;
    for i := 0 to |s|
      invariant regs == Sequential(h, s[..i], initial)
    {
      assert s[..i + 1][..i] == s[..i];
      if s[i].Some? {
        var x := Issue(s[i].value);
        var ed := x.exdata;
        x := ReadOperands(x, regs);
        if x.exdata == ed {
          x := Execute(x);
        }
        regs := Commit(h, x, regs);
      }
    }
    assert s[..|s|] == s;
  }

  // ----- pipelined execution: pipelined_exec -----

  /** The element of the stream at slot `i`; nothing before it starts and after it ends. */
  function At(s: Stream, i: int): Option<Fetched> { if 0 <= i < |s| then s[i] else None }

  /**
   Registers once the first `k` slots are committed, when the operands of every slot are read
   as they were before the slot in front of it was committed.
   */
  function Delayed(h: Handler, s: Stream, regs: Regs, k: int): Regs
    decreases if k < 0 then 0 else k
  {
    if k <= 0 then regs
    else
      var before := Delayed(h, s, regs, k - 1);
      match At(s, k - 1)
      case None => before
      case Some(f) => Commit(h, ExecutePiped(ReadOperands(Issue(f), Delayed(h, s, regs, k - 2))), before)
  }

  function ReadStage(h: Handler, s: Stream, regs: Regs, i: int): Option<Packet> {
    match At(s, i)
    case None => None
    case Some(f) => Some(ReadOperands(Issue(f), Delayed(h, s, regs, i - 1)))
  }

  function ExecStage(h: Handler, s: Stream, regs: Regs, i: int): Option<Packet> {
    match ReadStage(h, s, regs, i)
    case None => None
    case Some(p) => Some(ExecutePiped(p))
  }

  function FetchStage(s: Stream, i: int): Option<Packet> {
    match At(s, i)
    case None => None
    case Some(f) => Some(Issue(f))
  }

  function Count(p: Option<Packet>): nat { if p.Some? then 1 else 0 }

  /** The slots of the stream that hold a packet, in order. */
  function Slots(s: Stream, k: int): seq<int>
    decreases if k < 0 then 0 else k
  {
    if k <= 0 then [] else if At(s, k - 1).Some? then Slots(s, k - 1) + [k - 1] else Slots(s, k - 1)
  }

  const FETCH := 0
  const READ := 1
  const EXEC := 2

  /** After `t` iterations: slot t-1 is fetched, t-2 has read, t-3 has executed, the rest is committed. */
  ghost predicate InStep(h: Handler, s: Stream, initial: Regs, t: nat, regs: Regs,
                         f: Option<Packet>, r: Option<Packet>, x: Option<Packet>,
                         readLog: seq<int>, commitLog: seq<int>) {
    && regs == Delayed(h, s, initial, t - 3)
    && f == FetchStage(s, t - 1) && r == ReadStage(h, s, initial, t - 2) && x == ExecStage(h, s, initial, t - 3)
    && readLog == Slots(s, t - 1) && commitLog == Slots(s, t - 3)
  }

  function Executed(r: Option<Packet>): Option<Packet> { if r.Some? then Some(ExecutePiped(r.value)) else None }

  function HasRead(f: Option<Packet>, regs: Regs): Option<Packet> {
    if f.Some? then Some(ReadOperands(f.value, regs)) else None
  }

  function Log(log: seq<int>, p: Option<Packet>, slot: int): seq<int> { if p.Some? then log + [slot] else log }

  /** One iteration moves every slot one stage on. */
  lemma StepForward(h: Handler, s: Stream, initial: Regs, t: nat, regs: Regs,
                    f: Option<Packet>, r: Option<Packet>, x: Option<Packet>, readLog: seq<int>, commitLog: seq<int>)
    requires InStep(h, s, initial, t, regs, f, r, x, readLog, commitLog)
    ensures
      var newRegs := Committed(h, x, regs);
      InStep(h, s, initial, t + 1, newRegs, FetchStage(s, t), HasRead(f, newRegs), Executed(r),
             Log(readLog, f, t - 1), Log(commitLog, x, t - 3))
  {
    CommitStep(h, s, initial, t - 3);
  }

  function Occupied(f: Option<Packet>, r: Option<Packet>, x: Option<Packet>): int { Count(f) + Count(r) + Count(x) }

  /** Iterations that the packets in flight still need, at most. */
  function StagesLeft(f: Option<Packet>, r: Option<Packet>, x: Option<Packet>): nat {
    3 * Count(f) + 2 * Count(r) + Count(x)
  }

  lemma MoveOn(f: Option<Packet>, r: Option<Packet>, x: Option<Packet>, regs: Regs)
    ensures Occupied(None, HasRead(f, regs), Executed(r)) == Occupied(f, r, x) - Count(x)
    ensures Occupied(f, r, x) != 0 ==> StagesLeft(None, HasRead(f, regs), Executed(r)) < StagesLeft(f, r, x)
  {
  }

  lemma CommitStep(h: Handler, s: Stream, initial: Regs, k: int)
    ensures Committed(h, ExecStage(h, s, initial, k), Delayed(h, s, initial, k)) == Delayed(h, s, initial, k + 1)
    ensures Log(Slots(s, k), ExecStage(h, s, initial, k), k) == Slots(s, k + 1)
  {
  }

  function Committed(h: Handler, x: Option<Packet>, regs: Regs): Regs {
    if x.Some? then Commit(h, x.value, regs) else regs
  }

  /** One iteration: commit, execute, read operands, take the next fetched packet. */
  method Cycle(h: Handler, stages: array<Option<Packet>>, regs: Regs, outstanding: int, next: Option<Packet>)
    returns (newRegs: Regs, nowOutstanding: int)
    requires stages.Length == 3
    modifies stages
    ensures newRegs == Committed(h, old(stages[EXEC]), regs)
    ensures stages[EXEC] == Executed(old(stages[READ]))
    ensures stages[READ] == HasRead(old(stages[FETCH]), newRegs)
    ensures stages[FETCH] == next
    ensures nowOutstanding == outstanding - Count(old(stages[EXEC])) + Count(next)
  {
    newRegs, nowOutstanding := regs, outstanding;
    if stages[EXEC].Some? {
      newRegs := Commit(h, stages[EXEC].value, regs);
      stages[EXEC] := None;
      nowOutstanding := nowOutstanding - 1;
    }
    if stages[READ].Some? {
      stages[EXEC] := stages[READ];
      stages[READ] := None;
      // Not executed if there are exceptions already.
      if Faultless(stages[EXEC].value) {
        stages[EXEC] := Some(Execute(stages[EXEC].value));
      }
    }
    if stages[FETCH].Some? {
      stages[READ] := stages[FETCH];
      stages[FETCH] := None;
      stages[READ] := Some(ReadOperands(stages[READ].value, newRegs));
    }
    stages[FETCH] := next;
    if stages[FETCH].Some? {
      nowOutstanding := nowOutstanding + 1;
    }
  }

  /** The loop invariant: the stages are in step, and the outstanding packets are the occupied stages. */
  ghost predicate Running(h: Handler, s: Stream, initial: Regs, t: nat, pos: nat, regs: Regs,
                          stages: array<Option<Packet>>, outstanding: int, readLog: seq<int>, commitLog: seq<int>)
    reads stages
  {
    && stages.Length == 3 && pos <= |s| && pos <= t && (pos < |s| ==> t == pos)
    && outstanding == Occupied(stages[FETCH], stages[READ], stages[EXEC])
    && InStep(h, s, initial, t, regs, stages[FETCH], stages[READ], stages[EXEC], readLog, commitLog)
  }

  method PipelinedExec(h: Handler, s: Stream, initial: Regs)
    returns (regs: Regs, ghost readLog: seq<int>, ghost commitLog: seq<int>)
    ensures regs == Delayed(h, s, initial, |s|)
    ensures readLog == Slots(s, |s|) && commitLog == Slots(s, |s|)
  {
    var stages := new Option<Packet>[3](_ => None);
    Begin(h, s, initial);
    regs, readLog, commitLog := Loop(h, s, initial, stages);
  }

  method Loop(h: Handler, s: Stream, initial: Regs, stages: array<Option<Packet>>)
    returns (regs: Regs, ghost readLog: seq<int>, ghost commitLog: seq<int>)
    requires Running(h, s, initial, 0, 0, initial, stages, 0, [], [])
    modifies stages
    ensures regs == Delayed(h, s, initial, |s|)
    ensures readLog == Slots(s, |s|) && commitLog == Slots(s, |s|)
  {
    regs, readLog, commitLog := initial, [], [];
    var pos: nat, outstanding := 0, 0;
    ghost var t: nat := 0;
    while pos < |s| || outstanding != 0
      invariant Running(h, s, initial, t, pos, regs, stages, outstanding, readLog, commitLog)
      decreases |s| - pos, StagesLeft(stages[FETCH], stages[READ], stages[EXEC])
    {
      pos, regs, outstanding, readLog, commitLog :=
        Iterate(h, s, initial, t, pos, regs, stages, outstanding, readLog, commitLog);
      t := t + 1;
    }
    Drained(h, s, initial, t, regs, readLog, commitLog);
  }

  /** The loop body: fetch() returns the next packet of the stream, and none once it is over. */
  method Iterate(h: Handler, s: Stream, ghost initial: Regs, ghost t: nat, pos: nat, regs: Regs,
                 stages: array<Option<Packet>>, outstanding: int, ghost readLog: seq<int>, ghost commitLog: seq<int>)
    returns (nextPos: nat, newRegs: Regs, nowOutstanding: int, ghost newReadLog: seq<int>, ghost newCommitLog: seq<int>)
    requires Running(h, s, initial, t, pos, regs, stages, outstanding, readLog, commitLog)
    requires pos < |s| || outstanding != 0
    modifies stages
    ensures Running(h, s, initial, t + 1, nextPos, newRegs, stages, nowOutstanding, newReadLog, newCommitLog)
    ensures nextPos == if pos < |s| then pos + 1 else pos
    ensures pos == |s| ==>
              StagesLeft(stages[FETCH], stages[READ], stages[EXEC]) < old(StagesLeft(stages[FETCH], stages[READ], stages[EXEC]))
  {
    StepForward(h, s, initial, t, regs, stages[FETCH], stages[READ], stages[EXEC], readLog, commitLog);
    MoveOn(stages[FETCH], stages[READ], stages[EXEC], Committed(h, stages[EXEC], regs));
    newCommitLog := Log(commitLog, stages[EXEC], t - 3);
    newReadLog := Log(readLog, stages[FETCH], t - 1);
    assert FetchStage(s, pos) == FetchStage(s, t);
    newRegs, nowOutstanding := Cycle(h, stages, regs, outstanding, FetchStage(s, pos));
    nextPos := if pos < |s| then pos + 1 else pos;
  }

  /** Empty slots change nothing. */
  lemma {:induction false} EmptySlots(h: Handler, s: Stream, initial: Regs, j: int, k: int)
    requires j <= k && forall i :: j <= i < k ==> At(s, i).None?
    ensures Delayed(h, s, initial, j) == Delayed(h, s, initial, k) && Slots(s, j) == Slots(s, k)
    decreases k - j
  {
    if j < k {
      EmptySlots(h, s, initial, j, k - 1);
    }
  }

  lemma Begin(h: Handler, s: Stream, initial: Regs)
    ensures InStep(h, s, initial, 0, initial, None, None, None, [], [])
  {
  }

  lemma Drained(h: Handler, s: Stream, initial: Regs, t: nat, regs: Regs, readLog: seq<int>, commitLog: seq<int>)
    requires |s| <= t && InStep(h, s, initial, t, regs, None, None, None, readLog, commitLog)
    ensures regs == Delayed(h, s, initial, |s|)
    ensures readLog == Slots(s, |s|) && commitLog == Slots(s, |s|)
  {
    assert At(s, t - 1).None? && At(s, t - 2).None? && At(s, t - 3).None?;
    EmptySlots(h, s, initial, t - 3, t);
    EmptySlots(h, s, initial, |s|, t);
    EmptySlots(h, s, initial, t - 1, t);
  }

  // ----- when the pipeline does what the sequential loop does -----

  /** The two loops decide alike whether to execute a packet that has read its operands from `regs`. */
  ghost predicate SkipsAlike(f: Fetched, regs: Regs) {
    f.exdata == {} || !(f.instr.readFaults(Restrict(regs, f.instr.srcs)) <= f.exdata)
  }

  /**
   The decisions differ exactly when the packet was fetched with an exception pending and the
   operand read adds no new one: then only the sequential loop executes it.
   */
  lemma SkipDecisions(f: Fetched, regs: Regs)
    ensures
      var p := ReadOperands(Issue(f), regs);
      (Faultless(p) <==> p.exdata == f.exdata) <==> SkipsAlike(f, regs)
  {
  }

  /** The registers a packet sets when it is committed to `regs`. */
  ghost function Written(h: Handler, p: Packet, regs: Regs): set<Reg> {
    p.results.Keys + if p.exdata == {} then {} else h(p.exdata, regs + p.results).Keys
  }

  /** Reading is blind to a commit that sets none of the registers read. */
  lemma ReadAcrossCommit(h: Handler, f: Fetched, p: Packet, regs: Regs)
    requires f.instr.srcs !! Written(h, p, regs)
    ensures ReadOperands(Issue(f), Commit(h, p, regs)) == ReadOperands(Issue(f), regs)
  {
    assert Restrict(Commit(h, p, regs), f.instr.srcs) == Restrict(regs, f.instr.srcs);
  }

  /** Slot `k` reads no register that the slot in front of it sets. */
  ghost predicate NoHazardAt(h: Handler, s: Stream, initial: Regs, k: nat)
    requires k < |s|
  {
    k > 0 && s[k].Some? && s[k - 1].Some? ==>
      var before := Sequential(h, s[..k - 1], initial);
      s[k].value.instr.srcs !! Written(h, Completed(s[k - 1].value, before), before)
  }

  ghost predicate HazardFree(h: Handler, s: Stream, initial: Regs) {
    forall k :: 0 <= k < |s| ==>
      && NoHazardAt(h, s, initial, k)
      && (s[k].Some? ==> SkipsAlike(s[k].value, Sequential(h, s[..k], initial)))
  }

  /** Slot `k` reads the same operands in both loops. */
  lemma SameRead(h: Handler, s: Stream, initial: Regs, k: nat)
    requires k < |s| && s[k].Some? && NoHazardAt(h, s, initial, k)
    ensures ReadOperands(Issue(s[k].value), Sequential(h, s[..k], initial))
            == ReadOperands(Issue(s[k].value), Sequential(h, s[..if k > 0 then k - 1 else 0], initial))
  {
    if k > 0 {
      assert s[..k][..k - 1] == s[..k - 1];
      var before := Sequential(h, s[..k - 1], initial);
      if s[k - 1].Some? {
        ReadAcrossCommit(h, s[k].value, Completed(s[k - 1].value, before), before);
      }
    }
  }

  lemma SameCompletion(f: Fetched, regs: Regs)
    requires SkipsAlike(f, regs)
    ensures ExecutePiped(ReadOperands(Issue(f), regs)) == Completed(f, regs)
  {
    SkipDecisions(f, regs);
  }

  lemma {:induction false} DelayedIsSequential(h: Handler, s: Stream, initial: Regs, k: nat)
    requires k <= |s| && HazardFree(h, s, initial)
    ensures Delayed(h, s, initial, k) == Sequential(h, s[..k], initial)
  {
    if k > 0 {
      DelayedIsSequential(h, s, initial, k - 1);
      if k > 1 { DelayedIsSequential(h, s, initial, k - 2); }
      SlotAlike(h, s, initial, k - 1);
    }
  }

  /** If both loops agree up to a slot, they agree after it. */
  lemma SlotAlike(h: Handler, s: Stream, initial: Regs, k: nat)
    requires k < |s| && HazardFree(h, s, initial)
    requires Delayed(h, s, initial, k) == Sequential(h, s[..k], initial)
    requires k > 0 ==> Delayed(h, s, initial, k - 1) == Sequential(h, s[..k - 1], initial)
    ensures Delayed(h, s, initial, k + 1) == Sequential(h, s[..k + 1], initial)
  {
    var before := Sequential(h, s[..k], initial);
    assert s[..k + 1][..k] == s[..k];
    if s[k].Some? {
      assert NoHazardAt(h, s, initial, k);
      SameRead(h, s, initial, k);
      SameCompletion(s[k].value, before);
      assert s[..0] == [];
    }
  }

  /**
   Pipelined execution refines sequential execution: for every stream in which no packet reads
   a register set by its immediate predecessor and no packet with a pending exception is
   executed by one loop only, both end with the same registers.
   */
  lemma PipelineRefinesSequential(h: Handler, s: Stream, initial: Regs)
    requires HazardFree(h, s, initial)
    ensures Delayed(h, s, initial, |s|) == Sequential(h, s, initial)
  {
    DelayedIsSequential(h, s, initial, |s|);
    assert s[..|s|] == s;
  }

  // ----- one slot, told from its instruction -----

  /** The registers that are there and that the instruction reads. */
  ghost predicate AreOperands(ops: Regs, i: Instr, regs: Regs) {
    forall r :: (r in ops <==> r in regs && r in i.srcs) && (r in ops ==> ops[r] == regs[r])
  }

  lemma OperandsAre(ops: Regs, i: Instr, regs: Regs)
    requires AreOperands(ops, i, regs)
    ensures ops == Restrict(regs, i.srcs)
  {
  }

  /** The results are set first; exceptions, if there are any, are handled on top of them. */
  ghost predicate Ends(h: Handler, before: Regs, results: Regs, faults: Faults, after: Regs) {
    if faults == {} then after == before + results else after == Handled(h, faults, before + results)
  }

  lemma SequentialEnds(h: Handler, f: Fetched, ops: Regs, before: Regs)
    requires ops == Restrict(before, f.instr.srcs)
    ensures
      var (i, after) := (f.instr, Commit(h, Completed(f, before), before));
      var read := f.exdata + i.readFaults(ops);
      if read == f.exdata then Ends(h, before, i.compute(ops), read + i.execFaults(ops), after)
      else Ends(h, before, map[], read, after)
  {
    assert before + map[] == before;
  }

  lemma PipelinedEnds(h: Handler, f: Fetched, regs: Regs, ops: Regs, before: Regs)
    requires ops == Restrict(regs, f.instr.srcs)
    ensures
      var (i, after) := (f.instr, Commit(h, ExecutePiped(ReadOperands(Issue(f), regs)), before));
      var read := f.exdata + i.readFaults(ops);
      if read == {} then Ends(h, before, i.compute(ops), i.execFaults(ops), after)
      else Ends(h, before, map[], read, after)
  {
    assert {} + f.instr.execFaults(ops) == f.instr.execFaults(ops);
    assert before + map[] == before;
  }

  /** The sequential loop: the last packet reads what all others left, and is executed unless its reading adds an exception. */
  lemma SequentialSlot(h: Handler, s: Stream, f: Fetched, initial: Regs, ops: Regs)
    requires AreOperands(ops, f.instr, Sequential(h, s, initial))
    ensures
      var (i, before, after) := (f.instr, Sequential(h, s, initial), Sequential(h, s + [Some(f)], initial));
      var read := f.exdata + i.readFaults(ops);
      if read == f.exdata then Ends(h, before, i.compute(ops), read + i.execFaults(ops), after)
      else Ends(h, before, map[], read, after)
  {
    var t := s + [Some(f)];
    assert t[..|t| - 1] == s;
    OperandsAre(ops, f.instr, Sequential(h, s, initial));
    SequentialEnds(h, f, ops, Sequential(h, s, initial));
  }

  lemma {:induction false} DelayedPrefix(h: Handler, s: Stream, f: Option<Fetched>, initial: Regs, k: int)
    requires k <= |s|
    ensures Delayed(h, s + [f], initial, k) == Delayed(h, s, initial, k)
    decreases if k < 0 then 0 else k
  {
    if k > 0 {
      DelayedPrefix(h, s, f, initial, k - 1);
      DelayedPrefix(h, s, f, initial, k - 2);
    }
  }

  /** The pipeline: it reads what the slots up to the last but one left, and is executed only without exceptions. */
  lemma PipelinedSlot(h: Handler, s: Stream, f: Fetched, initial: Regs, ops: Regs)
    requires AreOperands(ops, f.instr, Delayed(h, s, initial, |s| - 1))
    ensures
      var (i, before, after) := (f.instr, Delayed(h, s, initial, |s|), Delayed(h, s + [Some(f)], initial, |s| + 1));
      var read := f.exdata + i.readFaults(ops);
      if read == {} then Ends(h, before, i.compute(ops), i.execFaults(ops), after)
      else Ends(h, before, map[], read, after)
  {
    DelayedPrefix(h, s, Some(f), initial, |s|);
    DelayedPrefix(h, s, Some(f), initial, |s| - 1);
    OperandsAre(ops, f.instr, Delayed(h, s, initial, |s| - 1));
    PipelinedEnds(h, f, Delayed(h, s, initial, |s| - 1), ops, Delayed(h, s, initial, |s|));
  }

  /** One packet alone, without exceptions up to its execution: both loops compute, and handle what execution raises. */
  lemma ExecutedAlone(h: Handler, i: Instr, regs: Regs)
    requires i.readFaults(Restrict(regs, i.srcs)) == {}
    ensures
      var (ops, s) := (Restrict(regs, i.srcs), [Some(Fetched(i, {}))]);
      var done := regs + i.compute(ops);
      && Sequential(h, s, regs) == Delayed(h, s, regs, 1)
      && Sequential(h, s, regs) ==
         if i.execFaults(ops) == {} then done else Handled(h, i.execFaults(ops), done)
  {
    var ops := Restrict(regs, i.srcs);
    assert [] + [Some(Fetched(i, {}))] == [Some(Fetched(i, {}))];
    SequentialSlot(h, [], Fetched(i, {}), regs, ops);
    PipelinedSlot(h, [], Fetched(i, {}), regs, ops);
  }

  /** With exceptions from reading, both compute nothing and handle those. */
  lemma SkippedAlone(h: Handler, i: Instr, regs: Regs)
    requires i.readFaults(Restrict(regs, i.srcs)) != {}
    ensures
      var (faults, s) := (i.readFaults(Restrict(regs, i.srcs)), [Some(Fetched(i, {}))]);
      Sequential(h, s, regs) == Delayed(h, s, regs, 1) == Handled(h, faults, regs)
  {
    var ops := Restrict(regs, i.srcs);
    assert [] + [Some(Fetched(i, {}))] == [Some(Fetched(i, {}))];
    SequentialSlot(h, [], Fetched(i, {}), regs, ops);
    PipelinedSlot(h, [], Fetched(i, {}), regs, ops);
    assert regs + map[] == regs && {} + i.readFaults(ops) == i.readFaults(ops);
  }

  // ----- what happens otherwise -----

  /** An instruction without exceptions of its own. */
  ghost predicate NeverFaults(i: Instr) {
    forall regs {:trigger i.readFaults(regs)} {:trigger i.execFaults(regs)} ::
      i.readFaults(regs) == {} && i.execFaults(regs) == {}
  }

  function Effect(i: Instr, regs: Regs): Regs { i.compute(Restrict(regs, i.srcs)) }

  lemma OnePacket(h: Handler, i: Instr, read: Regs, regs: Regs)
    requires NeverFaults(i)
    ensures
      var p := ReadOperands(Issue(Fetched(i, {})), read);
      && ExecutePiped(p) == Completed(Fetched(i, {}), read)
      && Commit(h, ExecutePiped(p), regs) == regs + Effect(i, read)
  {
  }

  /** Two packets without exceptions, one right behind the other. */
  lemma TwoPackets(h: Handler, a: Instr, b: Instr, initial: Regs, s: Stream, mid: Regs)
    requires NeverFaults(a) && NeverFaults(b) && mid == initial + Effect(a, initial)
    requires s == [Some(Fetched(a, {})), Some(Fetched(b, {}))]
    ensures Sequential(h, s, initial) == mid + Effect(b, mid)
    ensures Delayed(h, s, initial, 2) == mid + Effect(b, initial)
  {
    assert s[..1] == [s[0]] && s[..1][..0] == [];
    OnePacket(h, a, initial, initial);
    OnePacket(h, b, mid, mid);
    OnePacket(h, b, initial, mid);
    assert Sequential(h, s[..1], initial) == mid;
    assert Delayed(h, s, initial, 1) == mid;
  }

  /** Adds one to every register of the set. */
  function Writer(outs: set<Reg>, initial: Regs): Instr {
    Instr({}, (_: Regs) => {}, (_: Regs) => map w | w in outs :: (if w in initial then initial[w] else 0) + 1,
          (_: Regs) => {})
  }

  /** Reads the registers of the set and copies one of them. */
  function Reader(ins: set<Reg>, source: Reg, target: Reg): Instr {
    Instr(ins, (_: Regs) => {}, (ops: Regs) => map[target := if source in ops then ops[source] else 0], (_: Regs) => {})
  }

  /**
   Hazards are not a matter of the particular registers: whatever a packet reads and the one in front
   of it sets, if the two have a register in common there are instructions for which the loops differ.
   */
  lemma HazardBreaks(h: Handler, ins: set<Reg>, outs: set<Reg>, r: Reg, target: Reg, initial: Regs)
    requires r in ins && r in outs
    ensures
      var (a, b) := (Writer(outs, initial), Reader(ins, r, target));
      var s: Stream := [Some(Fetched(a, {})), Some(Fetched(b, {}))];
      && b.srcs == ins && Written(h, Completed(Fetched(a, {}), initial), initial) == outs
      && Sequential(h, s, initial) != Delayed(h, s, initial, |s|)
  {
    var a, b := Writer(outs, initial), Reader(ins, r, target);
    var s: Stream := [Some(Fetched(a, {})), Some(Fetched(b, {}))];
    var mid := initial + Effect(a, initial);
    TwoPackets(h, a, b, initial, s, mid);
    assert Effect(a, initial).Keys == outs;
    assert Effect(b, mid)[target] == mid[r] && Effect(b, initial)[target] != mid[r];
    assert (mid + Effect(b, mid))[target] != (mid + Effect(b, initial))[target];
  }

  /** A packet fetched with an exception pending is executed by the sequential loop only. */
  lemma SkipBreaks(h: Handler, pending: Faults, initial: Regs)
    requires pending != {}
    ensures
      var f := Fetched(Writer({0}, initial), pending);
      var value := (if 0 in initial then initial[0] else 0) + 1;
      && Sequential(h, [Some(f)], initial) == Handled(h, pending, initial[0 := value])
      && Delayed(h, [Some(f)], initial, 1) == Handled(h, pending, initial)
  {
    var f := Fetched(Writer({0}, initial), pending);
    var value := (if 0 in initial then initial[0] else 0) + 1;
    var s: Stream := [Some(f)];
    var p := ReadOperands(Issue(f), initial);
    assert s[..0] == [] && p.exdata == pending;
    assert initial + Effect(f.instr, initial) == initial[0 := value];
    assert initial + map[] == initial;
  }

  function NoHandling(x: Faults, regs: Regs): Regs { map[] }

  /** Hence the loops end differently when the exception changes nothing else. */
  lemma SkipDiffers(pending: Faults, initial: Regs)
    requires pending != {}
    ensures
      var s: Stream := [Some(Fetched(Writer({0}, initial), pending))];
      Sequential(NoHandling, s, initial) != Delayed(NoHandling, s, initial, |s|)
  {
    SkipBreaks(NoHandling, pending, initial);
    var value := (if 0 in initial then initial[0] else 0) + 1;
    assert initial[0 := value] + map[] == initial[0 := value] && initial + map[] == initial;
    assert 0 in initial ==> initial[0 := value][0] != initial[0];
  }

  /** The registers once the exceptions are handled. */
  function Handled(h: Handler, x: Faults, regs: Regs): Regs { regs + h(x, regs) }
}
