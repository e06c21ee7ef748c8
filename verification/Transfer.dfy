/**
 Inlining of sub-instructions: every field of an instruction that names a sub-instruction is
 replaced by that sub-instruction's own items, starting over after each replacement.
 */
module Transfer {
  import opened Basics

  /** A field that carries a name, or any other item of an encoding list. */
  datatype Kind = Plain(id: nat) | Named(name: string)
  datatype Item = Item(kind: Kind, sub: string)
  datatype SubInstr = SubInstr(items: seq<Item>, block: string)
  type Env = map<string, SubInstr>

  predicate IsRef(x: Item, env: Env) { x.kind.Named? && x.kind.name in env }

  function Retag(items: seq<Item>, sub: string): (r: seq<Item>)
    ensures |r| == |items| && forall i :: 0 <= i < |r| ==> r[i] == items[i].(sub := sub)
  {
    seq(|items|, i requires 0 <= i < |items| => items[i].(sub := sub))
  }

  /** The block test of one sub-instruction. */
  predicate Inconsistent(s: SubInstr, block: string) { s.block != "" && s.block != block }

  // ----- the reference: a walk through the references, in order -----

  /** How the walk ends: through, at a sub-instruction of another block, or back inside one it has not left. */
  datatype Verdict = Through | OtherBlock | Cyclic

  function Walk(items: seq<Item>, env: Env, block: string, path: set<string>): Verdict
    decreases env.Keys - path, 1, |items|
  {
    if items == [] then Through
    else
      var first := WalkOne(items[0], env, block, path);
      if first.Through? then Walk(items[1..], env, block, path) else first
  }

  function WalkOne(x: Item, env: Env, block: string, path: set<string>): Verdict
    decreases env.Keys - path, 0, 0
  {
    if !IsRef(x, env) then Through
    else if Inconsistent(env[x.kind.name], block) then OtherBlock
    else if x.kind.name in path then Cyclic
    else Deeper(env, path, x.kind.name); Walk(env[x.kind.name].items, env, block, path + {x.kind.name})
  }

  lemma Deeper(env: Env, path: set<string>, n: string)
    requires n in env && n !in path
    ensures env.Keys - (path + {n}) < env.Keys - path
  {
    assert n in env.Keys - path;
  }

  /** Every reference replaced by the inlining of what it names; the leaves take the outermost tag. */
  function Inline(items: seq<Item>, env: Env, path: set<string>): seq<Item>
    decreases env.Keys - path, 1, |items|
  {
    if items == [] then [] else InlineOne(items[0], env, path) + Inline(items[1..], env, path)
  }

  function InlineOne(x: Item, env: Env, path: set<string>): seq<Item>
    decreases env.Keys - path, 0, 0
  {
    if !IsRef(x, env) || x.kind.name in path then [x]
    else Deeper(env, path, x.kind.name); Retag(Inline(env[x.kind.name].items, env, path + {x.kind.name}), x.sub)
  }

  /** The references the walk goes into. */
  function Cost(items: seq<Item>, env: Env, block: string, path: set<string>): nat
    decreases env.Keys - path, 1, |items|
  {
    if items == [] then 0
    else
      CostOne(items[0], env, block, path) +
      if WalkOne(items[0], env, block, path).Through? then Cost(items[1..], env, block, path) else 0
  }

  function CostOne(x: Item, env: Env, block: string, path: set<string>): nat
    decreases env.Keys - path, 0, 0
  {
    if !IsRef(x, env) || Inconsistent(env[x.kind.name], block) || x.kind.name in path then 0
    else Deeper(env, path, x.kind.name); 1 + Cost(env[x.kind.name].items, env, block, path + {x.kind.name})
  }

  lemma {:induction false} WalkConcat(a: seq<Item>, b: seq<Item>, env: Env, block: string, path: set<string>)
    ensures
      var w := Walk(a, env, block, path);
      && Walk(a + b, env, block, path) == (if w.Through? then Walk(b, env, block, path) else w)
      && Cost(a + b, env, block, path) ==
         Cost(a, env, block, path) + if w.Through? then Cost(b, env, block, path) else 0
    decreases |a|
  {
    if a == [] {
      assert a + b == b;
    } else {
      assert (a + b)[0] == a[0] && (a + b)[1..] == a[1..] + b;
      WalkConcat(a[1..], b, env, block, path);
    }
  }

  lemma {:induction false} InlineConcat(a: seq<Item>, b: seq<Item>, env: Env, path: set<string>)
    ensures Inline(a + b, env, path) == Inline(a, env, path) + Inline(b, env, path)
    decreases |a|
  {
    if a == [] {
      assert a + b == b;
    } else {
      assert (a + b)[0] == a[0] && (a + b)[1..] == a[1..] + b;
      InlineConcat(a[1..], b, env, path);
    }
  }

  lemma {:induction false} WalkRetag(items: seq<Item>, s: string, env: Env, block: string, path: set<string>)
    ensures Walk(Retag(items, s), env, block, path) == Walk(items, env, block, path)
    ensures Cost(Retag(items, s), env, block, path) == Cost(items, env, block, path)
    decreases |items|
  {
    if items != [] {
      assert Retag(items, s)[1..] == Retag(items[1..], s);
      WalkRetag(items[1..], s, env, block, path);
    }
  }

  lemma RetagTwice(items: seq<Item>, s: string, t: string)
    ensures Retag(Retag(items, s), t) == Retag(items, t)
  {
  }

  lemma RetagConcat(a: seq<Item>, b: seq<Item>, s: string)
    ensures Retag(a + b, s) == Retag(a, s) + Retag(b, s)
  {
  }

  /** Retagging the items first or the leaves last is the same. */
  lemma {:induction false} InlineRetag(items: seq<Item>, s: string, env: Env, path: set<string>)
    ensures Inline(Retag(items, s), env, path) == Retag(Inline(items, env, path), s)
    decreases |items|
  {
    if items != [] {
      var x := items[0];
      assert Retag(items, s)[1..] == Retag(items[1..], s);
      InlineRetag(items[1..], s, env, path);
      RetagConcat(InlineOne(x, env, path), Inline(items[1..], env, path), s);
      OneRetag(x, s, env, path);
    }
  }

  lemma OneRetag(x: Item, s: string, env: Env, path: set<string>)
    ensures InlineOne(x.(sub := s), env, path) == Retag(InlineOne(x, env, path), s)
  {
    if IsRef(x, env) && x.kind.name !in path {
      RetagTwice(Inline(env[x.kind.name].items, env, path + {x.kind.name}), x.sub, s);
    }
  }

  /** A shorter path only takes cycles away. */
  ghost predicate SameWalk(items: seq<Item>, env: Env, block: string, p: set<string>, q: set<string>) {
    && Walk(items, env, block, p) == Walk(items, env, block, q)
    && Cost(items, env, block, p) == Cost(items, env, block, q)
    && (Walk(items, env, block, q).Through? ==> Inline(items, env, p) == Inline(items, env, q))
  }

  ghost predicate SameOne(x: Item, env: Env, block: string, p: set<string>, q: set<string>) {
    && WalkOne(x, env, block, p) == WalkOne(x, env, block, q)
    && CostOne(x, env, block, p) == CostOne(x, env, block, q)
    && (WalkOne(x, env, block, q).Through? ==> InlineOne(x, env, p) == InlineOne(x, env, q))
  }

  lemma {:induction false} WalkMonotone(items: seq<Item>, env: Env, block: string, p: set<string>, q: set<string>)
    requires p <= q && !Walk(items, env, block, q).Cyclic?
    ensures SameWalk(items, env, block, p, q)
    decreases env.Keys - q, 1, |items|
  {
    if items != [] {
      OneMonotone(items[0], env, block, p, q);
      if WalkOne(items[0], env, block, q).Through? {
        WalkMonotone(items[1..], env, block, p, q);
      }
    }
  }

  lemma {:induction false} OneMonotone(x: Item, env: Env, block: string, p: set<string>, q: set<string>)
    requires p <= q && !WalkOne(x, env, block, q).Cyclic?
    ensures SameOne(x, env, block, p, q)
    decreases env.Keys - q, 0, 0
  {
    if IsRef(x, env) && !Inconsistent(env[x.kind.name], block) {
      Deeper(env, q, x.kind.name);
      WalkMonotone(env[x.kind.name].items, env, block, p + {x.kind.name}, q + {x.kind.name});
    }
  }

  // ----- the first reference -----

  ghost predicate ClearBelow(items: seq<Item>, i: nat, env: Env) {
    i <= |items| && forall j :: 0 <= j < i ==> !IsRef(items[j], env)
  }

  ghost predicate NoRefs(items: seq<Item>, env: Env) { ClearBelow(items, |items|, env) }

  /** The position of the first reference, or the length when there is none. */
  function FirstRef(items: seq<Item>, env: Env): (i: nat)
    ensures i <= |items| && (i < |items| ==> IsRef(items[i], env))
    ensures forall j :: 0 <= j < i ==> !IsRef(items[j], env)
  {
    if items == [] then 0
    else if IsRef(items[0], env) then 0
    else 1 + FirstRef(items[1..], env)
  }

  lemma {:induction false} NoRefsWalk(items: seq<Item>, env: Env, block: string)
    requires NoRefs(items, env)
    ensures Walk(items, env, block, {}).Through? && Cost(items, env, block, {}) == 0 && Inline(items, env, {}) == items
    decreases |items|
  {
    if items != [] {
      NoRefsWalk(items[1..], env, block);
      assert !IsRef(items[0], env);
      assert [items[0]] + items[1..] == items;
    }
  }

  function Replace(items: seq<Item>, i: nat, env: Env): seq<Item>
    requires i < |items| && IsRef(items[i], env)
  {
    items[..i] + (Retag(env[items[i].kind.name].items, items[i].sub) + items[i + 1..])
  }

  /** Up to its first reference a list is walked for nothing. */
  lemma SkipClear(items: seq<Item>, i: nat, rest: seq<Item>, env: Env, block: string)
    requires ClearBelow(items, i, env)
    ensures Walk(items[..i] + rest, env, block, {}) == Walk(rest, env, block, {})
    ensures Cost(items[..i] + rest, env, block, {}) == Cost(rest, env, block, {})
    ensures Inline(items[..i] + rest, env, {}) == items[..i] + Inline(rest, env, {})
  {
    NoRefsWalk(items[..i], env, block);
    WalkConcat(items[..i], rest, env, block, {});
    InlineConcat(items[..i], rest, env, {});
  }

  lemma Split(items: seq<Item>, i: nat)
    requires i < |items|
    ensures items == items[..i] + ([items[i]] + items[i + 1..])
  {
  }

  /** A reference in front, and the same list with the reference replaced. */
  lemma ReplaceHead(x: Item, b: seq<Item>, env: Env, block: string)
    requires IsRef(x, env) && !Inconsistent(env[x.kind.name], block) && !Walk([x] + b, env, block, {}).Cyclic?
    ensures
      var r := Retag(env[x.kind.name].items, x.sub) + b;
      && Walk(r, env, block, {}) == Walk([x] + b, env, block, {})
      && Cost(r, env, block, {}) + 1 == Cost([x] + b, env, block, {})
      && (Walk(r, env, block, {}).Through? ==> Inline(r, env, {}) == Inline([x] + b, env, {}))
  {
    var kids := env[x.kind.name].items;
    assert ([x] + b)[0] == x && ([x] + b)[1..] == b && {} + {x.kind.name} == {x.kind.name};
    WalkConcat(Retag(kids, x.sub), b, env, block, {});
    WalkRetag(kids, x.sub, env, block, {});
    WalkMonotone(kids, env, block, {}, {x.kind.name});
    InlineConcat(Retag(kids, x.sub), b, env, {});
    InlineRetag(kids, x.sub, env, {});
  }

  /** A replacement of the first reference keeps how the walk ends and what is inlined, and is one step on. */
  lemma ReplaceKeeps(items: seq<Item>, i: nat, env: Env, block: string)
    requires i < |items| && ClearBelow(items, i, env) && IsRef(items[i], env)
    requires !Inconsistent(env[items[i].kind.name], block) && !Walk(items, env, block, {}).Cyclic?
    ensures
      var r := Replace(items, i, env);
      && Walk(r, env, block, {}) == Walk(items, env, block, {})
      && Cost(r, env, block, {}) + 1 == Cost(items, env, block, {})
      && (Walk(items, env, block, {}).Through? ==> Inline(r, env, {}) == Inline(items, env, {}))
  {
    Split(items, i);
    SkipClear(items, i, [items[i]] + items[i + 1..], env, block);
    SkipClear(items, i, Retag(env[items[i].kind.name].items, items[i].sub) + items[i + 1..], env, block);
    ReplaceHead(items[i], items[i + 1..], env, block);
  }

  lemma FirstIsBad(items: seq<Item>, i: nat, env: Env, block: string)
    requires i < |items| && ClearBelow(items, i, env) && IsRef(items[i], env)
    requires Inconsistent(env[items[i].kind.name], block)
    ensures Walk(items, env, block, {}).OtherBlock?
  {
    Split(items, i);
    SkipClear(items, i, [items[i]] + items[i + 1..], env, block);
    assert ([items[i]] + items[i + 1..])[0] == items[i];
  }

  // ----- the loop: Instr::transfer_fields -----

  /** `n` replacements, each of the first reference. */
  function Iterate(items: seq<Item>, env: Env, n: nat): seq<Item> {
    if n == 0 then items else Next(Iterate(items, env, n - 1), env)
  }

  function Next(items: seq<Item>, env: Env): seq<Item> {
    var i := FirstRef(items, env);
    if i < |items| then Replace(items, i, env) else items
  }

  /** Where the loop stands. */
  ghost predicate Going(start: seq<Item>, now: seq<Item>, i: nat, steps: nat, env: Env, block: string) {
    && ClearBelow(now, i, env) && now == Iterate(start, env, steps) && !Walk(now, env, block, {}).Cyclic?
    && Walk(now, env, block, {}) == Walk(start, env, block, {})
    && (Walk(start, env, block, {}).Through? ==> Inline(now, env, {}) == Inline(start, env, {}))
  }

  lemma GoesPast(start: seq<Item>, now: seq<Item>, i: nat, steps: nat, env: Env, block: string)
    requires Going(start, now, i, steps, env, block) && i < |now| && !IsRef(now[i], env)
    ensures Going(start, now, i + 1, steps, env, block)
  {
  }

  lemma GoesOn(start: seq<Item>, now: seq<Item>, i: nat, steps: nat, env: Env, block: string)
    requires Going(start, now, i, steps, env, block) && i < |now| && IsRef(now[i], env)
    requires !Inconsistent(env[now[i].kind.name], block)
    ensures Going(start, Replace(now, i, env), 0, steps + 1, env, block)
    ensures Cost(Replace(now, i, env), env, block, {}) < Cost(now, env, block, {})
  {
    assert FirstRef(now, env) == i;
    ReplaceKeeps(now, i, env, block);
  }

  class Instr {
    var initAll: seq<Item>
    const block: string
    const hasSubinstrs: bool

    constructor (items: seq<Item>, block: string, hasSubinstrs: bool)
      ensures initAll == items && this.block == block && this.hasSubinstrs == hasSubinstrs
    {
      initAll := items;
      this.block := block;
      this.hasSubinstrs := hasSubinstrs;
    }

    /** Look at one item: go past it, or replace it and start over. */
    method Visit(i: nat, env: Env, ghost start: seq<Item>, ghost steps: nat)
        returns (ok: bool, next: nat, ghost more: nat)
      requires i < |initAll| && Going(start, initAll, i, steps, env, block)
      modifies `initAll
      ensures !ok ==> Walk(start, env, block, {}).OtherBlock? && initAll == old(initAll) && more == steps
      ensures ok ==> Going(start, initAll, next, more, env, block)
      ensures ok ==>
                || Cost(initAll, env, block, {}) < Cost(old(initAll), env, block, {})
                || (initAll == old(initAll) && next == i + 1)
    {
      ok, next, more := true, i + 1, steps;
      if IsRef(initAll[i], env) {
        if Inconsistent(env[initAll[i].kind.name], block) {
          FirstIsBad(initAll, i, env, block);
          ok := false;
        } else {
          GoesOn(start, initAll, i, steps, env, block);
          initAll := Replace(initAll, i, env);
          next, more := 0, steps + 1;
        }
      } else {
        GoesPast(start, initAll, i, steps, env, block);
      }
    }

    /**
     Replace every reference, from the beginning again after each replacement.  Unless the walk
     comes back into a sub-instruction it has not left, this ends; it fails exactly when the walk
     meets a sub-instruction of another block.
     */
    method TransferFields(env: Env) returns (ok: bool, ghost steps: nat)
      requires hasSubinstrs ==> !Walk(initAll, env, block, {}).Cyclic?
      modifies `initAll
      ensures initAll == Iterate(old(initAll), env, steps)
      ensures !hasSubinstrs ==> ok && initAll == old(initAll)
      ensures hasSubinstrs ==> (ok <==> Walk(old(initAll), env, block, {}).Through?)
      ensures hasSubinstrs && ok ==> initAll == Inline(old(initAll), env, {}) && NoRefs(initAll, env)
    {
      ghost var start := initAll;
      ok, steps := true, 0;
      if hasSubinstrs {
        var i: nat := 0;
        while i < |initAll|
          invariant Going(start, initAll, i, steps, env, block)
          decreases Cost(initAll, env, block, {}), |initAll| - i
        {
          ok, i, steps := Visit(i, env, start, steps);
          if !ok { return; }
        }
        NoRefsWalk(initAll, env, block);
        ok := true;
      }
    }
  }

  // ----- exactly when the loop comes to an end -----

  /** The loop has nothing left to replace, or is about to fail. */
  ghost predicate Stopped(now: seq<Item>, env: Env, block: string) {
    var i := FirstRef(now, env);
    i < |now| ==> Inconsistent(env[now[i].kind.name], block)
  }

  ghost predicate Ends(items: seq<Item>, env: Env, block: string) {
    exists n: nat :: Stopped(Iterate(items, env, n), env, block)
  }

  lemma {:induction false} IterateShift(items: seq<Item>, env: Env, n: nat)
    ensures Iterate(items, env, n + 1) == Iterate(Next(items, env), env, n)
  {
    if n > 0 {
      IterateShift(items, env, n - 1);
    }
  }

  lemma NextKeeps(items: seq<Item>, env: Env, block: string)
    requires !Walk(items, env, block, {}).Cyclic? && !Stopped(items, env, block)
    ensures !Walk(Next(items, env), env, block, {}).Cyclic?
    ensures Cost(Next(items, env), env, block, {}) < Cost(items, env, block, {})
  {
    ReplaceKeeps(items, FirstRef(items, env), env, block);
  }

  lemma {:induction false} ComesToAnEnd(items: seq<Item>, env: Env, block: string) returns (n: nat)
    requires !Walk(items, env, block, {}).Cyclic?
    ensures Stopped(Iterate(items, env, n), env, block)
    decreases Cost(items, env, block, {})
  {
    if Stopped(items, env, block) {
      n := 0;
    } else {
      NextKeeps(items, env, block);
      var m := ComesToAnEnd(Next(items, env), env, block);
      IterateShift(items, env, m);
      n := m + 1;
    }
  }

  /** After a part that is walked through, the list refers to one of the names. */
  ghost predicate LeadsTo(items: seq<Item>, names: set<string>, env: Env, block: string) {
    exists i :: 0 <= i < |items| && LeadsAt(items, i, names, env, block)
  }

  ghost predicate LeadsAt(items: seq<Item>, i: nat, names: set<string>, env: Env, block: string)
    requires i < |items|
  {
    Walk(items[..i], env, block, {}).Through? && IsRef(items[i], env) && items[i].kind.name in names
  }

  ghost predicate Caught(n: string, names: set<string>, env: Env, block: string) {
    n in env && !Inconsistent(env[n], block) && LeadsTo(env[n].items, names, env, block)
  }

  /** Sub-instructions that lead into each other. */
  ghost predicate Trap(names: set<string>, env: Env, block: string) {
    forall n {:trigger Caught(n, names, env, block)} :: n in names ==> Caught(n, names, env, block)
  }

  /** Where a walk turns out cyclic. */
  lemma {:induction false} CyclicAt(items: seq<Item>, env: Env, block: string, path: set<string>) returns (i: nat)
    requires Walk(items, env, block, path).Cyclic?
    ensures i < |items| && Walk(items[..i], env, block, path).Through? && WalkOne(items[i], env, block, path).Cyclic?
    decreases |items|
  {
    if WalkOne(items[0], env, block, path).Cyclic? {
      i := 0;
    } else {
      var k := CyclicAt(items[1..], env, block, path);
      i := k + 1;
      assert items[..i] == [items[0]] + items[1..][..k];
      assert items[..i][1..] == items[1..][..k];
    }
  }

  /** A cyclic walk runs into a trap, made of what it is inside and some more. */
  lemma {:induction false} CyclicTrap(items: seq<Item>, env: Env, block: string, path: set<string>)
      returns (more: set<string>)
    requires Walk(items, env, block, path).Cyclic?
    ensures LeadsTo(items, more + path, env, block)
    ensures forall n {:trigger Caught(n, more + path, env, block)} :: n in more ==> Caught(n, more + path, env, block)
    decreases env.Keys - path
  {
    var i := CyclicAt(items, env, block, path);
    var n := items[i].kind.name;
    WalkMonotone(items[..i], env, block, {}, path);
    if n in path {
      more := {};
      assert LeadsAt(items, i, more + path, env, block);
    } else {
      Deeper(env, path, n);
      var inner := CyclicTrap(env[n].items, env, block, path + {n});
      more := inner + {n};
      assert inner + (path + {n}) == more + path;
      assert LeadsAt(items, i, more + path, env, block);
      forall m | m in more
        ensures Caught(m, more + path, env, block)
      {
        if m != n { assert Caught(m, inner + (path + {n}), env, block); }
      }
    }
  }

  /** Inside a trap the loop has not ended, and its next step stays inside. */
  lemma TrapHolds(items: seq<Item>, names: set<string>, env: Env, block: string)
    requires Trap(names, env, block) && LeadsTo(items, names, env, block)
    ensures !Stopped(items, env, block) && LeadsTo(Next(items, env), names, env, block)
  {
    var i :| 0 <= i < |items| && LeadsAt(items, i, names, env, block);
    var j := FirstRef(items, env);
    if j < i {
      TrapAhead(items, i, j, names, env, block);
    } else {
      assert Caught(items[i].kind.name, names, env, block);
      TrapEntered(items, i, names, env, block);
    }
  }

  lemma TrapAhead(items: seq<Item>, i: nat, j: nat, names: set<string>, env: Env, block: string)
    requires j < i < |items| && j == FirstRef(items, env) && LeadsAt(items, i, names, env, block)
    ensures !Stopped(items, env, block) && LeadsTo(Replace(items, j, env), names, env, block)
  {
    var front, r := items[..i], Replace(items, j, env);
    if Inconsistent(env[items[j].kind.name], block) {
      FirstIsBad(front, j, env, block);
    } else {
      ReplaceKeeps(front, j, env, block);
      var k := i - 1 + |env[items[j].kind.name].items|;
      ReplaceFront(items, i, j, env);
      assert LeadsAt(r, k, names, env, block);
    }
  }

  lemma ReplaceFront(items: seq<Item>, i: nat, j: nat, env: Env)
    requires j < i < |items| && IsRef(items[j], env)
    ensures
      var (r, k) := (Replace(items, j, env), i - 1 + |env[items[j].kind.name].items|);
      k < |r| && r[k] == items[i] && r[..k] == Replace(items[..i], j, env)
  {
    var r, k := Replace(items, j, env), i - 1 + |env[items[j].kind.name].items|;
    assert items[..i][j + 1..] == items[j + 1..][..i - j - 1];
  }

  lemma TrapEntered(items: seq<Item>, i: nat, names: set<string>, env: Env, block: string)
    requires i < |items| && i == FirstRef(items, env) && IsRef(items[i], env) && Caught(items[i].kind.name, names, env, block)
    ensures !Stopped(items, env, block) && LeadsTo(Replace(items, i, env), names, env, block)
  {
    var x, r := items[i], Replace(items, i, env);
    var kids := env[x.kind.name].items;
    var k :| 0 <= k < |kids| && LeadsAt(kids, k, names, env, block);
    SkipClear(items, i, Retag(kids[..k], x.sub), env, block);
    WalkRetag(kids[..k], x.sub, env, block, {});
    assert r[..i + k] == items[..i] + Retag(kids[..k], x.sub);
    assert r[i + k].kind == kids[k].kind;
    assert LeadsAt(r, i + k, names, env, block);
  }

  /** A loop that has run into a trap never ends. */
  lemma {:induction false} NeverEnds(items: seq<Item>, names: set<string>, env: Env, block: string, n: nat)
    requires Trap(names, env, block) && LeadsTo(items, names, env, block)
    ensures LeadsTo(Iterate(items, env, n), names, env, block) && !Stopped(Iterate(items, env, n), env, block)
  {
    if n > 0 {
      NeverEnds(items, names, env, block, n - 1);
      TrapHolds(Iterate(items, env, n - 1), names, env, block);
    }
    TrapHolds(Iterate(items, env, n), names, env, block);
  }

  /** The loop comes to an end, by itself or by the block error, exactly when the walk does not turn out cyclic. */
  lemma EndsIff(items: seq<Item>, env: Env, block: string)
    ensures Ends(items, env, block) <==> !Walk(items, env, block, {}).Cyclic?
  {
    if Walk(items, env, block, {}).Cyclic? {
      var names := CyclicTrap(items, env, block, {});
      assert names + {} == names;
      forall n: nat
        ensures !Stopped(Iterate(items, env, n), env, block)
      {
        NeverEnds(items, names, env, block, n);
      }
    } else {
      var n := ComesToAnEnd(items, env, block);
    }
  }

  /** A sub-instruction that refers to itself: the loop goes on for ever, unless the block test stops it. */
  lemma SelfReference(block: string)
    ensures
      var x := Item(Named("a"), "");
      && !Ends([x], map["a" := SubInstr([x], "")], block)
      && (block != "b" ==> Ends([x], map["a" := SubInstr([x], "b")], block))
  {
    var x := Item(Named("a"), "");
    var env: Env := map["a" := SubInstr([x], "")];
    EndsIff([x], env, block);
    assert WalkOne(x, env, block, {"a"}).Cyclic?;
    assert Walk([x], env, block, {} + {"a"}).Cyclic?;
    assert WalkOne(x, env, block, {}).Cyclic?;
    var other: Env := map["a" := SubInstr([x], "b")];
    EndsIff([x], other, block);
    assert block != "b" ==> WalkOne(x, other, block, {}).OtherBlock?;
  }

  // ----- acyclic references -----

  /** Each list refers only to names of lower rank. */
  ghost predicate Ranked(env: Env, rank: map<string, nat>) {
    forall n, i {:trigger env[n].items[i]} :: n in env && 0 <= i < |env[n].items| && IsRef(env[n].items[i], env) ==>
      n in rank && env[n].items[i].kind.name in rank && rank[env[n].items[i].kind.name] < rank[n]
  }

  lemma {:induction false} NoTrapRanked(n: string, names: set<string>, env: Env, block: string, rank: map<string, nat>)
    requires Ranked(env, rank) && Trap(names, env, block) && n in names
    ensures false
    decreases if n in rank then rank[n] else 0
  {
    assert Caught(n, names, env, block);
    var i :| 0 <= i < |env[n].items| && LeadsAt(env[n].items, i, names, env, block);
    NoTrapRanked(env[n].items[i].kind.name, names, env, block, rank);
  }

  /** Acyclic references are never walked in a cycle, so that the loop ends on every instruction. */
  lemma AcyclicEnds(items: seq<Item>, env: Env, block: string, rank: map<string, nat>)
    requires Ranked(env, rank)
    ensures !Walk(items, env, block, {}).Cyclic? && Ends(items, env, block)
  {
    EndsIff(items, env, block);
    if Walk(items, env, block, {}).Cyclic? {
      var names := CyclicTrap(items, env, block, {});
      assert names + {} == names;
      var i :| 0 <= i < |items| && LeadsAt(items, i, names, env, block);
      NoTrapRanked(items[i].kind.name, names, env, block, rank);
    }
  }

  // ----- exactly when it fails -----

  ghost predicate RefersTo(items: seq<Item>, n: string, env: Env) {
    exists i :: 0 <= i < |items| && IsRef(items[i], env) && items[i].kind.name == n
  }

  /** A chain of references, the first one from the list. */
  ghost predicate Chain(items: seq<Item>, env: Env, c: seq<string>)
    decreases |c|
  {
    c != [] && c[0] in env && RefersTo(items, c[0], env) && (|c| > 1 ==> Chain(env[c[0]].items, env, c[1..]))
  }

  lemma {:induction false} ThroughAt(items: seq<Item>, env: Env, block: string, path: set<string>, i: nat)
    requires Walk(items, env, block, path).Through? && i < |items|
    ensures WalkOne(items[i], env, block, path).Through?
    decreases |items|
  {
    if i > 0 { ThroughAt(items[1..], env, block, path, i - 1); }
  }

  lemma {:induction false} NoBadChain(items: seq<Item>, env: Env, block: string, path: set<string>, c: seq<string>)
    requires Walk(items, env, block, path).Through? && Chain(items, env, c)
    ensures Last(c) in env && !Inconsistent(env[Last(c)], block)
    decreases |c|
  {
    var i :| 0 <= i < |items| && IsRef(items[i], env) && items[i].kind.name == c[0];
    ThroughAt(items, env, block, path, i);
    if |c| > 1 {
      NoBadChain(env[c[0]].items, env, block, path + {c[0]}, c[1..]);
    }
  }

  lemma {:induction false} BadChain(items: seq<Item>, env: Env, block: string, path: set<string>) returns (c: seq<string>)
    requires Walk(items, env, block, path).OtherBlock?
    ensures Chain(items, env, c) && Last(c) in env && Inconsistent(env[Last(c)], block)
    decreases env.Keys - path, |items|
  {
    var x := items[0];
    if WalkOne(x, env, block, path).Through? {
      c := BadChain(items[1..], env, block, path);
      var i :| 0 <= i < |items[1..]| && IsRef(items[1..][i], env) && items[1..][i].kind.name == c[0];
      assert items[i + 1] == items[1..][i];
    } else if Inconsistent(env[x.kind.name], block) {
      c := [x.kind.name];
    } else {
      Deeper(env, path, x.kind.name);
      var rest := BadChain(env[x.kind.name].items, env, block, path + {x.kind.name});
      c := [x.kind.name] + rest;
      assert c[1..] == rest && Last(c) == Last(rest);
    }
  }

  /** Where the loop ends, it fails exactly when a sub-instruction of another block can be reached. */
  lemma FailsIff(items: seq<Item>, env: Env, block: string)
    requires !Walk(items, env, block, {}).Cyclic?
    ensures Walk(items, env, block, {}).OtherBlock? <==>
            exists c :: Chain(items, env, c) && Last(c) in env
                        && env[Last(c)].block != "" && env[Last(c)].block != block
  {
    if Walk(items, env, block, {}).OtherBlock? {
      var c := BadChain(items, env, block, {});
    } else {
      forall c | Chain(items, env, c)
        ensures Last(c) in env && !Inconsistent(env[Last(c)], block)
      {
        NoBadChain(items, env, block, {}, c);
      }
    }
  }

  /** Sub-instructions without a block, or of the instruction's own, are never an error. */
  lemma {:induction false} SameBlockThrough(items: seq<Item>, env: Env, block: string, path: set<string>)
    requires forall n :: n in env ==> env[n].block == "" || env[n].block == block
    ensures !Walk(items, env, block, path).OtherBlock?
    decreases env.Keys - path, 1, |items|
  {
    if items != [] {
      SameBlockThroughOne(items[0], env, block, path);
      SameBlockThrough(items[1..], env, block, path);
    }
  }

  lemma {:induction false} SameBlockThroughOne(x: Item, env: Env, block: string, path: set<string>)
    requires forall n :: n in env ==> env[n].block == "" || env[n].block == block
    ensures !WalkOne(x, env, block, path).OtherBlock?
    decreases env.Keys - path, 0, 0
  {
    if IsRef(x, env) && x.kind.name !in path {
      Deeper(env, path, x.kind.name);
      SameBlockThrough(env[x.kind.name].items, env, block, path + {x.kind.name});
    }
  }
}
