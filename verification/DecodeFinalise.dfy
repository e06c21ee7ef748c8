/**
 Finishing a decode table: a node whose children all test the same further bits of the
 same word is merged with them, again and again, down the tree.
 */
module DecodeFinalise {
  import opened Basics
  import opened Words
  import opened DecodeTree
  import opened DecodeEmit
  import opened DecodePrefix

  function Append(a: Kids, b: Kids): Kids {
    match a
    case NoKid => b
    case Kid(k, sub, more) => Kid(k, sub, Append(more, b))
  }

  /** The children of one child, under the joint key. */
  function Extend(key: Word, kids: Kids): Kids {
    match kids
    case NoKid => NoKid
    case Kid(k, sub, more) => Kid(Or(key, k), sub, Extend(key, more))
  }

  function Grandkids(kids: Kids): Kids {
    match kids
    case NoKid => NoKid
    case Kid(k, sub, more) => Append(Extend(k, sub.kids), Grandkids(more))
  }

  /** All children test exactly the bits `m` and have nothing else to fall back on. */
  ghost predicate AllTest(kids: Kids, m: Word) {
    kids.Kid? ==> kids.sub.mask == m && kids.sub.instr.None? && kids.sub.other.NoTable? && AllTest(kids.more, m)
  }

  ghost predicate Redundant(t: Tree, n: nat) {
    && t.instr.None? && t.other.NoTable? && t.kids.Kid?
    && var m := t.kids.sub.mask;
       !IsZero(m) && OneWord(Or(t.mask, m), n) && AllTest(t.kids, m)
  }

  function Merge(t: Tree): Tree
    requires t.kids.Kid?
  {
    Tree(Or(t.mask, t.kids.sub.mask), Grandkids(t.kids), t.other, t.instr)
  }

  // ----- termination: every merge removes nodes -----

  function Size(t: Tree): nat
    decreases t
  {
    1 + SizeKids(t.kids)
  }

  function SizeKids(kids: Kids): nat
    decreases kids
  {
    match kids
    case NoKid => 0
    case Kid(_, sub, more) => Size(sub) + SizeKids(more)
  }

  lemma {:induction false} SizeAppend(a: Kids, b: Kids)
    ensures SizeKids(Append(a, b)) == SizeKids(a) + SizeKids(b)
  {
    if a.Kid? {
      SizeAppend(a.more, b);
    }
  }

  lemma {:induction false} SizeExtend(k: Word, a: Kids)
    ensures SizeKids(Extend(k, a)) == SizeKids(a)
  {
    if a.Kid? {
      SizeExtend(k, a.more);
    }
  }

  lemma {:induction false} SizeGrandkids(kids: Kids)
    ensures SizeKids(Grandkids(kids)) <= SizeKids(kids)
    ensures kids.Kid? ==> SizeKids(Grandkids(kids)) < SizeKids(kids)
  {
    if kids.Kid? {
      SizeGrandkids(kids.more);
      SizeExtend(kids.key, kids.sub.kids);
      SizeAppend(Extend(kids.key, kids.sub.kids), Grandkids(kids.more));
    }
  }

  ghost function MergeAll(t: Tree, n: nat): (u: Tree)
    ensures Size(u) <= Size(t)
    decreases Size(t)
  {
    if Redundant(t, n) then
      SizeGrandkids(t.kids);
      MergeAll(Merge(t), n)
    else t
  }

  /** None: a mask is not confined to one word. */
  ghost function Finalise(t: Tree, n: nat): Option<Tree>
    decreases Size(t), 1
  {
    if IsZero(t.mask) then Some(t)
    else
      var u := MergeAll(t, n);
      if !OneWord(u.mask, n) then None
      else
        var kids := FinaliseKids(u.kids, n);
        if kids.None? then None else Some(Tree(u.mask, kids.value, u.other, u.instr))
  }

  ghost function FinaliseKids(kids: Kids, n: nat): Option<Kids>
    decreases SizeKids(kids), 2
  {
    match kids
    case NoKid => Some(NoKid)
    case Kid(k, sub, more) =>
      var s := Finalise(sub, n);
      var r := FinaliseKids(more, n);
      if s.None? || r.None? then None else Some(Kid(k, s.value, r.value))
  }

  // ----- a merge keeps the meaning -----

  /** A joint key under disjoint masks is matched exactly when both its parts are. */
  lemma JointKey(k1: Word, k2: Word, mask: Word, m: Word, w: Word)
    requires Within(k1, mask) && Within(k2, m) && |mask| == |m| == |w| && IsZero(And(mask, m))
    ensures Or(k1, k2) == And(w, Or(mask, m)) <==> k1 == And(w, mask) && k2 == And(w, m)
    ensures And(Or(k1, k2), mask) == k1 && And(Or(k1, k2), m) == k2
  {
    var z, x, y := And(mask, m), Or(k1, k2), And(w, Or(mask, m));
    assert forall i :: 0 <= i < |mask| ==> !z[i] && !(mask[i] && m[i]);
    if x == y {
      forall i | 0 <= i < |mask|
        ensures k1[i] == And(w, mask)[i] && k2[i] == And(w, m)[i]
      {
        assert x[i] == y[i];
      }
    }
  }

  lemma {:induction false} LookupAppend(a: Kids, b: Kids, x: Word, w: Word)
    ensures LookupIn(Append(a, b), x, w) == if LookupIn(a, x, w).Some? then LookupIn(a, x, w) else LookupIn(b, x, w)
  {
    if a.Kid? {
      LookupAppend(a.more, b, x, w);
    }
  }

  lemma {:induction false} LookupExtend(k: Word, kids: Kids, mask: Word, m: Word, w: Word)
    requires Within(k, mask) && KeysOk(kids, m) && |mask| == |m| == |w| && IsZero(And(mask, m))
    ensures LookupIn(Extend(k, kids), And(w, Or(mask, m)), w)
            == if k == And(w, mask) then LookupIn(kids, And(w, m), w) else None
  {
    if kids.Kid? {
      JointKey(k, kids.key, mask, m, w);
      LookupExtend(k, kids.more, mask, m, w);
    }
  }

  lemma {:induction false} NotAKey(kids: Kids, x: Word, w: Word)
    ensures LookupIn(kids, x, w).Some? <==> x in Keys(kids)
  {
    if kids.Kid? {
      NotAKey(kids.more, x, w);
    }
  }

  /** Every child has children of its own, keyed within `m`. */
  ghost predicate Splits(kids: Kids, m: Word) {
    kids.Kid? ==> kids.sub.kids.Kid? && KeysOk(kids.sub.kids, m) && Splits(kids.more, m)
  }

  /** Looking among the grandchildren is looking among the children, then in the child. */
  lemma {:induction false} LookupGrandkids(kids: Kids, mask: Word, m: Word, w: Word)
    requires KeysOk(kids, mask) && AllTest(kids, m) && Splits(kids, m)
    requires |mask| == |m| == |w| && IsZero(And(mask, m))
    ensures
      var (g, r) := (LookupIn(Grandkids(kids), And(w, Or(mask, m)), w), LookupIn(kids, And(w, mask), w));
      if r.None? then g.None? else r.value == (if g.Some? then g.value else Miss)
  {
    if kids.Kid? {
      LookupExtend(kids.key, kids.sub.kids, mask, m, w);
      LookupAppend(Extend(kids.key, kids.sub.kids), Grandkids(kids.more), And(w, Or(mask, m)), w);
      LookupGrandkids(kids.more, mask, m, w);
      NotAKey(kids.more, And(w, mask), w);
      LookupInner(kids.sub, m, w);
    }
  }

  lemma LookupInner(t: Tree, m: Word, w: Word)
    requires t.mask == m && t.instr.None? && t.other.NoTable? && t.kids.Kid?
    ensures
      var r := LookupIn(t.kids, And(w, m), w);
      Lookup(t, w) == if r.Some? then r.value else Miss
  {
    assert LookupOther(t, w) == Miss;
  }

  /** The bits a node tests have not been tested above it, and a node that tests bits has children. */
  ghost predicate PathOk(t: Tree, used: Word, n: nat)
    decreases t
  {
    && |used| == 32 * n
    && (!IsZero(t.mask) ==> t.kids.Kid?)
    && (t.kids.Kid? ==> |t.mask| == 32 * n && IsZero(And(used, t.mask)) && KidsPathOk(t.kids, Or(used, t.mask), n))
  }

  ghost predicate KidsPathOk(kids: Kids, used: Word, n: nat)
    decreases kids
  {
    kids.Kid? ==> PathOk(kids.sub, used, n) && KidsPathOk(kids.more, used, n)
  }

  lemma {:induction false} SplitsWhenOk(kids: Kids, m: Word, used: Word, n: nat)
    requires AllTest(kids, m) && !IsZero(m) && KidsOk(kids, n) && KidsPathOk(kids, used, n)
    ensures Splits(kids, m)
  {
    if kids.Kid? {
      SplitsWhenOk(kids.more, m, used, n);
    }
  }

  lemma DisjointMasks(used: Word, mask: Word, m: Word)
    requires |used| == |mask| == |m| && IsZero(And(used, mask)) && IsZero(And(Or(used, mask), m))
    ensures IsZero(And(mask, m)) && IsZero(And(used, Or(mask, m)))
    ensures Or(Or(used, mask), m) == Or(used, Or(mask, m))
  {
    var a, b := And(used, mask), And(Or(used, mask), m);
    assert forall i :: 0 <= i < |used| ==> !a[i] && !b[i];
  }

  /** What holds of the children's common mask. */
  lemma ChildMask(t: Tree, used: Word, n: nat)
    requires Redundant(t, n) && TreeOk(t, n) && PathOk(t, used, n)
    ensures
      var m := t.kids.sub.mask;
      && |m| == |t.mask| == |used| == 32 * n && Splits(t.kids, m)
      && IsZero(And(t.mask, m)) && IsZero(And(used, Or(t.mask, m)))
      && Or(Or(used, t.mask), m) == Or(used, Or(t.mask, m))
  {
    var m := t.kids.sub.mask;
    SplitsWhenOk(t.kids, m, Or(used, t.mask), n);
    assert PathOk(t.kids.sub, Or(used, t.mask), n);
    DisjointMasks(used, t.mask, m);
  }

  /** One merge keeps what every instruction decodes to. */
  lemma MergeKeepsLookup(t: Tree, used: Word, n: nat, w: Word)
    requires Redundant(t, n) && TreeOk(t, n) && PathOk(t, used, n) && |w| == 32 * n
    ensures Lookup(Merge(t), w) == Lookup(t, w)
  {
    ChildMask(t, used, n);
    LookupGrandkids(t.kids, t.mask, t.kids.sub.mask, w);
  }

  // ----- a merge keeps the table well formed -----

  lemma {:induction false} KeysAppend(a: Kids, b: Kids, mask: Word)
    requires KeysOk(a, mask) && KeysOk(b, mask) && Keys(a) !! Keys(b)
    ensures KeysOk(Append(a, b), mask) && Keys(Append(a, b)) == Keys(a) + Keys(b)
  {
    if a.Kid? {
      KeysAppend(a.more, b, mask);
    }
  }

  lemma {:induction false} KeysExtend(k: Word, kids: Kids, mask: Word, m: Word)
    requires Within(k, mask) && KeysOk(kids, m) && |mask| == |m| && IsZero(And(mask, m))
    ensures KeysOk(Extend(k, kids), Or(mask, m))
    ensures forall x :: x in Keys(Extend(k, kids)) ==> And(x, mask) == k && And(x, m) in Keys(kids)
  {
    if kids.Kid? {
      KeysExtend(k, kids.more, mask, m);
      JointKey(k, kids.key, mask, m, mask);
    }
  }

  lemma {:induction false} KeysGrandkids(kids: Kids, mask: Word, m: Word)
    requires KeysOk(kids, mask) && Splits(kids, m) && |mask| == |m| && IsZero(And(mask, m))
    ensures KeysOk(Grandkids(kids), Or(mask, m))
    ensures forall x :: x in Keys(Grandkids(kids)) ==> And(x, mask) in Keys(kids)
  {
    if kids.Kid? {
      KeysGrandkids(kids.more, mask, m);
      KeysExtend(kids.key, kids.sub.kids, mask, m);
      var a, b := Extend(kids.key, kids.sub.kids), Grandkids(kids.more);
      assert Keys(a) !! Keys(b);
      KeysAppend(a, b, Or(mask, m));
    }
  }

  lemma {:induction false} AppendOk(a: Kids, b: Kids, used: Word, n: nat)
    requires KidsOk(a, n) && KidsOk(b, n) && KidsPathOk(a, used, n) && KidsPathOk(b, used, n)
    ensures KidsOk(Append(a, b), n) && KidsPathOk(Append(a, b), used, n)
  {
    if a.Kid? {
      AppendOk(a.more, b, used, n);
    }
  }

  lemma {:induction false} ExtendOk(k: Word, kids: Kids, used: Word, n: nat)
    requires KidsOk(kids, n) && KidsPathOk(kids, used, n)
    ensures KidsOk(Extend(k, kids), n) && KidsPathOk(Extend(k, kids), used, n)
  {
    if kids.Kid? {
      ExtendOk(k, kids.more, used, n);
    }
  }

  lemma {:induction false} GrandkidsOk(kids: Kids, m: Word, used: Word, n: nat)
    requires AllTest(kids, m) && KidsOk(kids, n) && KidsPathOk(kids, used, n) && Splits(kids, m)
    ensures KidsOk(Grandkids(kids), n) && KidsPathOk(Grandkids(kids), Or(used, m), n)
  {
    if kids.Kid? {
      GrandkidsOk(kids.more, m, used, n);
      ExtendOk(kids.key, kids.sub.kids, Or(used, m), n);
      AppendOk(Extend(kids.key, kids.sub.kids), Grandkids(kids.more), Or(used, m), n);
    }
  }

  lemma MergeKeepsOk(t: Tree, used: Word, n: nat)
    requires Redundant(t, n) && TreeOk(t, n) && PathOk(t, used, n)
    ensures TreeOk(Merge(t), n) && PathOk(Merge(t), used, n)
  {
    var m := t.kids.sub.mask;
    ChildMask(t, used, n);
    KeysGrandkids(t.kids, t.mask, m);
    GrandkidsOk(t.kids, m, Or(used, t.mask), n);
    assert Grandkids(t.kids).Kid?;
  }

  // ----- the whole of finalisation -----

  lemma {:induction false} MergeAllKeeps(t: Tree, used: Word, n: nat, w: Word)
    requires TreeOk(t, n) && PathOk(t, used, n) && |w| == 32 * n
    ensures Lookup(MergeAll(t, n), w) == Lookup(t, w)
    ensures TreeOk(MergeAll(t, n), n) && PathOk(MergeAll(t, n), used, n)
    decreases Size(t)
  {
    if Redundant(t, n) {
      SizeGrandkids(t.kids);
      MergeKeepsLookup(t, used, n, w);
      MergeKeepsOk(t, used, n);
      MergeAllKeeps(Merge(t), used, n, w);
    }
  }

  /** Finalisation succeeds, keeps what every instruction decodes to, and leaves a table ready to emit. */
  lemma {:induction false} FinaliseKeepsLookup(t: Tree, used: Word, n: nat, w: Word)
    requires TreeOk(t, n) && PathOk(t, used, n) && |w| == 32 * n
    ensures Finalise(t, n).Some?
    ensures Lookup(Finalise(t, n).value, w) == Lookup(t, w) && TreeOk(Finalise(t, n).value, n)
    decreases Size(t), 1
  {
    if !IsZero(t.mask) {
      MergeAllKeeps(t, used, n, w);
      var u := MergeAll(t, n);
      FinaliseMask(t, used, n, w);
      FinaliseKidsKeep(u.kids, u.mask, Or(used, u.mask), n, w);
    }
  }

  /** A node that tested bits still has children after merging. */
  lemma {:induction false} FinaliseMask(t: Tree, used: Word, n: nat, w: Word)
    requires TreeOk(t, n) && PathOk(t, used, n) && |w| == 32 * n && t.kids.Kid?
    ensures MergeAll(t, n).kids.Kid?
    decreases Size(t)
  {
    if Redundant(t, n) {
      SizeGrandkids(t.kids);
      MergeKeepsOk(t, used, n);
      SplitsWhenOk(t.kids, t.kids.sub.mask, Or(used, t.mask), n);
      assert Merge(t).kids.Kid?;
      FinaliseMask(Merge(t), used, n, w);
    }
  }

  lemma {:induction false} FinaliseKidsKeep(kids: Kids, mask: Word, used: Word, n: nat, w: Word)
    requires KidsOk(kids, n) && KidsPathOk(kids, used, n) && KeysOk(kids, mask) && |w| == 32 * n
    ensures FinaliseKids(kids, n).Some?
    ensures
      var ks := FinaliseKids(kids, n).value;
      && (ks.Kid? <==> kids.Kid?) && Keys(ks) == Keys(kids) && KeysOk(ks, mask) && KidsOk(ks, n)
      && forall x :: LookupIn(ks, x, w) == LookupIn(kids, x, w)
    decreases SizeKids(kids), 2
  {
    if kids.Kid? {
      FinaliseKeepsLookup(kids.sub, used, n, w);
      FinaliseKidsKeep(kids.more, mask, used, n, w);
    }
  }

  /** From the finished table to the emitted code: what is run is what the built table says. */
  lemma FinalisedCodeRefines(c: Config, t: Tree, f: seq<Word>)
    requires c.pb == 0 && 0 < c.n <= |f| && Words32(f)
    requires TreeOk(t, c.n) && PathOk(t, Zeros(32 * c.n), c.n)
    ensures
      var u := Finalise(t, c.n);
      u.Some? && Decodes(c, t, u.value, Run(c.pb, Emit(c, u.value, 1, 1), f, f, Flat(f)), Flat(f))
  {
    FinaliseKeepsLookup(t, Zeros(32 * c.n), c.n, Slice(Flat(f), 0, 32 * c.n));
    DirectDecodeRefines(c, Finalise(t, c.n).value, f);
  }

  /** The same with prefix bits in front. */
  lemma FinalisedPrefixedCodeRefines(c: Config, t: Tree, instrs: seq<PrefixInstr>, little: bool, f: seq<Word>)
    requires c.Funnels() && c.pb < 32 && 0 < c.n <= |f| && Words32(f)
    requires TreeOk(t, c.n) && PathOk(t, Zeros(32 * c.n), c.n)
    requires PrefixShift(instrs, little) == c.pb
    requires var p := FirstPseudo(instrs); p.Some? ==> PrefixInFront(p.value, little) && Values32(p.value.fields)
    ensures
      var (stmts, u) := (PrefixCode(instrs, little), Finalise(t, c.n));
      var (start, stream) := (Started(c.pb, c.n, stmts, f), StreamOf(c.pb, stmts, f));
      && u.Some? && start.Some?
      && Decodes(c, t, u.value, Run(c.pb, Emit(c, u.value, 1, 1), start.value, f, stream), stream)
  {
    var stream := StreamOf(c.pb, PrefixCode(instrs, little), f);
    FinaliseKeepsLookup(t, Zeros(32 * c.n), c.n, Slice(stream, 0, 32 * c.n));
    PrefixedDecodeRefines(c, Finalise(t, c.n).value, instrs, little, f);
  }
}
