/**
 Building the decode table from the instructions' opcodes: where the opcode bits common to
 a group of instructions tell some of them apart, a node splits the group by their values
 on one word of these bits; what is left of a lone instruction's opcode becomes a chain.
 */
module DecodeBuild {
  import opened Basics
  import opened Words
  import opened DecodeTree
  import opened DecodeEmit
  import opened DecodePrefix
  import opened DecodeFinalise

  /** An instruction with its opcode: the bits that are fixed, and their values. */
  datatype Opcode = Opcode(instr: Instr, mask: Word, value: Word)

  ghost predicate Sound(o: Opcode, n: nat) {
    |o.mask| == 32 * n && Within(o.value, o.mask) && o.instr.fetchWidth <= 32 * n
  }

  ghost predicate AllSound(os: seq<Opcode>, n: nat) { forall o :: o in os ==> Sound(o, n) }

  /** The bits tested so far are opcode bits of every instruction. */
  ghost predicate Covered(used: Word, os: seq<Opcode>) { forall o :: o in os ==> Within(used, o.mask) }

  /** `w` has the opcode of `o` on the bits not tested so far. */
  ghost predicate Agrees(w: Word, o: Opcode, used: Word) {
    && |w| == |o.mask| == |o.value| == |used|
    && forall k :: 0 <= k < |w| && o.mask[k] && !used[k] ==> w[k] == o.value[k]
  }

  // ----- masks: split_mask, get_common_opc -----

  /** Word `j` of the mask, in its place. */
  function Only(mask: Word, j: nat): (r: Word)
    ensures |r| == |mask| && forall k :: 0 <= k < |mask| ==> r[k] == (mask[k] && 32 * j <= k < 32 * j + 32)
  {
    seq(|mask|, k requires 0 <= k < |mask| => mask[k] && 32 * j <= k < 32 * j + 32)
  }

  /** The first word of the mask, from word `word` on, that is not clear. */
  function Split(mask: Word, n: nat, word: nat): Word
    decreases n - word
  {
    if word >= n then mask
    else if IsZero(Only(mask, word)) then Split(mask, n, word + 1)
    else Only(mask, word)
  }

  /** The same word, cut out by shifts. */
  function SubMask(mask: Word, j: nat): (r: Word)
    requires |mask| % 32 == 0 && 32 * j < |mask|
    ensures r == Only(mask, j)
  {
    var (l, r) := (32 * j, |mask| - 32 * (j + 1));
    Shl(Shr(Shr(Shl(mask, l), l), r), r)
  }

  method SplitMask(mask: Word, start: nat) returns (sub: Word)
    requires |mask| % 32 == 0
    ensures sub == Split(mask, |mask| / 32, start)
  {
    var word := start;
    while word < |mask| / 32
      invariant Split(mask, |mask| / 32, word) == Split(mask, |mask| / 32, start)
    {
      sub := SubMask(mask, word);
      if !IsZero(sub) {
        return;
      }
      word := word + 1;
    }
    sub := mask;
  }

  lemma OnlyIsOneWord(mask: Word, n: nat, j: nat)
    requires |mask| == 32 * n && j < n && !IsZero(Only(mask, j))
    ensures OneWord(Only(mask, j), n)
  {
    var m := Only(mask, j);
    forall i | 0 <= i < n && i != j
      ensures IsZero(WordAt(m, i))
    {
    }
    ZeroByWords(m, n);
    LastWordIs(m, n, j);
  }

  lemma ClearIsOneWord(mask: Word, n: nat)
    requires |mask| == 32 * n && IsZero(mask)
    ensures OneWord(mask, n)
  {
    ZeroByWords(mask, n);
  }

  /** Below word `word` the mask is clear. */
  ghost predicate ClearBelow(mask: Word, word: nat) {
    forall k :: 0 <= k < |mask| && k < 32 * word ==> !mask[k]
  }

  lemma {:induction false} SplitFrom(mask: Word, n: nat, word: nat)
    requires |mask| == 32 * n && word <= n && ClearBelow(mask, word)
    ensures
      var m := Split(mask, n, word);
      Within(m, mask) && OneWord(m, n) && (IsZero(m) ==> IsZero(mask))
    decreases n - word
  {
    if word == n {
      ClearIsOneWord(mask, n);
    } else if IsZero(Only(mask, word)) {
      assert forall k :: 32 * word <= k < 32 * word + 32 ==> !Only(mask, word)[k];
      SplitFrom(mask, n, word + 1);
    } else {
      OnlyIsOneWord(mask, n, word);
    }
  }

  function Xor(x: Word, y: Word): (z: Word)
    requires |x| == |y|
    ensures |z| == |x| && forall k :: 0 <= k < |x| ==> z[k] == (x[k] != y[k])
  {
    seq(|x|, k requires 0 <= k < |x| => x[k] != y[k])
  }

  /** The bits that are opcode bits of every instruction. */
  function Common(os: seq<Opcode>, n: nat): (r: Word)
    requires forall o :: o in os ==> |o.mask| == 32 * n
    ensures |r| == 32 * n && forall k :: 0 <= k < 32 * n ==> r[k] == forall o :: o in os ==> o.mask[k]
  {
    seq(32 * n, k requires 0 <= k < 32 * n => forall o :: o in os ==> o.mask[k])
  }

  method GetCommonOpc(os: seq<Opcode>, n: nat) returns (mask: Word)
    requires forall o :: o in os ==> |o.mask| == 32 * n
    ensures mask == Common(os, n)
  {
    mask := Not(Zeros(32 * n));
    for i := 0 to |os|
      invariant |mask| == 32 * n
      invariant forall k :: 0 <= k < 32 * n ==> mask[k] == forall o :: o in os[..i] ==> o.mask[k]
    {
      assert os[..i + 1] == os[..i] + [os[i]];
      mask := And(mask, os[i].mask);
    }
    assert os[..|os|] == os;
  }

  /** The bits a node tests. */
  function NextMask(os: seq<Opcode>, n: nat, used: Word): Word
    requires |used| == 32 * n && forall o :: o in os ==> |o.mask| == 32 * n
  {
    Split(Xor(used, Common(os, n)), n, 0)
  }

  /** They lie in one word, belong to every opcode, and have not been tested. */
  ghost predicate Fresh(m: Word, os: seq<Opcode>, n: nat, used: Word) {
    && |m| == |used| == 32 * n && OneWord(m, n)
    && (forall k :: 0 <= k < 32 * n && m[k] ==> !used[k])
    && Covered(used, os) && Covered(m, os)
  }

  lemma NextMaskFresh(os: seq<Opcode>, n: nat, used: Word)
    requires AllSound(os, n) && |used| == 32 * n && Covered(used, os)
    ensures
      var m := NextMask(os, n, used);
      Fresh(m, os, n, used) && (IsZero(m) ==> used == Common(os, n))
  {
    var x := Xor(used, Common(os, n));
    SplitFrom(x, n, 0);
    var m := Split(x, n, 0);
    assert forall k :: 0 <= k < 32 * n && m[k] ==> x[k];
    assert forall k :: 0 <= k < 32 * n && used[k] ==> Common(os, n)[k];
  }

  lemma FreshUsed(m: Word, os: seq<Opcode>, n: nat, used: Word)
    requires Fresh(m, os, n, used)
    ensures Covered(Or(used, m), os) && IsZero(And(used, m))
  {
  }

  /** How many bits have not been tested. */
  function Unused(x: Word): nat { if x == [] then 0 else Unused(Front(x)) + Bit(!Last(x)) }

  lemma {:induction false} UnusedOr(x: Word, m: Word)
    requires |x| == |m|
    ensures Unused(Or(x, m)) <= Unused(x)
    ensures !IsZero(m) && IsZero(And(x, m)) ==> Unused(Or(x, m)) < Unused(x)
  {
    if x != [] {
      UnusedOr(Front(x), Front(m));
      assert Front(Or(x, m)) == Or(Front(x), Front(m));
      assert Front(And(x, m)) == And(Front(x), Front(m));
      assert Last(And(x, m)) == (Last(x) && Last(m));
      if IsZero(And(x, m)) {
        assert !Last(And(x, m));
        assert IsZero(Front(And(x, m)));
        assert !Last(m) && IsZero(Front(m)) ==> IsZero(m);
      }
    }
  }

  /** A node that tests something leaves less to test. */
  lemma FreshShrinks(m: Word, os: seq<Opcode>, n: nat, used: Word)
    requires Fresh(m, os, n, used)
    ensures Covered(Or(used, m), os) && IsZero(And(used, m))
    ensures !IsZero(m) ==> Unused(Or(used, m)) < Unused(used)
  {
    FreshUsed(m, os, n, used);
    UnusedOr(used, m);
  }

  // ----- values and groups: get_values, get_common_instrs -----

  function Values(os: seq<Opcode>, mask: Word): seq<Word> {
    if os == [] then []
    else
      var (vs, v) := (Values(Front(os), mask), And(mask, Last(os).value));
      if v in vs then vs else vs + [v]
  }

  function Group(os: seq<Opcode>, mask: Word, v: Word): seq<Opcode> {
    if os == [] then []
    else (if And(mask, os[0].value) == v then [os[0]] else []) + Group(os[1..], mask, v)
  }

  ghost predicate Distinct(vs: seq<Word>) { forall i, j :: 0 <= i < j < |vs| ==> vs[i] != vs[j] }

  lemma {:induction false} ValuesDistinct(os: seq<Opcode>, mask: Word)
    ensures Distinct(Values(os, mask))
  {
    if os != [] {
      ValuesDistinct(Front(os), mask);
    }
  }

  lemma {:induction false} ValueListed(os: seq<Opcode>, mask: Word, o: Opcode)
    requires o in os
    ensures And(mask, o.value) in Values(os, mask)
  {
    if o != Last(os) {
      assert o in Front(os);
      ValueListed(Front(os), mask, o);
    }
  }

  lemma {:induction false} ValueHas(os: seq<Opcode>, mask: Word, v: Word) returns (o: Opcode)
    requires v in Values(os, mask)
    ensures o in os && And(mask, o.value) == v
  {
    if v in Values(Front(os), mask) {
      o := ValueHas(Front(os), mask, v);
    } else {
      o := Last(os);
    }
  }

  lemma {:induction false} GroupIs(os: seq<Opcode>, mask: Word, v: Word, o: Opcode)
    ensures o in Group(os, mask, v) <==> o in os && And(mask, o.value) == v
  {
    if os != [] {
      GroupIs(os[1..], mask, v, o);
    }
  }

  lemma GroupKeeps(os: seq<Opcode>, mask: Word, v: Word, used: Word, n: nat)
    requires AllSound(os, n) && Covered(used, os)
    ensures AllSound(Group(os, mask, v), n) && Covered(used, Group(os, mask, v))
  {
    forall o | o in Group(os, mask, v)
      ensures o in os
    {
      GroupIs(os, mask, v, o);
    }
  }

  lemma {:induction false} OneValue(os: seq<Opcode>, mask: Word)
    requires IsZero(mask)
    ensures |Values(os, mask)| <= 1 && forall v :: v in Values(os, mask) ==> v == Zeros(|mask|)
  {
    if os != [] {
      var vs := Values(Front(os), mask);
      OneValue(Front(os), mask);
      assert And(mask, Last(os).value) == Zeros(|mask|);
      assert vs != [] ==> vs[0] == Zeros(|mask|);
    }
  }

  /** Bits that tell two instructions apart are not empty. */
  lemma TellsApart(os: seq<Opcode>, mask: Word)
    requires |Values(os, mask)| > 1
    ensures !IsZero(mask)
  {
    if IsZero(mask) {
      OneValue(os, mask);
    }
  }

  // ----- the tree: build_tree, add_to_tree -----

  function Leaf(n: nat, i: Option<Instr>): Tree { Tree(Zeros(32 * n), NoKid, NoTable, i) }

  /** The chain of nodes for what is left of one instruction's opcode; `fill` says whether the instruction is in. */
  function BuildOne(o: Opcode, n: nat, used: Word, fill: bool): Tree
    requires Sound(o, n) && |used| == 32 * n && Within(used, o.mask)
    decreases Unused(used)
  {
    var m := NextMask([o], n, used);
    NextMaskFresh([o], n, used);
    FreshShrinks(m, [o], n, used);
    if IsZero(m) then Leaf(n, if fill then Some(o.instr) else None)
    else Tree(m, Kid(And(m, o.value), BuildOne(o, n, Or(used, m), fill), NoKid), NoTable, None)
  }

  /**
   The tree for a group; `None` where several instructions have the same value on the next
   bits, and conflicts or specialisations have to be sorted out.
   */
  function Build(os: seq<Opcode>, n: nat, used: Word, fill: bool): Option<Tree>
    requires AllSound(os, n) && |used| == 32 * n && Covered(used, os)
    decreases Unused(used), 2, 0
  {
    if |os| == 1 then Some(BuildOne(os[0], n, used, fill))
    else
      var m := NextMask(os, n, used);
      NextMaskFresh(os, n, used);
      if |Values(os, m)| == 1 then None
      else
        assert Values(os, m) != [] ==> !IsZero(m) by {
          if Values(os, m) != [] { TellsApart(os, m); }
        }
        var kids := BuildKids(os, n, used, m, Values(os, m), fill);
        if kids.None? then None else Some(Tree(m, kids.value, NoTable, None))
  }

  /** One child for each value, with the instructions that have it. */
  function BuildKids(os: seq<Opcode>, n: nat, used: Word, m: Word, vs: seq<Word>, fill: bool): Option<Kids>
    requires AllSound(os, n) && Fresh(m, os, n, used) && (vs != [] ==> !IsZero(m))
    decreases Unused(used), 1, |vs|
  {
    if vs == [] then Some(NoKid)
    else
      var (sub, more) := (BuildSub(os, n, used, m, vs[0], fill), BuildKids(os, n, used, m, vs[1..], fill));
      if sub.None? || more.None? then None else Some(Kid(vs[0], sub.value, more.value))
  }

  function BuildSub(os: seq<Opcode>, n: nat, used: Word, m: Word, v: Word, fill: bool): Option<Tree>
    requires AllSound(os, n) && Fresh(m, os, n, used) && !IsZero(m)
    decreases Unused(used), 0, 0
  {
    FreshShrinks(m, os, n, used);
    GroupKeeps(os, m, v, Or(used, m), n);
    Build(Group(os, m, v), n, Or(used, m), fill)
  }

  // ----- what a built tree decodes -----

  lemma AgreesStep(w: Word, o: Opcode, used: Word, m: Word)
    requires |w| == |o.mask| == |used| == |m| && Within(o.value, o.mask) && Within(m, o.mask)
    requires forall k :: 0 <= k < |m| && m[k] ==> !used[k]
    ensures Agrees(w, o, used) <==> And(w, m) == And(m, o.value) && Agrees(w, o, Or(used, m))
  {
    var (x, y) := (And(w, m), And(m, o.value));
    if Agrees(w, o, used) {
      assert forall k :: 0 <= k < |w| ==> x[k] == y[k];
    }
    if x == y && Agrees(w, o, Or(used, m)) {
      forall k | 0 <= k < |w| && o.mask[k] && !used[k]
        ensures w[k] == o.value[k]
      {
        assert x[k] == y[k];
      }
    }
  }

  /** When nothing is left to test, all of the opcode has been tested. */
  lemma AllTested(o: Opcode, n: nat, used: Word, w: Word)
    requires Sound(o, n) && |used| == |w| == 32 * n && used == Common([o], n)
    ensures Agrees(w, o, used)
  {
    assert o in [o];
    assert forall k :: 0 <= k < 32 * n ==> used[k] == o.mask[k];
  }

  lemma ChainFinds(m: Word, key: Word, sub: Tree, w: Word)
    ensures
      var t := Tree(m, Kid(key, sub, NoKid), NoTable, None);
      Lookup(t, w) == if And(w, m) == key then Lookup(sub, w) else Miss
  {
    var t := Tree(m, Kid(key, sub, NoKid), NoTable, None);
    assert LookupIn(NoKid, And(w, m), w) == None;
    assert LookupOther(t, w) == Miss;
  }

  lemma {:induction false} OneFinds(o: Opcode, n: nat, used: Word, w: Word)
    requires Sound(o, n) && |used| == |w| == 32 * n && Within(used, o.mask)
    ensures Lookup(BuildOne(o, n, used, true), w) == if Agrees(w, o, used) then Found(o.instr) else Miss
    decreases Unused(used)
  {
    var m := NextMask([o], n, used);
    NextMaskFresh([o], n, used);
    FreshShrinks(m, [o], n, used);
    if IsZero(m) {
      AllTested(o, n, used, w);
    } else {
      assert o in [o];
      AgreesStep(w, o, used, m);
      OneFinds(o, n, Or(used, m), w);
      ChainFinds(m, And(m, o.value), BuildOne(o, n, Or(used, m), true), w);
    }
  }

  lemma {:induction false} KidsFind(os: seq<Opcode>, n: nat, used: Word, m: Word, vs: seq<Word>, x: Word, w: Word)
    requires AllSound(os, n) && Fresh(m, os, n, used) && !IsZero(m)
    requires BuildKids(os, n, used, m, vs, true).Some?
    ensures
      var r := LookupIn(BuildKids(os, n, used, m, vs, true).value, x, w);
      if x in vs then BuildSub(os, n, used, m, x, true).Some? && r == Some(Lookup(BuildSub(os, n, used, m, x, true).value, w))
      else r == None
  {
    if vs != [] {
      KidsFind(os, n, used, m, vs[1..], x, w);
    }
  }

  /** A node's lookup is the lookup in the child for the value found. */
  lemma NodeFinds(os: seq<Opcode>, n: nat, used: Word, w: Word)
    requires AllSound(os, n) && |used| == 32 * n && Covered(used, os) && |os| > 1
    requires Build(os, n, used, true).Some?
    ensures
      var (m, t) := (NextMask(os, n, used), Build(os, n, used, true).value);
      && Fresh(m, os, n, used) && !IsZero(m)
      && if And(w, m) in Values(os, m) then
           var sub := BuildSub(os, n, used, m, And(w, m), true);
           sub.Some? && Lookup(t, w) == Lookup(sub.value, w)
         else Lookup(t, w) == Miss
  {
    var m := NextMask(os, n, used);
    NextMaskFresh(os, n, used);
    ValueListed(os, m, os[0]);
    TellsApart(os, m);
    KidsFind(os, n, used, m, Values(os, m), And(w, m), w);
    assert LookupOther(Build(os, n, used, true).value, w) == Miss;
  }

  lemma {:induction false} BuiltFinds(os: seq<Opcode>, n: nat, used: Word, w: Word, o: Opcode)
    requires AllSound(os, n) && |used| == |w| == 32 * n && Covered(used, os)
    requires Build(os, n, used, true).Some? && o in os && Agrees(w, o, used)
    ensures Lookup(Build(os, n, used, true).value, w) == Found(o.instr)
    decreases Unused(used)
  {
    if |os| == 1 {
      OneFinds(o, n, used, w);
    } else {
      var m := NextMask(os, n, used);
      NodeFinds(os, n, used, w);
      FreshShrinks(m, os, n, used);
      AgreesStep(w, o, used, m);
      ValueListed(os, m, o);
      GroupIs(os, m, And(w, m), o);
      GroupKeeps(os, m, And(w, m), Or(used, m), n);
      BuiltFinds(Group(os, m, And(w, m)), n, Or(used, m), w, o);
    }
  }

  /** What is found agrees, and else there is a miss. */
  lemma {:induction false} FoundAgrees(os: seq<Opcode>, n: nat, used: Word, w: Word) returns (o: Option<Opcode>)
    requires AllSound(os, n) && |used| == |w| == 32 * n && Covered(used, os)
    requires Build(os, n, used, true).Some? && os != []
    ensures
      var r := Lookup(Build(os, n, used, true).value, w);
      if o.Some? then o.value in os && Agrees(w, o.value, used) && r == Found(o.value.instr) else r == Miss
    decreases Unused(used)
  {
    if |os| == 1 {
      OneFinds(os[0], n, used, w);
      o := if Agrees(w, os[0], used) then Some(os[0]) else None;
    } else {
      var m := NextMask(os, n, used);
      NodeFinds(os, n, used, w);
      FreshShrinks(m, os, n, used);
      if And(w, m) in Values(os, m) {
        var g := Group(os, m, And(w, m));
        var first := ValueHas(os, m, And(w, m));
        GroupIs(os, m, And(w, m), first);
        GroupKeeps(os, m, And(w, m), Or(used, m), n);
        o := FoundAgrees(g, n, Or(used, m), w);
        if o.Some? {
          GroupIs(os, m, And(w, m), o.value);
          AgreesStep(w, o.value, used, m);
        }
      } else {
        o := None;
      }
    }
  }

  // ----- a built tree is one the generator can take -----

  lemma {:induction false} OneOk(o: Opcode, n: nat, used: Word)
    requires Sound(o, n) && |used| == 32 * n && Within(used, o.mask)
    ensures TreeOk(BuildOne(o, n, used, true), n) && PathOk(BuildOne(o, n, used, true), used, n)
    decreases Unused(used)
  {
    var m := NextMask([o], n, used);
    NextMaskFresh([o], n, used);
    FreshShrinks(m, [o], n, used);
    if !IsZero(m) {
      OneOk(o, n, Or(used, m));
      assert KeysOk(NoKid, m) && KidsOk(NoKid, n) && KidsPathOk(NoKid, Or(used, m), n);
    }
  }

  lemma {:induction false} KidsKeys(os: seq<Opcode>, n: nat, used: Word, m: Word, vs: seq<Word>, fill: bool)
    requires AllSound(os, n) && Fresh(m, os, n, used) && (vs != [] ==> !IsZero(m))
    requires BuildKids(os, n, used, m, vs, fill).Some? && Distinct(vs) && forall v :: v in vs ==> Within(v, m)
    ensures
      var kids := BuildKids(os, n, used, m, vs, fill).value;
      KeysOk(kids, m) && forall v :: v in Keys(kids) <==> v in vs
  {
    if vs != [] {
      assert vs[0] !in vs[1..];
      KidsKeys(os, n, used, m, vs[1..], fill);
    }
  }

  lemma {:induction false} ValuesWithin(os: seq<Opcode>, mask: Word)
    ensures forall v :: v in Values(os, mask) ==> Within(v, mask)
  {
    if os != [] {
      ValuesWithin(Front(os), mask);
    }
  }

  lemma {:induction false} BuiltOk(os: seq<Opcode>, n: nat, used: Word)
    requires AllSound(os, n) && |used| == 32 * n && Covered(used, os)
    requires Build(os, n, used, true).Some? && os != []
    ensures
      var t := Build(os, n, used, true).value;
      TreeOk(t, n) && PathOk(t, used, n)
    decreases Unused(used), 1, 0
  {
    if |os| == 1 {
      OneOk(os[0], n, used);
    } else {
      var m := NextMask(os, n, used);
      NodeFinds(os, n, used, Zeros(32 * n));
      FreshShrinks(m, os, n, used);
      ValueListed(os, m, os[0]);
      ValuesDistinct(os, m);
      ValuesWithin(os, m);
      KidsKeys(os, n, used, m, Values(os, m), true);
      BuiltKidsOk(os, n, used, m, Values(os, m));
    }
  }

  lemma {:induction false} BuiltKidsOk(os: seq<Opcode>, n: nat, used: Word, m: Word, vs: seq<Word>)
    requires AllSound(os, n) && Fresh(m, os, n, used) && !IsZero(m) && forall v :: v in vs ==> v in Values(os, m)
    requires BuildKids(os, n, used, m, vs, true).Some?
    ensures
      var kids := BuildKids(os, n, used, m, vs, true).value;
      KidsOk(kids, n) && KidsPathOk(kids, Or(used, m), n)
    decreases Unused(used), 0, |vs|
  {
    if vs != [] {
      var first := ValueHas(os, m, vs[0]);
      GroupIs(os, m, vs[0], first);
      FreshShrinks(m, os, n, used);
      GroupKeeps(os, m, vs[0], Or(used, m), n);
      BuiltOk(Group(os, m, vs[0]), n, Or(used, m));
      BuiltKidsOk(os, n, used, m, vs[1..]);
    }
  }

  // ----- putting the instructions in: add_instr_internal, add_instrs -----

  /** No default tables: the part of the builder modelled here makes none. */
  ghost predicate Plain(t: Tree)
    decreases t
  {
    t.other.NoTable? && PlainKids(t.kids)
  }

  ghost predicate PlainKids(kids: Kids)
    decreases kids
  {
    kids.Kid? ==> Plain(kids.sub) && PlainKids(kids.more)
  }

  /** An instruction without opcode bits, or whose leaf is taken, is an error. */
  function Insert(t: Tree, o: Opcode): (r: Result<Tree>)
    requires Plain(t)
    ensures r.Ok? ==> Plain(r.value)
    decreases t
  {
    if IsZero(o.mask) then Error
    else if t.kids.NoKid? then
      if t.instr.Some? then Error else Ok(t.(instr := Some(o.instr)))
    else if IsZero(And(t.mask, o.mask)) then Ok(t.(instr := Some(o.instr)))
    else
      var r := InsertKid(t.kids, And(t.mask, o.value), o);
      if r.Error? then Error else Ok(t.(kids := r.value))
  }

  /** A missing child is added, as a leaf. */
  function InsertKid(kids: Kids, key: Word, o: Opcode): (r: Result<Kids>)
    requires PlainKids(kids)
    ensures r.Ok? ==> PlainKids(r.value) && r.value.Kid?
    decreases kids
  {
    match kids
    case NoKid => Ok(Kid(key, Tree(Zeros(|key|), NoKid, NoTable, Some(o.instr)), NoKid))
    case Kid(k, sub, more) =>
      if k == key then
        var r := Insert(sub, o);
        if r.Error? then Error else Ok(Kid(k, r.value, more))
      else
        var r := InsertKid(more, key, o);
        if r.Error? then Error else Ok(Kid(k, sub, r.value))
  }

  function InsertAll(t: Tree, os: seq<Opcode>): (r: Result<Tree>)
    requires Plain(t)
    ensures r.Ok? ==> Plain(r.value)
    decreases |os|
  {
    if os == [] then Ok(t)
    else
      var r := Insert(t, os[0]);
      if r.Error? then Error else InsertAll(r.value, os[1..])
  }

  function InsertKids(kids: Kids, mask: Word, os: seq<Opcode>): Result<Kids>
    requires PlainKids(kids)
    decreases |os|
  {
    if os == [] then Ok(kids)
    else
      var r := InsertKid(kids, And(mask, os[0].value), os[0]);
      if r.Error? then Error else InsertKids(r.value, mask, os[1..])
  }

  /** Every child given its own instructions. */
  function FillKids(kids: Kids, mask: Word, os: seq<Opcode>): Result<Kids>
    requires PlainKids(kids)
    decreases kids
  {
    match kids
    case NoKid => Ok(NoKid)
    case Kid(k, sub, more) =>
      var (r, rs) := (InsertAll(sub, Group(os, mask, k)), FillKids(more, mask, os));
      if r.Error? || rs.Error? then Error else Ok(Kid(k, r.value, rs.value))
  }

  lemma {:induction false} NodeInserts(t: Tree, os: seq<Opcode>)
    requires Plain(t) && t.kids.Kid?
    requires forall o :: o in os ==> !IsZero(o.mask) && !IsZero(And(t.mask, o.mask))
    ensures
      var r := InsertKids(t.kids, t.mask, os);
      InsertAll(t, os) == if r.Error? then Error else Ok(t.(kids := r.value))
    decreases |os|
  {
    if os != [] {
      var r := InsertKid(t.kids, And(t.mask, os[0].value), os[0]);
      assert os[0] in os;
      if r.Ok? {
        NodeInserts(t.(kids := r.value), os[1..]);
      }
    }
  }

  /** An instruction that belongs to none of the children does not matter to them. */
  lemma {:induction false} FillSkips(kids: Kids, mask: Word, os: seq<Opcode>)
    requires PlainKids(kids) && os != [] && And(mask, os[0].value) !in Keys(kids)
    ensures FillKids(kids, mask, os) == FillKids(kids, mask, os[1..])
    decreases kids
  {
    if kids.Kid? {
      assert Group(os, mask, kids.key) == Group(os[1..], mask, kids.key);
      FillSkips(kids.more, mask, os);
    }
  }

  lemma {:induction false} FillStep(kids: Kids, mask: Word, os: seq<Opcode>)
    requires PlainKids(kids) && KeysOk(kids, mask) && os != [] && And(mask, os[0].value) in Keys(kids)
    requires FillKids(kids, mask, os).Ok?
    ensures
      var r := InsertKid(kids, And(mask, os[0].value), os[0]);
      && r.Ok? && KeysOk(r.value, mask) && Keys(r.value) == Keys(kids)
      && FillKids(r.value, mask, os[1..]) == FillKids(kids, mask, os)
    decreases kids
  {
    var key := And(mask, os[0].value);
    if kids.key == key {
      assert Group(os, mask, key) == [os[0]] + Group(os[1..], mask, key);
      assert Group(os, mask, key)[1..] == Group(os[1..], mask, key);
      FillSkips(kids.more, mask, os);
    } else {
      assert Group(os, mask, kids.key) == Group(os[1..], mask, kids.key);
      FillStep(kids.more, mask, os);
    }
  }

  lemma {:induction false} FillNone(kids: Kids, mask: Word)
    requires PlainKids(kids)
    ensures FillKids(kids, mask, []) == Ok(kids)
    decreases kids
  {
    if kids.Kid? {
      FillNone(kids.more, mask);
    }
  }

  /** Putting in all instructions in turn gives every child its own. */
  lemma {:induction false} InsertsApart(kids: Kids, mask: Word, os: seq<Opcode>)
    requires PlainKids(kids) && KeysOk(kids, mask) && FillKids(kids, mask, os).Ok?
    requires forall o :: o in os ==> And(mask, o.value) in Keys(kids)
    ensures InsertKids(kids, mask, os) == FillKids(kids, mask, os)
    decreases |os|
  {
    if os == [] {
      FillNone(kids, mask);
    } else {
      assert os[0] in os;
      FillStep(kids, mask, os);
      InsertsApart(InsertKid(kids, And(mask, os[0].value), os[0]).value, mask, os[1..]);
    }
  }

  lemma {:induction false} OneFills(o: Opcode, n: nat, used: Word)
    requires Sound(o, n) && |used| == 32 * n && Within(used, o.mask) && !IsZero(o.mask)
    ensures
      var t := BuildOne(o, n, used, false);
      Plain(t) && Insert(t, o) == Ok(BuildOne(o, n, used, true))
    decreases Unused(used)
  {
    var m := NextMask([o], n, used);
    NextMaskFresh([o], n, used);
    FreshShrinks(m, [o], n, used);
    if !IsZero(m) {
      assert o in [o];
      Meets(m, o);
      OneFills(o, n, Or(used, m));
      assert PlainKids(NoKid);
    }
  }

  lemma Meets(m: Word, o: Opcode)
    requires Within(m, o.mask) && !IsZero(m)
    ensures !IsZero(And(m, o.mask)) && !IsZero(o.mask)
  {
    var k :| 0 <= k < |m| && m[k];
    assert And(m, o.mask)[k];
  }

  ghost predicate AllOpcodes(os: seq<Opcode>) { forall o :: o in os ==> !IsZero(o.mask) }

  lemma {:induction false} BuiltFills(os: seq<Opcode>, n: nat, used: Word)
    requires AllSound(os, n) && |used| == 32 * n && Covered(used, os) && AllOpcodes(os)
    requires Build(os, n, used, false).Some?
    ensures
      var (t, u) := (Build(os, n, used, false).value, Build(os, n, used, true));
      u.Some? && Plain(t) && InsertAll(t, os) == Ok(u.value)
    decreases Unused(used), 2, 0
  {
    if |os| == 1 {
      OneFills(os[0], n, used);
      assert os[1..] == [];
    } else {
      NextMaskFresh(os, n, used);
      var m := NextMask(os, n, used);
      if os != [] {
        NodeFills(os, n, used, m);
      }
    }
  }

  lemma {:induction false} NodeFills(os: seq<Opcode>, n: nat, used: Word, m: Word)
    requires AllSound(os, n) && |used| == 32 * n && Covered(used, os) && AllOpcodes(os) && |os| > 1
    requires m == NextMask(os, n, used) && Fresh(m, os, n, used) && Build(os, n, used, false).Some?
    ensures
      var (t, u) := (Build(os, n, used, false).value, Build(os, n, used, true));
      u.Some? && Plain(t) && InsertAll(t, os) == Ok(u.value)
    decreases Unused(used), 1, |os|
  {
    var (vs, t) := (Values(os, m), Build(os, n, used, false).value);
    ValueListed(os, m, os[0]);
    TellsApart(os, m);
    KidsFill(os, n, used, m, vs);
    ValuesDistinct(os, m);
    ValuesWithin(os, m);
    KidsKeys(os, n, used, m, vs, false);
    forall o | o in os
      ensures And(m, o.value) in Keys(t.kids) && !IsZero(And(m, o.mask))
    {
      ValueListed(os, m, o);
      Meets(m, o);
    }
    InsertsApart(t.kids, m, os);
    NodeInserts(t, os);
  }

  lemma {:induction false} KidsFill(os: seq<Opcode>, n: nat, used: Word, m: Word, vs: seq<Word>)
    requires AllSound(os, n) && Fresh(m, os, n, used) && !IsZero(m) && AllOpcodes(os)
    requires BuildKids(os, n, used, m, vs, false).Some?
    ensures
      var (kids, u) := (BuildKids(os, n, used, m, vs, false).value, BuildKids(os, n, used, m, vs, true));
      u.Some? && PlainKids(kids) && FillKids(kids, m, os) == Ok(u.value)
    decreases Unused(used), 0, |vs|
  {
    if vs != [] {
      FreshShrinks(m, os, n, used);
      GroupKeeps(os, m, vs[0], Or(used, m), n);
      forall o | o in Group(os, m, vs[0])
        ensures !IsZero(o.mask)
      {
        GroupIs(os, m, vs[0], o);
      }
      BuiltFills(Group(os, m, vs[0]), n, Or(used, m));
      KidsFill(os, n, used, m, vs[1..]);
    }
  }

  lemma {:induction false} OnePlain(o: Opcode, n: nat, used: Word)
    requires Sound(o, n) && |used| == 32 * n && Within(used, o.mask)
    ensures Plain(BuildOne(o, n, used, false))
    decreases Unused(used)
  {
    var m := NextMask([o], n, used);
    NextMaskFresh([o], n, used);
    FreshShrinks(m, [o], n, used);
    if !IsZero(m) {
      OnePlain(o, n, Or(used, m));
      assert PlainKids(NoKid);
    }
  }

  /** Where several instructions are told apart, each has opcode bits. */
  lemma TopIsPlain(os: seq<Opcode>, n: nat)
    requires AllSound(os, n) && Build(os, n, Zeros(32 * n), false).Some?
    ensures Plain(Build(os, n, Zeros(32 * n), false).value)
    ensures |os| != 1 ==> AllOpcodes(os)
  {
    var used := Zeros(32 * n);
    if |os| == 1 {
      OnePlain(os[0], n, used);
    } else {
      var m := NextMask(os, n, used);
      NextMaskFresh(os, n, used);
      if os != [] {
        ValueListed(os, m, os[0]);
        TellsApart(os, m);
        forall o | o in os
          ensures !IsZero(o.mask)
        {
          Meets(m, o);
        }
      }
      BuiltFills(os, n, used);
    }
  }

  /** The whole table: first the empty tree, then the instructions; `None` as for `Build`. */
  function AddInstrs(os: seq<Opcode>, n: nat): Option<Result<Tree>>
    requires AllSound(os, n)
  {
    var t := Build(os, n, Zeros(32 * n), false);
    if t.None? then None else TopIsPlain(os, n); Some(InsertAll(t.value, os))
  }

  /** Only a lone instruction without opcode bits is an error; else the tree is the one with its leaves filled. */
  lemma TableIsBuilt(os: seq<Opcode>, n: nat)
    requires AllSound(os, n) && AddInstrs(os, n).Some?
    ensures
      var (r, u) := (AddInstrs(os, n).value, Build(os, n, Zeros(32 * n), true));
      if |os| == 1 && IsZero(os[0].mask) then r == Error else u.Some? && r == Ok(u.value)
  {
    TopIsPlain(os, n);
    if |os| != 1 || !IsZero(os[0].mask) {
      BuiltFills(os, n, Zeros(32 * n));
    }
  }

  // ----- from opcodes to the emitted decoder -----

  /** `w` has the opcode of `o`. */
  ghost predicate Matches(w: Word, o: Opcode) { Agrees(w, o, Zeros(|w|)) }

  /** `r` is the instruction whose opcode `w` has, and `miss` if there is none. */
  ghost predicate Selects(os: seq<Opcode>, w: Word, r: Outcome, miss: Outcome) {
    && (forall o :: o in os && Matches(w, o) ==> r == Found(o.instr))
    && (r == miss || exists o :: o in os && Matches(w, o) && r == Found(o.instr))
  }

  lemma TableSelects(os: seq<Opcode>, n: nat, w: Word)
    requires AllSound(os, n) && AddInstrs(os, n).Some? && AddInstrs(os, n).value.Ok? && os != [] && |w| == 32 * n
    ensures
      var t := AddInstrs(os, n).value.value;
      TreeOk(t, n) && PathOk(t, Zeros(32 * n), n) && Selects(os, w, Lookup(t, w), Miss)
  {
    var used := Zeros(32 * n);
    TableIsBuilt(os, n);
    BuiltOk(os, n, used);
    forall o | o in os && Matches(w, o)
      ensures Lookup(Build(os, n, used, true).value, w) == Found(o.instr)
    {
      BuiltFinds(os, n, used, w, o);
    }
    var o := FoundAgrees(os, n, used, w);
    assert o.Some? ==> Matches(w, o.value);
  }

  /** In an accepted table no word has the opcodes of two instructions. */
  lemma NoOverlap(os: seq<Opcode>, n: nat, w: Word, a: Opcode, b: Opcode)
    requires AllSound(os, n) && AddInstrs(os, n).Some? && AddInstrs(os, n).value.Ok? && |w| == 32 * n
    requires a in os && b in os && Matches(w, a) && Matches(w, b)
    ensures a.instr == b.instr
  {
    TableSelects(os, n, w);
  }

  lemma SelectsReported(c: Config, os: seq<Opcode>, w: Word, r: Outcome)
    requires Selects(os, w, r, Miss)
    ensures Selects(os, w, Reported(c, r), Reported(c, Miss))
  {
  }

  /** The decoder emitted for the finished table enters the instruction whose opcode the stream starts with. */
  lemma DecoderSelects(c: Config, os: seq<Opcode>, f: seq<Word>)
    requires c.pb == 0 && 0 < c.n <= |f| && Words32(f)
    requires AllSound(os, c.n) && AddInstrs(os, c.n).Some? && AddInstrs(os, c.n).value.Ok? && os != []
    ensures
      var u := Finalise(AddInstrs(os, c.n).value.value, c.n);
      && u.Some?
      && var ran := Run(c.pb, Emit(c, u.value, 1, 1), f, f, Flat(f));
         ran.Ran? && Selects(os, Slice(Flat(f), 0, 32 * c.n), ran.outcome, Reported(c, Miss))
  {
    var (t, w) := (AddInstrs(os, c.n).value.value, Slice(Flat(f), 0, 32 * c.n));
    TableSelects(os, c.n, w);
    FinalisedCodeRefines(c, t, f);
    SelectsReported(c, os, w, Lookup(t, w));
  }

  /** The same with prefix bits in front. */
  lemma PrefixedDecoderSelects(c: Config, os: seq<Opcode>, instrs: seq<PrefixInstr>, little: bool, f: seq<Word>)
    requires c.Funnels() && c.pb < 32 && 0 < c.n <= |f| && Words32(f)
    requires AllSound(os, c.n) && AddInstrs(os, c.n).Some? && AddInstrs(os, c.n).value.Ok? && os != []
    requires PrefixShift(instrs, little) == c.pb
    requires var p := FirstPseudo(instrs); p.Some? ==> PrefixInFront(p.value, little) && Values32(p.value.fields)
    ensures
      var (stmts, u) := (PrefixCode(instrs, little), Finalise(AddInstrs(os, c.n).value.value, c.n));
      var (start, stream) := (Started(c.pb, c.n, stmts, f), StreamOf(c.pb, stmts, f));
      && u.Some? && start.Some?
      && var ran := Run(c.pb, Emit(c, u.value, 1, 1), start.value, f, stream);
         ran.Ran? && Selects(os, Slice(stream, 0, 32 * c.n), ran.outcome, Reported(c, Miss))
  {
    var (t, w) := (AddInstrs(os, c.n).value.value, Slice(StreamOf(c.pb, PrefixCode(instrs, little), f), 0, 32 * c.n));
    TableSelects(os, c.n, w);
    FinalisedPrefixedCodeRefines(c, t, instrs, little, f);
    SelectsReported(c, os, w, Lookup(t, w));
  }

  // ----- one opcode field: when the table can be built this way -----

  ghost predicate SameMask(os: seq<Opcode>, m: Word) { forall o :: o in os ==> o.mask == m }

  ghost predicate Apart(os: seq<Opcode>) { forall i, j :: 0 <= i < j < |os| ==> os[i].value != os[j].value }

  lemma {:induction false} SplitWhole(m: Word, n: nat, word: nat)
    requires OneWord(m, n) && word <= n
    requires ClearBelow(m, word)
    ensures Split(m, n, word) == m
    decreases n - word
  {
    if word < n {
      if IsZero(Only(m, word)) {
        assert forall k :: 32 * word <= k < 32 * word + 32 ==> !Only(m, word)[k];
        SplitWhole(m, n, word + 1);
      } else {
        WholeWord(m, n, word);
      }
    }
  }

  lemma WholeWord(m: Word, n: nat, word: nat)
    requires OneWord(m, n) && word < n && !IsZero(Only(m, word))
    ensures Only(m, word) == m
  {
    var b :| 0 <= b < |m| && Only(m, word)[b];
    assert WordAt(m, word)[b - 32 * word];
    assert word == LastWord(m, n);
    forall k | 0 <= k < |m| && m[k]
      ensures Only(m, word)[k]
    {
      assert WordAt(m, k / 32)[k % 32];
    }
  }

  lemma SameMaskNext(os: seq<Opcode>, n: nat, m: Word)
    requires AllSound(os, n) && os != [] && SameMask(os, m) && OneWord(m, n)
    ensures NextMask(os, n, Zeros(32 * n)) == m && IsZero(NextMask(os, n, m))
  {
    assert os[0] in os;
    assert Common(os, n) == m;
    assert Xor(Zeros(32 * n), m) == m;
    SplitWhole(m, n, 0);
    SplitFrom(Xor(m, m), n, 0);
  }

  lemma WholeValue(o: Opcode, m: Word)
    requires Within(o.value, m)
    ensures And(m, o.value) == o.value
  {
  }

  lemma {:induction false} ApartGroup(os: seq<Opcode>, m: Word, v: Word)
    requires Apart(os) && forall o :: o in os ==> Within(o.value, m)
    ensures |Group(os, m, v)| <= 1
  {
    if os != [] {
      var g := Group(os[1..], m, v);
      ApartGroup(os[1..], m, v);
      if And(m, os[0].value) == v && g != [] {
        GroupIs(os[1..], m, v, g[0]);
        WholeValue(os[0], m);
        WholeValue(g[0], m);
      }
    }
  }

  lemma {:induction false} TwiceGroup(os: seq<Opcode>, m: Word, v: Word, i: nat, j: nat)
    requires i < j < |os| && And(m, os[i].value) == v && And(m, os[j].value) == v
    ensures |Group(os, m, v)| > 1
  {
    if i == 0 {
      assert os[j] in os[1..];
      GroupIs(os[1..], m, v, os[j]);
    } else {
      TwiceGroup(os[1..], m, v, i - 1, j - 1);
    }
  }

  /** Several instructions and nothing left to test. */
  lemma Stuck(os: seq<Opcode>, n: nat, m: Word, fill: bool)
    requires AllSound(os, n) && |os| > 1 && SameMask(os, m) && OneWord(m, n)
    ensures Covered(m, os) && Build(os, n, m, fill) == None
  {
    SameMaskNext(os, n, m);
    OneValue(os, NextMask(os, n, m));
    ValueListed(os, NextMask(os, n, m), os[0]);
  }

  lemma {:induction false} StuckKid(os: seq<Opcode>, n: nat, used: Word, m: Word, vs: seq<Word>, v: Word, fill: bool)
    requires AllSound(os, n) && Fresh(m, os, n, used) && !IsZero(m)
    requires v in vs && BuildSub(os, n, used, m, v, fill) == None
    ensures BuildKids(os, n, used, m, vs, fill) == None
  {
    if v != vs[0] {
      StuckKid(os, n, used, m, vs[1..], v, fill);
    }
  }

  lemma LoneSub(os: seq<Opcode>, n: nat, used: Word, m: Word, v: Word, fill: bool)
    requires AllSound(os, n) && Fresh(m, os, n, used) && !IsZero(m) && |Group(os, m, v)| == 1
    ensures BuildSub(os, n, used, m, v, fill).Some?
  {
    FreshShrinks(m, os, n, used);
    GroupKeeps(os, m, v, Or(used, m), n);
    assert Build(Group(os, m, v), n, Or(used, m), fill).Some?;
  }

  lemma {:induction false} LoneKids(os: seq<Opcode>, n: nat, used: Word, m: Word, vs: seq<Word>, fill: bool)
    requires AllSound(os, n) && Fresh(m, os, n, used) && !IsZero(m)
    requires forall v :: v in vs ==> |Group(os, m, v)| == 1
    ensures BuildKids(os, n, used, m, vs, fill).Some?
  {
    if vs != [] {
      LoneSub(os, n, used, m, vs[0], fill);
      LoneKids(os, n, used, m, vs[1..], fill);
    }
  }

  lemma AllLone(os: seq<Opcode>, m: Word)
    requires Apart(os) && forall o :: o in os ==> Within(o.value, m)
    ensures forall v :: v in Values(os, m) ==> |Group(os, m, v)| == 1
  {
    forall v | v in Values(os, m)
      ensures |Group(os, m, v)| == 1
    {
      var o := ValueHas(os, m, v);
      GroupIs(os, m, v, o);
      ApartGroup(os, m, v);
    }
  }

  lemma TwoValues(os: seq<Opcode>, m: Word)
    requires |os| > 1 && Apart(os) && forall o :: o in os ==> Within(o.value, m)
    ensures |Values(os, m)| > 1
  {
    ValueListed(os, m, os[0]);
    ValueListed(os, m, os[1]);
    WholeValue(os[0], m);
    WholeValue(os[1], m);
    assert os[0].value != os[1].value;
  }

  lemma ApartBuilds(os: seq<Opcode>, n: nat, m: Word, fill: bool)
    requires AllSound(os, n) && |os| > 1 && SameMask(os, m) && OneWord(m, n) && Apart(os)
    ensures Covered(Zeros(32 * n), os) && Build(os, n, Zeros(32 * n), fill).Some?
  {
    SameMaskNext(os, n, m);
    NextMaskFresh(os, n, Zeros(32 * n));
    assert forall o :: o in os ==> Within(o.value, m);
    TwoValues(os, m);
    TellsApart(os, m);
    AllLone(os, m);
    LoneKids(os, n, Zeros(32 * n), m, Values(os, m), fill);
  }

  lemma SharedFails(os: seq<Opcode>, n: nat, m: Word, fill: bool, i: nat, j: nat)
    requires AllSound(os, n) && SameMask(os, m) && OneWord(m, n)
    requires i < j < |os| && os[i].value == os[j].value
    ensures Covered(Zeros(32 * n), os) && Build(os, n, Zeros(32 * n), fill) == None
  {
    SameMaskNext(os, n, m);
    NextMaskFresh(os, n, Zeros(32 * n));
    var (vs, v) := (Values(os, m), And(m, os[i].value));
    ValueListed(os, m, os[i]);
    if |vs| != 1 {
      TellsApart(os, m);
      TwiceGroup(os, m, v, i, j);
      GroupKeeps(os, m, v, m, n);
      SameMaskGroup(os, m, v);
      assert Or(Zeros(32 * n), m) == m;
      Stuck(Group(os, m, v), n, m, fill);
      StuckKid(os, n, Zeros(32 * n), m, vs, v, fill);
    }
  }

  lemma SameMaskGroup(os: seq<Opcode>, m: Word, v: Word)
    requires SameMask(os, m)
    ensures SameMask(Group(os, m, v), m)
  {
    forall o | o in Group(os, m, v)
      ensures o.mask == m
    {
      GroupIs(os, m, v, o);
    }
  }

  /** With one opcode field within a word, the table is built exactly when no two opcodes are the same. */
  lemma OneFieldBuilds(os: seq<Opcode>, n: nat, m: Word)
    requires AllSound(os, n) && os != [] && SameMask(os, m) && OneWord(m, n)
    ensures AddInstrs(os, n).Some? <==> Apart(os)
  {
    if |os| > 1 {
      if Apart(os) {
        ApartBuilds(os, n, m, false);
      } else {
        var i, j :| 0 <= i < j < |os| && os[i].value == os[j].value;
        SharedFails(os, n, m, false, i, j);
      }
    }
  }
}
