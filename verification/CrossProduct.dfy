/**
 Sub-instruction groups: an instruction that names groups stands for one instruction per
 combination of their members.  Names come from a recursive cross product, the combinations
 themselves from an odometer of iterators.
 */
module CrossProduct {
  import opened Basics

  type Groups = seq<seq<string>>
  type Combo = seq<nat>  // one member index per group

  // ----- the reference: all combinations in lexicographic order -----

  function Prefixed(i: nat, cs: seq<Combo>): (r: seq<Combo>)
    ensures |r| == |cs| && forall k :: 0 <= k < |cs| ==> r[k] == [i] + cs[k]
  {
    seq(|cs|, k requires 0 <= k < |cs| => [i] + cs[k])
  }

  /** Members `i ..` of a group of `n`, each followed by every combination of the rest. */
  function Blocks(i: nat, n: nat, rest: seq<Combo>): seq<Combo>
    decreases n - i
  {
    if i >= n then [] else Prefixed(i, rest) + Blocks(i + 1, n, rest)
  }

  function Cross(groups: Groups): seq<Combo> {
    if groups == [] then [[]] else Blocks(0, |groups[0]|, Cross(groups[1..]))
  }

  ghost predicate IsCombo(c: Combo, groups: Groups) {
    |c| == |groups| && forall i :: 0 <= i < |c| ==> c[i] < |groups[i]|
  }

  lemma {:induction false} BlocksMembers(i: nat, n: nat, rest: seq<Combo>, c: Combo)
    ensures c in Blocks(i, n, rest) <==> c != [] && i <= c[0] < n && c[1..] in rest
    decreases n - i
  {
    if i < n {
      BlocksMembers(i + 1, n, rest, c);
      var p := Prefixed(i, rest);
      if c in p {
        var k :| 0 <= k < |p| && p[k] == c;
        assert c[1..] == rest[k];
      }
      if c != [] && c[0] == i && c[1..] in rest {
        var k :| 0 <= k < |rest| && rest[k] == c[1..];
        assert p[k] == [i] + c[1..] == c;
      }
    }
  }

  /** Exactly the combinations occur. */
  lemma {:induction false} CrossComplete(groups: Groups, c: Combo)
    ensures c in Cross(groups) <==> IsCombo(c, groups)
  {
    if groups != [] {
      var rest := Cross(groups[1..]);
      BlocksMembers(0, |groups[0]|, rest, c);
      if c != [] {
        CrossComplete(groups[1..], c[1..]);
        if IsCombo(c[1..], groups[1..]) && c[0] < |groups[0]| {
          forall i | 0 <= i < |c|
            ensures c[i] < |groups[i]|
          {
            if i > 0 { assert c[1..][i - 1] < |groups[1..][i - 1]|; }
          }
        }
      }
    }
  }

  // ----- the odometer: the next combination -----

  /** The next combination, last member fastest; none after the last one. */
  function Succ(c: Combo, sizes: seq<nat>): (r: seq<Combo>)
    requires |c| == |sizes|
    ensures |r| <= 1 && (r != [] ==> |r[0]| == |c|)
  {
    if c == [] then []
    else if Last(c) + 1 < Last(sizes) then [Front(c) + [Last(c) + 1]]
    else
      var t := Succ(Front(c), Front(sizes));
      if t == [] then [] else [t[0] + [0]]
  }

  function Zeros(n: nat): (z: Combo)
    ensures |z| == n && forall i :: 0 <= i < n ==> z[i] == 0
  {
    seq(n, _ => 0)
  }

  /** A member in front: it moves on only when the rest has no next combination. */
  lemma {:induction false} SuccCons(i: nat, n: nat, c: Combo, sizes: seq<nat>)
    requires |c| == |sizes|
    ensures
      var r := Succ(c, sizes);
      Succ([i] + c, [n] + sizes) ==
      if r != [] then [[i] + r[0]] else if i + 1 < n then [[i + 1] + Zeros(|c|)] else []
  {
    var d, m := [i] + c, [n] + sizes;
    if c == [] {
      assert Front(d) == [] && Last(d) == i && Last(m) == n;
      assert Succ(Front(d), Front(m)) == [];
      assert Front(d) + [i + 1] == [i + 1] + Zeros(0);
    } else {
      assert Front(d) == [i] + Front(c) && Front(m) == [n] + Front(sizes);
      assert Last(d) == Last(c) && Last(m) == Last(sizes);
      SuccCons(i, n, Front(c), Front(sizes));
      if Last(c) + 1 < Last(sizes) {
        assert [i] + Front(c) + [Last(c) + 1] == [i] + (Front(c) + [Last(c) + 1]);
      } else {
        var t := Succ(Front(c), Front(sizes));
        if t != [] {
          assert ([i] + t[0]) + [0] == [i] + (t[0] + [0]);
        } else {
          assert ([i + 1] + Zeros(|c| - 1)) + [0] == [i + 1] + Zeros(|c|);
        }
      }
    }
  }

  function Sizes(groups: Groups): (s: seq<nat>)
    ensures |s| == |groups| && forall i :: 0 <= i < |s| ==> s[i] == |groups[i]|
  {
    seq(|groups|, i requires 0 <= i < |groups| => |groups[i]|)
  }

  /** Each element is followed by its successor. */
  ghost predicate Chain(cs: seq<Combo>, sizes: seq<nat>) {
    (forall k :: 0 <= k < |cs| ==> |cs[k]| == |sizes|) && forall k :: 0 < k < |cs| ==> Succ(cs[k - 1], sizes) == [cs[k]]
  }

  lemma ChainConcat(a: seq<Combo>, b: seq<Combo>, sizes: seq<nat>)
    requires Chain(a, sizes) && Chain(b, sizes) && a != [] && b != [] && Succ(Last(a), sizes) == [b[0]]
    ensures Chain(a + b, sizes)
  {
    var s := a + b;
    forall k | 0 < k < |s|
      ensures Succ(s[k - 1], sizes) == [s[k]]
    {
      if k > |a| {
        assert s[k - 1] == b[k - |a| - 1] && s[k] == b[k - |a|];
      }
    }
  }

  lemma PrefixedChain(i: nat, n: nat, rest: seq<Combo>, sizes: seq<nat>)
    requires Chain(rest, sizes)
    ensures Chain(Prefixed(i, rest), [n] + sizes)
  {
    var p := Prefixed(i, rest);
    forall k | 0 < k < |p|
      ensures Succ(p[k - 1], [n] + sizes) == [p[k]]
    {
      SuccCons(i, n, rest[k - 1], sizes);
    }
  }

  lemma {:induction false} BlocksChain(i: nat, n: nat, rest: seq<Combo>, sizes: seq<nat>)
    requires i < n && rest != [] && Chain(rest, sizes) && rest[0] == Zeros(|sizes|) && Succ(Last(rest), sizes) == []
    ensures
      var b := Blocks(i, n, rest);
      && b != [] && b[0] == [i] + rest[0] && Chain(b, [n] + sizes) && Succ(Last(b), [n] + sizes) == []
    decreases n - i
  {
    var p := Prefixed(i, rest);
    PrefixedChain(i, n, rest, sizes);
    SuccCons(i, n, Last(rest), sizes);
    if i + 1 < n {
      BlocksChain(i + 1, n, rest, sizes);
      ChainConcat(p, Blocks(i + 1, n, rest), [n] + sizes);
    } else {
      assert Blocks(i, n, rest) == p;
    }
  }

  ghost predicate AllNonEmpty(groups: Groups) { forall i :: 0 <= i < |groups| ==> groups[i] != [] }

  /** Stepping the odometer from all zeros runs through the cross product and then stops. */
  lemma {:induction false} CrossIsChain(groups: Groups)
    requires AllNonEmpty(groups)
    ensures
      var cs := Cross(groups);
      && cs != [] && cs[0] == Zeros(|groups|) && Chain(cs, Sizes(groups)) && Succ(Last(cs), Sizes(groups)) == []
  {
    if groups != [] {
      CrossIsChain(groups[1..]);
      var n, rest := |groups[0]|, Cross(groups[1..]);
      assert Sizes(groups) == [n] + Sizes(groups[1..]);
      BlocksChain(0, n, rest, Sizes(groups[1..]));
      assert [0] + Zeros(|groups| - 1) == Zeros(|groups|);
    }
  }

  // ----- the iterator array: Instr::expand_subinstructions -----

  /** The iterators hold the combination back to front: index 0 belongs to the last group. */
  function Shown(iters: seq<nat>): (c: Combo)
    ensures |c| == |iters| && forall i :: 0 <= i < |c| ==> c[i] == iters[|iters| - 1 - i]
  {
    seq(|iters|, i requires 0 <= i < |iters| => iters[|iters| - 1 - i])
  }

  /** The last `i` members are the last of their groups. */
  ghost predicate Exhausted(c: Combo, sizes: seq<nat>, i: nat) {
    i <= |c| == |sizes| && forall k :: |c| - i <= k < |c| ==> c[k] + 1 == sizes[k]
  }

  /** With the last `i` members exhausted, the next combination moves the member before them. */
  lemma {:induction false} SuccCarries(c: Combo, sizes: seq<nat>, i: nat)
    requires Exhausted(c, sizes, i)
    ensures i == |c| ==> Succ(c, sizes) == []
    ensures i < |c| && c[|c| - 1 - i] + 1 < sizes[|c| - 1 - i] ==>
              Succ(c, sizes) == [c[..|c| - 1 - i] + [c[|c| - 1 - i] + 1] + Zeros(i)]
  {
    if c == [] {
    } else if i == 0 {
      assert Front(c) + [Last(c) + 1] == c[..|c| - 1] + [c[|c| - 1] + 1] + Zeros(0);
    } else {
      assert Last(c) + 1 == Last(sizes);
      SuccCarries(Front(c), Front(sizes), i - 1);
      if i < |c| && c[|c| - 1 - i] + 1 < sizes[|c| - 1 - i] {
        assert Front(c)[..|c| - 1 - i] == c[..|c| - 1 - i];
        assert c[..|c| - 1 - i] + [c[|c| - 1 - i] + 1] + Zeros(i - 1) + [0]
            == c[..|c| - 1 - i] + [c[|c| - 1 - i] + 1] + Zeros(i);
      }
    }
  }

  /** Move the iterators to the next combination, if there is one. */
  method Advance(iters: array<nat>, sizes: seq<nat>)
    requires iters.Length == |sizes| && forall i :: 0 <= i < |sizes| ==> Shown(iters[..])[i] < sizes[i]
    modifies iters
    ensures
      var r := Succ(Shown(old(iters[..])), sizes);
      r != [] ==> Shown(iters[..]) == r[0]
  {
    ghost var c := Shown(iters[..]);
    var n := iters.Length;
    for i := 0 to n
      invariant Exhausted(c, sizes, i)
      invariant forall k :: i <= k < n ==> iters[k] == old(iters[k])
    {
      SuccCarries(c, sizes, i);
      assert c[n - 1 - i] == iters[i];
      iters[i] := iters[i] + 1;
      if iters[i] != sizes[n - 1 - i] {
        for k := 0 to i
          invariant forall j :: 0 <= j < k ==> iters[j] == 0
          invariant iters[i] == old(iters[i]) + 1 && forall j :: i < j < n ==> iters[j] == old(iters[j])
        {
          iters[k] := 0;
        }
        CarriedIs(c, iters[..], i);
        return;
      }
    }
    SuccCarries(c, sizes, n);
  }

  lemma CarriedIs(c: Combo, now: seq<nat>, i: nat)
    requires |now| == |c| && i < |c|
    requires forall j :: 0 <= j < i ==> now[j] == 0
    requires now[i] == c[|c| - 1 - i] + 1 && forall j :: i < j < |c| ==> now[j] == c[|c| - 1 - j]
    ensures Shown(now) == c[..|c| - 1 - i] + [c[|c| - 1 - i] + 1] + Zeros(i)
  {
    var x, y := Shown(now), c[..|c| - 1 - i] + [c[|c| - 1 - i] + 1] + Zeros(i);
    forall k | 0 <= k < |c|
      ensures x[k] == y[k]
    {
    }
  }

  function Product(groups: Groups): nat { if groups == [] then 1 else |groups[0]| * Product(groups[1..]) }

  lemma {:induction false} BlocksSize(i: nat, n: nat, rest: seq<Combo>)
    requires i <= n
    ensures |Blocks(i, n, rest)| == (n - i) * |rest|
    decreases n - i
  {
    if i < n {
      BlocksSize(i + 1, n, rest);
      assert (n - i) * |rest| == |rest| + (n - (i + 1)) * |rest|;
    }
  }

  lemma {:induction false} CrossSize(groups: Groups)
    ensures |Cross(groups)| == Product(groups)
  {
    if groups != [] {
      CrossSize(groups[1..]);
      BlocksSize(0, |groups[0]|, Cross(groups[1..]));
    }
  }

  lemma {:induction false} ProductPositive(groups: Groups)
    ensures Product(groups) > 0 <==> AllNonEmpty(groups)
  {
    if groups != [] {
      ProductPositive(groups[1..]);
      if AllNonEmpty(groups[1..]) && groups[0] != [] {
        forall i | 0 <= i < |groups|
          ensures groups[i] != []
        {
          if i > 0 { assert groups[1..][i - 1] != []; }
        }
        assert |groups[0]| * Product(groups[1..]) > 0;
      }
      if AllNonEmpty(groups) {
        assert groups[0] != [];
      }
    }
  }

  method CountCombos(groups: Groups) returns (count: nat)
    ensures count == Product(groups)
  {
    count := 1;
    var i := |groups|;
    while i > 0
      invariant 0 <= i <= |groups| && count == Product(groups[i..])
    {
      i := i - 1;
      assert groups[i..][1..] == groups[i + 1..];
      count := |groups[i]| * count;
    }
    assert groups[0..] == groups;
  }

  // ----- the names: compute_subinstr_names -----

  /** One name before every name of the rest; a rest without names counts as no rest. */
  function Joined(r: string, rest: seq<string>): (names: seq<string>)
    ensures |names| == if rest == [] then 1 else |rest|
  {
    if rest == [] then [r] else seq(|rest|, k requires 0 <= k < |rest| => r + rest[k])
  }

  function JoinAll(pfx: string, members: seq<string>, rest: seq<string>): seq<string> {
    if members == [] then [] else JoinAll(pfx, Front(members), rest) + Joined(pfx + "_" + Last(members), rest)
  }

  function Names(pfx: string, groups: Groups): seq<string>
    decreases groups
  {
    if groups == [] then [] else JoinAll(pfx, groups[0], Names("", groups[1..]))
  }

  method ComputeSubinstrNames(pfx: string, groups: Groups) returns (result: seq<string>)
    ensures result == Names(pfx, groups)
    decreases groups
  {
    if groups == [] { return []; }
    var rest := ComputeSubinstrNames("", groups[1..]);
    var cur := groups[0];
    result := [];
    for i := 0 to |cur|
      invariant result == JoinAll(pfx, cur[..i], rest)
    {
      assert Front(cur[..i + 1]) == cur[..i] && Last(cur[..i + 1]) == cur[i];
      var r := pfx + "_" + cur[i];
      var these := JoinOne(r, rest);
      result := result + these;
    }
    assert cur[..|cur|] == cur;
  }

  method JoinOne(r: string, rest: seq<string>) returns (these: seq<string>)
    ensures these == Joined(r, rest)
  {
    if rest == [] { return [r]; }
    these := [];
    for j := 0 to |rest|
      invariant these == Joined(r, rest)[..j]
    {
      these := these + [r + rest[j]];
    }
  }

  lemma {:induction false} JoinAllSize(pfx: string, members: seq<string>, rest: seq<string>)
    ensures |JoinAll(pfx, members, rest)| == |members| * if rest == [] then 1 else |rest|
  {
    if members != [] {
      JoinAllSize(pfx, Front(members), rest);
      var n := if rest == [] then 1 else |rest|;
      assert (|members| - 1) * n + n == |members| * n;
    }
  }

  /** There are names unless there is no group or the first group is empty. */
  lemma {:induction false} NamesEmptyIff(pfx: string, groups: Groups)
    ensures Names(pfx, groups) == [] <==> groups == [] || groups[0] == []
  {
    if groups != [] {
      var rest := Names("", groups[1..]);
      JoinAllSize(pfx, groups[0], rest);
      var n := if rest == [] then 1 else |rest|;
      assert |groups[0]| > 0 ==> |groups[0]| * n > 0;
    }
  }

  lemma {:induction false} NamesSize(pfx: string, groups: Groups)
    requires groups != [] && AllNonEmpty(groups)
    ensures |Names(pfx, groups)| == Product(groups)
    decreases groups
  {
    var rest := Names("", groups[1..]);
    JoinAllSize(pfx, groups[0], rest);
    NamesEmptyIff("", groups[1..]);
    if |groups| > 1 {
      assert groups[1..][0] == groups[1];
      NamesSize("", groups[1..]);
    }
  }

  /** The synthesised names are as many as the combinations exactly when no group but the first can be the empty one. */
  lemma NamesCountIff(pfx: string, groups: Groups)
    ensures |Names(pfx, groups)| == Product(groups) <==> groups != [] && (groups[0] == [] || AllNonEmpty(groups))
  {
    ProductPositive(groups);
    NamesEmptyIff(pfx, groups);
    if groups != [] && AllNonEmpty(groups) {
      NamesSize(pfx, groups);
    }
  }

  /** The name of one combination. */
  function Label(groups: Groups, c: Combo): string
    requires IsCombo(c, groups)
    decreases |groups|
  {
    if groups == [] then "" else "_" + groups[0][c[0]] + Label(groups[1..], c[1..])
  }

  ghost predicate NamedAs(pfx: string, names: seq<string>, cs: seq<Combo>, groups: Groups) {
    |names| == |cs| && forall k :: 0 <= k < |cs| ==> IsCombo(cs[k], groups) && names[k] == pfx + Label(groups, cs[k])
  }

  lemma NamedOne(pfx: string, i: nat, groups: Groups, rest: seq<string>, cs: seq<Combo>)
    requires groups != [] && i < |groups[0]| && rest != [] && NamedAs("", rest, cs, groups[1..])
    ensures NamedAs(pfx, Joined(pfx + "_" + groups[0][i], rest), Prefixed(i, cs), groups)
  {
    var names, p := Joined(pfx + "_" + groups[0][i], rest), Prefixed(i, cs);
    forall k | 0 <= k < |cs|
      ensures IsCombo(p[k], groups) && names[k] == pfx + Label(groups, p[k])
    {
      NamedEntry(pfx, i, groups, rest[k], cs[k]);
    }
  }

  lemma NamedEntry(pfx: string, i: nat, groups: Groups, name: string, c: Combo)
    requires groups != [] && i < |groups[0]| && IsCombo(c, groups[1..]) && name == "" + Label(groups[1..], c)
    ensures IsCombo([i] + c, groups) && (pfx + "_" + groups[0][i]) + name == pfx + Label(groups, [i] + c)
  {
    var d := [i] + c;
    assert d[1..] == c;
    assert IsCombo(d, groups) by {
      forall k | 0 <= k < |d|
        ensures d[k] < |groups[k]|
      {
        if k > 0 { assert c[k - 1] < |groups[1..][k - 1]|; }
      }
    }
    Regroup(pfx, "_", groups[0][i], Label(groups[1..], c));
    assert "" + Label(groups[1..], c) == Label(groups[1..], c);
  }

  lemma Regroup(a: string, b: string, c: string, d: string)
    ensures (a + b + c) + d == a + (b + c + d)
  {
  }

  lemma NamedConcat(pfx: string, a: seq<string>, b: seq<string>, cs: seq<Combo>, ds: seq<Combo>, groups: Groups,
                    names: seq<string>, all: seq<Combo>)
    requires NamedAs(pfx, a, cs, groups) && NamedAs(pfx, b, ds, groups) && names == a + b && all == cs + ds
    ensures NamedAs(pfx, names, all, groups)
  {
  }

  /** The blocks of the first `n` members. */
  lemma {:induction false} BlocksGrow(i: nat, n: nat, cs: seq<Combo>)
    requires i <= n
    ensures Blocks(i, n + 1, cs) == Blocks(i, n, cs) + Prefixed(n, cs)
    decreases n - i
  {
    if i < n {
      BlocksGrow(i + 1, n, cs);
      Reassociate(Prefixed(i, cs), Blocks(i + 1, n, cs), Prefixed(n, cs));
    } else {
      assert Blocks(n + 1, n + 1, cs) == [];
    }
  }

  lemma Reassociate(a: seq<Combo>, b: seq<Combo>, c: seq<Combo>)
    ensures a + (b + c) == (a + b) + c
  {
  }

  lemma JoinAllGrows(pfx: string, members: seq<string>, n: nat, rest: seq<string>)
    requires 0 < n <= |members|
    ensures JoinAll(pfx, members[..n], rest) ==
            JoinAll(pfx, members[..n - 1], rest) + Joined(pfx + "_" + members[n - 1], rest)
  {
    assert Front(members[..n]) == members[..n - 1] && Last(members[..n]) == members[n - 1];
  }

  /** The names and combinations of one more member. */
  lemma NamedStep(pfx: string, i: nat, groups: Groups, rest: seq<string>, cs: seq<Combo>,
                  names: seq<string>, done: seq<Combo>, more: seq<string>, all: seq<Combo>)
    requires groups != [] && i < |groups[0]| && rest != [] && NamedAs("", rest, cs, groups[1..])
    requires NamedAs(pfx, names, done, groups)
    requires more == names + Joined(pfx + "_" + groups[0][i], rest) && all == done + Prefixed(i, cs)
    ensures NamedAs(pfx, more, all, groups)
  {
    NamedOne(pfx, i, groups, rest, cs);
    NamedConcat(pfx, names, Joined(pfx + "_" + groups[0][i], rest), done, Prefixed(i, cs), groups, more, all);
  }

  lemma {:induction false} NamedBlocks(pfx: string, n: nat, groups: Groups, rest: seq<string>, cs: seq<Combo>)
    requires groups != [] && n <= |groups[0]| && rest != [] && NamedAs("", rest, cs, groups[1..])
    ensures NamedAs(pfx, JoinAll(pfx, groups[0][..n], rest), Blocks(0, n, cs), groups)
  {
    if n > 0 {
      var m := n - 1;
      NamedBlocks(pfx, m, groups, rest, cs);
      JoinAllGrows(pfx, groups[0], n, rest);
      BlocksGrow(0, m, cs);
      NamedStep(pfx, m, groups, rest, cs, JoinAll(pfx, groups[0][..m], rest), Blocks(0, m, cs),
                JoinAll(pfx, groups[0][..n], rest), Blocks(0, n, cs));
    }
  }

  /** A single group: the empty rest stands for the single empty name. */
  lemma {:induction false} JoinSingle(pfx: string, members: seq<string>)
    ensures JoinAll(pfx, members, []) == JoinAll(pfx, members, [""])
  {
    if members != [] {
      JoinSingle(pfx, Front(members));
      assert pfx + "_" + Last(members) + "" == pfx + "_" + Last(members);
    }
  }

  /** The recursive names and the cross product agree entry by entry. */
  lemma {:induction false} NamesAreCross(pfx: string, groups: Groups)
    requires groups != [] && AllNonEmpty(groups)
    ensures NamedAs(pfx, Names(pfx, groups), Cross(groups), groups)
    decreases groups
  {
    var rest, cs := Names("", groups[1..]), Cross(groups[1..]);
    assert groups[0][..|groups[0]|] == groups[0];
    if |groups| == 1 {
      JoinSingle(pfx, groups[0]);
      NamedBlocks(pfx, |groups[0]|, groups, [""], cs);
    } else {
      NamesAreCross("", groups[1..]);
      NamesEmptyIff("", groups[1..]);
      assert groups[1..][0] == groups[1];
      NamedBlocks(pfx, |groups[0]|, groups, rest, cs);
    }
  }

  // ----- Instr::expand_subinstructions -----

  type Generated = seq<(string, Combo)>

  /** The first `n` names with their combinations, the reserved ones left out. */
  function Keep(names: seq<string>, cs: seq<Combo>, n: nat): Generated
    requires n <= |names| && n <= |cs|
  {
    if n == 0 then []
    else Keep(names, cs, n - 1) + if names[n - 1] == "reserved" then [] else [(names[n - 1], cs[n - 1])]
  }

  /** Where the loop stands: the iterators show the combination `id` unless all are visited. */
  ghost predicate AtCombo(all: seq<Combo>, id: nat, shown: Combo) { id < |all| ==> all[id] == shown }

  lemma AtStart(groups: Groups)
    ensures AtCombo(Cross(groups), 0, Zeros(|groups|))
  {
    CrossSize(groups);
    ProductPositive(groups);
    if AllNonEmpty(groups) { CrossIsChain(groups); }
  }

  lemma AtNext(groups: Groups, all: seq<Combo>, id: nat, shown: Combo)
    requires all == Cross(groups) && AtCombo(all, id, shown) && id < |all|
    ensures IsCombo(shown, groups)
    ensures id + 1 < |all| ==> Succ(shown, Sizes(groups)) == [all[id + 1]]
  {
    CrossComplete(groups, shown);
    assert all[id] in all;
    CrossSize(groups);
    ProductPositive(groups);
    CrossIsChain(groups);
    if id + 1 < |all| {
      assert Succ(all[id + 1 - 1], Sizes(groups)) == [all[id + 1]];
    }
  }

  /** One turn of the iterators. */
  method Turn(groups: Groups, ghost all: seq<Combo>, ghost id: nat, iters: array<nat>)
    requires all == Cross(groups) && id < |all| && AtCombo(all, id, Shown(iters[..]))
    modifies iters
    ensures AtCombo(all, id + 1, Shown(iters[..]))
  {
    AtNext(groups, all, id, Shown(iters[..]));
    Advance(iters, Sizes(groups));
  }

  /** The loop over the instruction count: every combination once, in order, with the name of its index. */
  method GenerateAll(groups: Groups, names: seq<string>) returns (generated: Generated)
    requires Product(groups) <= |names|
    ensures |Cross(groups)| == Product(groups) && generated == Keep(names, Cross(groups), Product(groups))
  {
    CrossSize(groups);
    AtStart(groups);
    var count := CountCombos(groups);
    generated := GenerateUpTo(groups, Cross(groups), names, count);
  }

  method GenerateUpTo(groups: Groups, ghost all: seq<Combo>, names: seq<string>, count: nat) returns (generated: Generated)
    requires all == Cross(groups) && count == |all| <= |names| && AtCombo(all, 0, Zeros(|groups|))
    ensures generated == Keep(names, all, count)
  {
    var iters := new nat[|groups|](_ => 0);
    generated := [];
    assert Shown(iters[..]) == Zeros(|groups|);
    for id := 0 to count
      invariant generated == Keep(names, all, id)
      invariant AtCombo(all, id, Shown(iters[..]))
    {
      generated := generated + if names[id] == "reserved" then [] else [(names[id], Shown(iters[..]))];
      Turn(groups, all, id, iters);
    }
  }

  method ExpandSubinstructions(base: string, given: seq<string>, groups: Groups, nested: bool)
      returns (r: Result<map<string, Combo>>)
    ensures groups == [] ==> r == Ok(map[])
    ensures groups != [] ==> (r.Error? <==> nested || (given != [] && |given| != Product(groups)))
    ensures |Cross(groups)| == Product(groups)
    ensures
      groups != [] && r.Ok? ==>
        var names := if given != [] then given else Names(base, groups);
        Product(groups) <= |names| && r.value == AsTable(Keep(names, Cross(groups), Product(groups)))
    // A name that is given stands for the combination of its place.
    ensures groups != [] && r.Ok? && given != [] ==> ByPlace(given, Cross(groups), Product(groups), r.value)
    // A name that is made up stands for the combination it spells out.
    ensures groups != [] && r.Ok? && given == [] && AllNonEmpty(groups) && PlainNames(groups) && DistinctMembers(groups) ==>
              ByLabel(base, groups, r.value)
  {
    CrossSize(groups);
    if groups == [] { return Ok(map[]); }
    var count := CountCombos(groups);
    if given != [] && |given| != count {
      return Error;  // the count of the given names differs from the size of the cross product
    }
    var names := given;
    if given == [] {
      names := ComputeSubinstrNames(base, groups);
      ProductPositive(groups);
      if count > 0 { NamesSize(base, groups); }
    }
    if nested { return Error; }
    var generated := GenerateAll(groups, names);
    var table := InsertAll(generated);
    if given != [] {
      GivenByPlace(given, Cross(groups), count);
    } else if AllNonEmpty(groups) && PlainNames(groups) && DistinctMembers(groups) {
      MadeByLabel(base, groups);
    }
    return Ok(table);
  }

  /** Insertion into a map keeps the first instruction of a name. */
  method InsertAll(g: Generated) returns (table: map<string, Combo>)
    ensures table == AsTable(g)
  {
    table := map[];
    for i := 0 to |g|
      invariant table == AsTable(g[..i])
    {
      assert Front(g[..i + 1]) == g[..i] && Last(g[..i + 1]) == g[i];
      if g[i].0 !in table {
        table := table[g[i].0 := g[i].1];
      }
    }
    assert g[..|g|] == g;
  }

  ghost predicate Distinct(cs: seq<Combo>) { forall j, k :: 0 <= j < k < |cs| ==> cs[j] != cs[k] }

  lemma {:induction false} BlocksDistinct(i: nat, n: nat, rest: seq<Combo>)
    requires Distinct(rest)
    ensures Distinct(Blocks(i, n, rest))
    decreases n - i
  {
    if i < n {
      BlocksDistinct(i + 1, n, rest);
      var p, q := Prefixed(i, rest), Blocks(i + 1, n, rest);
      var b := p + q;
      forall j, k | 0 <= j < k < |b|
        ensures b[j] != b[k]
      {
        if k < |p| {
          assert p[j][1..] == rest[j] && p[k][1..] == rest[k];
        } else if j < |p| {
          BlocksMembers(i + 1, n, rest, q[k - |p|]);
          assert q[k - |p|] in q && p[j][0] == i;
        }
      }
    }
  }

  /** No combination occurs twice. */
  lemma {:induction false} CrossDistinct(groups: Groups)
    ensures Distinct(Cross(groups))
  {
    if groups != [] {
      CrossDistinct(groups[1..]);
      BlocksDistinct(0, |groups[0]|, Cross(groups[1..]));
    }
  }

  lemma {:induction false} KeepMember(names: seq<string>, cs: seq<Combo>, n: nat, name: string, c: Combo)
    requires n <= |names| && n <= |cs|
    ensures (name, c) in Keep(names, cs, n) <==> exists k :: 0 <= k < n && names[k] == name != "reserved" && cs[k] == c
  {
    if n > 0 {
      KeepMember(names, cs, n - 1, name, c);
    }
  }

  /** Synthesised names: an instruction carries the label of its own combination. */
  lemma ExpandedLabels(base: string, groups: Groups, name: string, c: Combo)
    requires groups != [] && AllNonEmpty(groups)
    ensures |Cross(groups)| == Product(groups) == |Names(base, groups)|
    ensures
      (name, c) in Keep(Names(base, groups), Cross(groups), Product(groups)) <==>
      IsCombo(c, groups) && name == base + Label(groups, c) && name != "reserved"
  {
    CrossSize(groups);
    NamesSize(base, groups);
    NamesAreCross(base, groups);
    KeepMember(Names(base, groups), Cross(groups), Product(groups), name, c);
    CrossComplete(groups, c);
  }

  // ----- the table of generated instructions -----

  /** The table by name: an instruction whose name is taken already is not inserted. */
  function AsTable(g: Generated): map<string, Combo> {
    if g == [] then map[]
    else
      var (t, last) := (AsTable(Front(g)), Last(g));
      if last.0 in t then t else t[last.0 := last.1]
  }

  ghost predicate NamesDistinct(g: Generated) { forall j, k :: 0 <= j < k < |g| ==> g[j].0 != g[k].0 }

  lemma {:induction false} TableKeys(g: Generated, name: string)
    ensures name in AsTable(g) <==> exists k :: 0 <= k < |g| && g[k].0 == name
    ensures |AsTable(g)| <= |g|
  {
    if g != [] {
      TableKeys(Front(g), name);
      if k :| 0 <= k < |Front(g)| && Front(g)[k].0 == name { assert g[k].0 == name; }
      if k :| 0 <= k < |g| && g[k].0 == name && k < |g| - 1 { assert Front(g)[k].0 == name; }
    }
  }

  /** A name stands for the first combination that was given it. */
  lemma {:induction false} TableHolds(g: Generated, k: nat)
    requires k < |g| && forall j :: 0 <= j < k ==> g[j].0 != g[k].0
    ensures g[k].0 in AsTable(g) && AsTable(g)[g[k].0] == g[k].1
  {
    if k < |g| - 1 {
      TableHolds(Front(g), k);
    } else {
      TableKeys(Front(g), g[k].0);
    }
  }

  /** The table keeps every generated instruction exactly when their names are distinct. */
  lemma {:induction false} TableKeepsAllIff(g: Generated)
    ensures |AsTable(g)| == |g| <==> NamesDistinct(g)
  {
    if g != [] {
      TableKeepsAllIff(Front(g));
      TableKeys(Front(g), Last(g).0);
      if NamesDistinct(g) {
        assert NamesDistinct(Front(g)) by {
          forall j, k | 0 <= j < k < |Front(g)|
            ensures Front(g)[j].0 != Front(g)[k].0
          {
            assert g[j].0 != g[k].0;
          }
        }
        assert Last(g).0 !in AsTable(Front(g));
      } else {
        var j, k :| 0 <= j < k < |g| && g[j].0 == g[k].0;
        if k < |g| - 1 {
          assert Front(g)[j].0 == Front(g)[k].0;
        } else {
          assert Front(g)[j].0 == Last(g).0;
        }
      }
    }
  }

  /** Member names without an underscore. */
  ghost predicate PlainNames(groups: Groups) {
    forall i, j :: 0 <= i < |groups| && 0 <= j < |groups[i]| ==> '_' !in groups[i][j]
  }

  ghost predicate DistinctMembers(groups: Groups) {
    forall i, j, k :: 0 <= i < |groups| && 0 <= j < k < |groups[i]| ==> groups[i][j] != groups[i][k]
  }

  lemma NotShorter(a: string, x: string, b: string, s: string)
    requires '_' !in b && (x == "" || x[0] == '_') && s == a + x && |b| <= |s| && forall i :: 0 <= i < |b| ==> s[i] == b[i]
    ensures |b| <= |a|
  {
    assert x != "" ==> s[|a|] == x[0];
    assert forall i :: 0 <= i < |b| ==> b[i] in b;
  }

  /** Up to the first underscore, or the end. */
  lemma HeadsAgree(a: string, x: string, b: string, y: string)
    requires '_' !in a && '_' !in b && (x == "" || x[0] == '_') && (y == "" || y[0] == '_') && a + x == b + y
    ensures a == b && x == y
  {
    var s := a + x;
    assert forall i :: 0 <= i < |b| ==> (b + y)[i] == b[i];
    NotShorter(a, x, b, s);
    NotShorter(b, y, a, s);
    assert a == s[..|a|] && b == (b + y)[..|b|];
    assert x == s[|a|..] && y == (b + y)[|b|..];
  }

  lemma LabelStarts(groups: Groups, c: Combo)
    requires IsCombo(c, groups)
    ensures Label(groups, c) == "" || Label(groups, c)[0] == '_'
  {
  }

  /** Without underscores in the member names a label tells its combination. */
  lemma {:induction false} LabelsDistinct(groups: Groups, c: Combo, d: Combo)
    requires IsCombo(c, groups) && IsCombo(d, groups) && PlainNames(groups) && DistinctMembers(groups)
    requires Label(groups, c) == Label(groups, d)
    ensures c == d
    decreases |groups|
  {
    if groups != [] {
      var rest := groups[1..];
      LabelStarts(rest, c[1..]);
      LabelStarts(rest, d[1..]);
      var x, y := Label(rest, c[1..]), Label(rest, d[1..]);
      Tail1(groups[0][c[0]], x, groups[0][d[0]], y);
      HeadsAgree(groups[0][c[0]], x, groups[0][d[0]], y);
      assert PlainNames(rest) by {
        forall i, j | 0 <= i < |rest| && 0 <= j < |rest[i]|
          ensures '_' !in rest[i][j]
        {
          assert rest[i] == groups[i + 1];
        }
      }
      assert DistinctMembers(rest) by {
        forall i, j, k | 0 <= i < |rest| && 0 <= j < k < |rest[i]|
          ensures rest[i][j] != rest[i][k]
        {
          assert rest[i] == groups[i + 1];
        }
      }
      LabelsDistinct(rest, c[1..], d[1..]);
      assert c == [c[0]] + c[1..] && d == [d[0]] + d[1..];
    }
  }

  lemma Tail1(a: string, x: string, b: string, y: string)
    requires "_" + a + x == "_" + b + y
    ensures a + x == b + y
  {
    assert ("_" + a + x)[1..] == a + x && ("_" + b + y)[1..] == b + y;
  }

  lemma {:induction false} KeepDistinct(names: seq<string>, cs: seq<Combo>, n: nat)
    requires n <= |names| && n <= |cs| && forall j, k :: 0 <= j < k < n ==> names[j] != names[k]
    ensures NamesDistinct(Keep(names, cs, n))
  {
    if n > 0 {
      KeepDistinct(names, cs, n - 1);
      var g := Keep(names, cs, n - 1);
      forall j | 0 <= j < |g|
        ensures g[j].0 != names[n - 1]
      {
        KeepMember(names, cs, n - 1, g[j].0, g[j].1);
        assert (g[j].0, g[j].1) in g;
      }
    }
  }

  /** Then the table of an expansion with synthesised names loses none of its instructions. */
  lemma ExpansionKeepsAll(base: string, groups: Groups)
    requires groups != [] && AllNonEmpty(groups) && PlainNames(groups) && DistinctMembers(groups)
    ensures |Cross(groups)| == Product(groups) == |Names(base, groups)|
    ensures
      var g := Keep(Names(base, groups), Cross(groups), Product(groups));
      |AsTable(g)| == |g|
  {
    var names, cs := Names(base, groups), Cross(groups);
    CrossSize(groups);
    NamesSize(base, groups);
    NamesAreCross(base, groups);
    CrossDistinct(groups);
    forall j, k | 0 <= j < k < Product(groups)
      ensures names[j] != names[k]
    {
      if names[j] == names[k] {
        assert names[j][|base|..] == Label(groups, cs[j]) && names[k][|base|..] == Label(groups, cs[k]);
        LabelsDistinct(groups, cs[j], cs[k]);
      }
    }
    KeepDistinct(names, cs, Product(groups));
    TableKeepsAllIff(Keep(names, cs, Product(groups)));
  }

  /** And every combination is found in it under its own label. */
  lemma ExpansionMaps(base: string, groups: Groups, c: Combo)
    requires groups != [] && AllNonEmpty(groups) && PlainNames(groups) && DistinctMembers(groups)
    requires IsCombo(c, groups) && base + Label(groups, c) != "reserved"
    ensures |Cross(groups)| == Product(groups) == |Names(base, groups)|
    ensures
      var t := AsTable(Keep(Names(base, groups), Cross(groups), Product(groups)));
      base + Label(groups, c) in t && t[base + Label(groups, c)] == c
  {
    var name := base + Label(groups, c);
    ExpandedLabels(base, groups, name, c);
    ExpansionKeepsAll(base, groups);
    var g := Keep(Names(base, groups), Cross(groups), Product(groups));
    TableKeepsAllIff(g);
    var k :| 0 <= k < |g| && g[k] == (name, c);
    TableHolds(g, k);
  }

  /** With names that are given, a combination is found under the name of its place, unless an earlier one has it. */
  lemma {:induction false} GivenMaps(names: seq<string>, cs: seq<Combo>, n: nat, k: nat)
    requires k < n <= |names| && n <= |cs| && names[k] != "reserved" && forall j :: 0 <= j < k ==> names[j] != names[k]
    ensures
      var t := AsTable(Keep(names, cs, n));
      names[k] in t && t[names[k]] == cs[k]
  {
    var (g, x) := (Keep(names, cs, n - 1), (names[n - 1], cs[n - 1]));
    assert Keep(names, cs, n) == g || Keep(names, cs, n) == g + [x];
    if k < n - 1 {
      GivenMaps(names, cs, n - 1, k);
      TableGrows(g, x, names[k]);
    } else {
      forall j | 0 <= j < |g|
        ensures g[j].0 != names[k]
      {
        KeepMember(names, cs, n - 1, g[j].0, g[j].1);
        assert (g[j].0, g[j].1) in g;
      }
      TableHolds(g + [x], |g|);
    }
  }

  /** Every name but "reserved" stands for the combination of the place where it comes first. */
  ghost predicate ByPlace(names: seq<string>, cs: seq<Combo>, n: nat, t: map<string, Combo>) {
    forall k :: 0 <= k < n && k < |names| && k < |cs| && names[k] != "reserved" && names[k] !in names[..k] ==>
      names[k] in t && t[names[k]] == cs[k]
  }

  lemma GivenByPlace(names: seq<string>, cs: seq<Combo>, n: nat)
    requires n <= |names| && n <= |cs|
    ensures ByPlace(names, cs, n, AsTable(Keep(names, cs, n)))
  {
    forall k | 0 <= k < n && names[k] != "reserved" && names[k] !in names[..k]
      ensures names[k] in AsTable(Keep(names, cs, n)) && AsTable(Keep(names, cs, n))[names[k]] == cs[k]
    {
      assert forall j :: 0 <= j < k ==> names[..k][j] == names[j];
      GivenMaps(names, cs, n, k);
    }
  }

  ghost predicate ByLabel(base: string, groups: Groups, t: map<string, Combo>) {
    forall c :: IsCombo(c, groups) && base + Label(groups, c) != "reserved" ==>
      base + Label(groups, c) in t && t[base + Label(groups, c)] == c
  }

  lemma MadeByLabel(base: string, groups: Groups)
    requires groups != [] && AllNonEmpty(groups) && PlainNames(groups) && DistinctMembers(groups)
    ensures |Cross(groups)| == Product(groups) == |Names(base, groups)|
    ensures ByLabel(base, groups, AsTable(Keep(Names(base, groups), Cross(groups), Product(groups))))
  {
    ExpansionKeepsAll(base, groups);
    forall c | IsCombo(c, groups) && base + Label(groups, c) != "reserved"
      ensures
        var t := AsTable(Keep(Names(base, groups), Cross(groups), Product(groups)));
        base + Label(groups, c) in t && t[base + Label(groups, c)] == c
    {
      ExpansionMaps(base, groups, c);
    }
  }

  lemma TableGrows(g: Generated, x: (string, Combo), name: string)
    requires name in AsTable(g)
    ensures name in AsTable(g + [x]) && AsTable(g + [x])[name] == AsTable(g)[name]
  {
    assert Front(g + [x]) == g;
  }

  /** No instruction is made for a combination whose name is "reserved". */
  lemma ReservedLeftOut(names: seq<string>, cs: seq<Combo>, n: nat)
    requires n <= |names| && n <= |cs|
    ensures "reserved" !in AsTable(Keep(names, cs, n))
  {
    var g := Keep(names, cs, n);
    TableKeys(g, "reserved");
    forall j | 0 <= j < |g|
      ensures g[j].0 != "reserved"
    {
      KeepMember(names, cs, n, g[j].0, g[j].1);
      assert (g[j].0, g[j].1) in g;
    }
  }

  /** With underscores an instruction can be lost: two combinations share the label "_a_b_c". */
  lemma LabelsCollide()
    ensures
      var groups := [["a_b", "a"], ["c", "b_c"]];
      IsCombo([0, 0], groups) && IsCombo([1, 1], groups) && Label(groups, [0, 0]) == Label(groups, [1, 1])
  {
    var groups := [["a_b", "a"], ["c", "b_c"]];
    assert groups[1..] == [["c", "b_c"]] && groups[1..][1..] == [];
    assert Label(groups[1..], [0]) == "_c" && Label(groups[1..], [1]) == "_b_c";
    assert [0, 0][1..] == [0] && [1, 1][1..] == [1];
  }
}
