/**
 Disassembly formats with constant fields: a field that always has the same value is
 printed into the format string, and the remaining markers are renumbered.
 */
module FixedValues {
  import opened Syntax

  /** A syntax item: a constant or not, its value, its enumerators, whether it is table-constrained. */
  datatype Item = Item(isValue: bool, value: nat, enums: seq<(Text, nat)>, constrained: bool)

  /** A position among the items, and the text to print there. */
  type Fixed = (nat, Text)

  // ----- which items are constant: Instr::search_fixed_vals -----

  predicate Enumerated(x: Item) { x.enums != [] }

  /** This item is printed as a constant. */
  predicate IsFixed(x: Item) { x.isValue && (Enumerated(x) || !x.constrained) }

  function Digit(d: nat): Byte
    requires d < 10
  {
    48 + d
  }

  function Decimal(v: nat): Text { if v < 10 then [Digit(v)] else Decimal(v / 10) + [Digit(v % 10)] }

  /** The number a text of digits reads as. */
  function Reads(t: Text): int { if t == [] then 0 else 10 * Reads(t[..|t| - 1]) + t[|t| - 1] as int - 48 }

  /** The digits read back as the number, and there is no zero in front. */
  lemma {:induction false} DecimalReads(v: nat)
    ensures Reads(Decimal(v)) == v && Decimal(v) != []
    ensures forall i :: 0 <= i < |Decimal(v)| ==> 48 <= Decimal(v)[i] < 58
    ensures v > 0 ==> Decimal(v)[0] != 48
  {
    if v >= 10 {
      DecimalReads(v / 10);
      assert Decimal(v)[..|Decimal(v)| - 1] == Decimal(v / 10);
    } else {
      assert Decimal(v)[..0] == [];
    }
  }

  /** The text of a constant: its first enumerator of that value, or its decimal digits. */
  ghost predicate Shows(x: Item, t: Text) {
    if Enumerated(x) then
      exists k :: 0 <= k < |x.enums| && x.enums[k] == (t, x.value) && forall j :: 0 <= j < k ==> x.enums[j].1 != x.value
    else t == Decimal(x.value)
  }

  method FindEnum(x: Item) returns (found: bool, t: Text)
    requires Enumerated(x)
    ensures found ==> Shows(x, t)
    ensures !found ==> forall k :: 0 <= k < |x.enums| ==> x.enums[k].1 != x.value
  {
    for k := 0 to |x.enums|
      invariant forall j :: 0 <= j < k ==> x.enums[j].1 != x.value
    {
      if x.enums[k].1 == x.value {
        return true, x.enums[k].0;
      }
    }
    return false, [];
  }

  ghost predicate Ascending(fixed: seq<Fixed>) { forall i, j :: 0 <= i < j < |fixed| ==> fixed[i].0 < fixed[j].0 }

  /** `fixed` lists exactly the constants among the first `n` items. */
  ghost predicate Lists(items: seq<Item>, n: nat, fixed: seq<Fixed>) {
    && Ascending(fixed)
    && (forall i :: 0 <= i < |fixed| ==>
          fixed[i].0 < n && fixed[i].0 < |items| && IsFixed(items[fixed[i].0]) && Shows(items[fixed[i].0], fixed[i].1))
    && (forall k :: 0 <= k < n && k < |items| && IsFixed(items[k]) ==> exists i :: 0 <= i < |fixed| && fixed[i].0 == k)
  }

  method SearchFixedVals(items: seq<Item>) returns (ok: bool, fixed: seq<Fixed>)
    ensures ok ==> Lists(items, |items|, fixed)
    ensures !ok ==> exists k :: 0 <= k < |items| && items[k].isValue && Enumerated(items[k])
                      && forall j :: 0 <= j < |items[k].enums| ==> items[k].enums[j].1 != items[k].value
  {
    fixed := [];
    for i := 0 to |items|
      invariant Lists(items, i, fixed)
    {
      ghost var before := fixed;
      if items[i].isValue {
        if Enumerated(items[i]) {
          var found, t := FindEnum(items[i]);
          if !found { return false, []; }
          fixed := fixed + [(i, t)];
          ListOneMore(items, i, before, t);
        } else if !items[i].constrained {
          fixed := fixed + [(i, Decimal(items[i].value))];
          ListOneMore(items, i, before, Decimal(items[i].value));
        }
      }
    }
    return true, fixed;
  }

  lemma ListOneMore(items: seq<Item>, i: nat, fixed: seq<Fixed>, t: Text)
    requires i < |items| && Lists(items, i, fixed) && IsFixed(items[i]) && Shows(items[i], t)
    ensures Lists(items, i + 1, fixed + [(i, t)])
  {
    var f := fixed + [(i, t)];
    forall k | 0 <= k < i + 1 && IsFixed(items[k])
      ensures exists j :: 0 <= j < |f| && f[j].0 == k
    {
      if k < i {
        var j :| 0 <= j < |fixed| && fixed[j].0 == k;
        assert f[j].0 == k;
      } else {
        assert f[|fixed|].0 == k;
      }
    }
  }

  /** Constants are the items with a value whose field has enumerators or is not constrained. */
  lemma ListsMeans(items: seq<Item>, fixed: seq<Fixed>, k: nat)
    requires Lists(items, |items|, fixed) && k < |items|
    ensures (exists i :: 0 <= i < |fixed| && fixed[i].0 == k) <==>
            items[k].isValue && (items[k].enums != [] || !items[k].constrained)
  {
  }

  /** A constant is printed as its digits, or as the first enumerator of its value. */
  lemma ShownAs(items: seq<Item>, fixed: seq<Fixed>, i: nat)
    requires Lists(items, |items|, fixed) && i < |fixed|
    ensures
      var (x, t) := (items[fixed[i].0], fixed[i].1);
      if x.enums == [] then Reads(t) == x.value
      else exists k :: 0 <= k < |x.enums| && x.enums[k] == (t, x.value) && forall j :: 0 <= j < k ==> x.enums[j].1 != x.value
  {
    DecimalReads(items[fixed[i].0].value);
  }

  // ----- rewriting the format: Instr::process_fixed_vals -----

  /** Where in the text from `pos` on, whose first marker is the `i`-th, the constants go. */
  function Sites(s: Text, pos: nat, i: nat, fixed: seq<Fixed>): seq<nat>
    decreases |s| - pos
  {
    if pos >= |s| || fixed == [] then []
    else if !IsField(s[pos]) then Sites(s, pos + 1, i, fixed)
    else if i == fixed[0].0 then [pos] + Sites(s, pos + 1, i + 1, fixed[1..])
    else Sites(s, pos + 1, i + 1, fixed)
  }

  /** The text from `start` on, with the bytes at the sites replaced by the constants. */
  function Splice(s: Text, start: nat, sites: seq<nat>, fixed: seq<Fixed>): Text
    decreases sites
  {
    if sites == [] || fixed == [] then s[if start <= |s| then start else |s|..]
    else if start <= sites[0] < |s| then
      s[start..sites[0]] + fixed[0].1 + Splice(s, sites[0] + 1, sites[1..], fixed[1..])
    else []
  }

  /** Markers numbered afresh from `n`. */
  function Renumber(s: Text, n: nat): Text {
    if s == [] then []
    else if IsField(s[0]) then [Marker(n)] + Renumber(s[1..], n + 1) else [s[0]] + Renumber(s[1..], n)
  }

  function Rewritten(s: Text, fixed: seq<Fixed>): Text {
    var sites := Sites(s, 0, 0, fixed);
    if sites == [] then s else Renumber(Splice(s, 0, sites, fixed), 0)
  }

  /** Sites are in the text, in order, and no more than the constants. */
  ghost predicate SitesOk(s: Text, start: nat, sites: seq<nat>, fixed: seq<Fixed>)
    decreases sites
  {
    |sites| <= |fixed| && (sites != [] ==> start <= sites[0] < |s| && SitesOk(s, sites[0] + 1, sites[1..], fixed[1..]))
  }

  lemma {:induction false} SitesOkLower(s: Text, start: nat, start': nat, sites: seq<nat>, fixed: seq<Fixed>)
    requires SitesOk(s, start, sites, fixed) && start' <= start
    ensures SitesOk(s, start', sites, fixed)
  {
  }

  lemma {:induction false} SitesAreOk(s: Text, pos: nat, i: nat, fixed: seq<Fixed>)
    ensures SitesOk(s, pos, Sites(s, pos, i, fixed), fixed)
    decreases |s| - pos
  {
    if pos >= |s| || fixed == [] {
    } else if IsField(s[pos]) && i == fixed[0].0 {
      SitesAreOk(s, pos + 1, i + 1, fixed[1..]);
      var rest := Sites(s, pos + 1, i + 1, fixed[1..]);
      assert ([pos] + rest)[1..] == rest;
    } else {
      var i' := if IsField(s[pos]) then i + 1 else i;
      SitesAreOk(s, pos + 1, i', fixed);
      SitesOkLower(s, pos + 1, pos, Sites(s, pos + 1, i', fixed), fixed);
    }
  }

  method FindSites(s: Text, fixed: seq<Fixed>) returns (sites: seq<nat>)
    ensures sites == Sites(s, 0, 0, fixed)
  {
    var pos, i, k := 0, 0, 0;
    sites := [];
    assert fixed[0..] == fixed;
    while pos != |s| && k != |fixed|
      invariant 0 <= pos <= |s| && 0 <= k <= |fixed| && 0 <= i
      invariant sites + Sites(s, pos, i, fixed[k..]) == Sites(s, 0, 0, fixed)
      decreases |s| - pos
    {
      if IsField(s[pos]) {
        if i == fixed[k].0 {
          assert fixed[k..][1..] == fixed[k + 1..];
          ghost var rest := Sites(s, pos + 1, i + 1, fixed[k + 1..]);
          assert sites + ([pos] + rest) == (sites + [pos]) + rest;
          sites := sites + [pos];
          k := k + 1;
        }
        i := i + 1;
      }
      pos := pos + 1;
    }
    assert sites + [] == sites;
  }

  /** The first `i` sites are done; the text goes on at `start`. */
  ghost predicate Splicing(s: Text, sites: seq<nat>, fixed: seq<Fixed>, i: nat, start: nat, t: Text) {
    && i <= |sites| <= |fixed| && start <= |s|
    && SitesOk(s, start, sites[i..], fixed[i..])
    && t + Splice(s, start, sites[i..], fixed[i..]) == Splice(s, 0, sites, fixed)
  }

  lemma SplicingStep(s: Text, sites: seq<nat>, fixed: seq<Fixed>, i: nat, start: nat, t: Text)
    requires i < |sites| && Splicing(s, sites, fixed, i, start, t)
    ensures start <= sites[i] < |s|
    ensures Splicing(s, sites, fixed, i + 1, sites[i] + 1, t + (s[start..sites[i]] + fixed[i].1))
  {
    assert sites[i..][1..] == sites[i + 1..] && fixed[i..][1..] == fixed[i + 1..];
    Pull(t, s[start..sites[i]], fixed[i].1, Splice(s, sites[i] + 1, sites[i + 1..], fixed[i + 1..]));
  }

  method SpliceAll(s: Text, sites: seq<nat>, fixed: seq<Fixed>) returns (t: Text)
    requires sites != [] && SitesOk(s, 0, sites, fixed)
    ensures t == Splice(s, 0, sites, fixed)
  {
    t := [];
    var start: nat := 0;
    assert sites[0..] == sites && fixed[0..] == fixed;
    for i := 0 to |sites|
      invariant Splicing(s, sites, fixed, i, start, t)
    {
      SplicingStep(s, sites, fixed, i, start, t);
      t := t + (s[start..sites[i]] + fixed[i].1);
      start := sites[i] + 1;
    }
    t := t + s[start..];
  }

  lemma Pull(t: Text, a: Text, b: Text, rest: Text)
    ensures t + (a + b + rest) == (t + (a + b)) + rest
  {
  }

  lemma RenumberStep(s: Text, i: nat, n: nat, t: Text)
    requires i < |s|
    ensures
      var (c, m) := if IsField(s[i]) then (Marker(n), n + 1) else (s[i], n);
      t + Renumber(s[i..], n) == (t + [c]) + Renumber(s[i + 1..], m)
  {
    assert s[i..][1..] == s[i + 1..];
  }

  method RenumberAll(s: Text) returns (t: Text)
    ensures t == Renumber(s, 0)
  {
    t := [];
    var n := 0;
    assert s[0..] == s;
    for i := 0 to |s|
      invariant n >= 0 && t + Renumber(s[i..], n) == Renumber(s, 0)
    {
      RenumberStep(s, i, n, t);
      var c := s[i];
      if IsField(c) {
        c := Marker(n);
        n := n + 1;
      }
      t := t + [c];
    }
    assert t + [] == t;
  }

  method ProcessFixedVals(ds: Format, fixed: seq<Fixed>)
    modifies ds`fmt
    ensures ds.fmt == Rewritten(old(ds.fmt), fixed)
  {
    var sites := FindSites(ds.fmt, fixed);
    if sites != [] {
      SitesAreOk(ds.fmt, 0, 0, fixed);
      var t := SpliceAll(ds.fmt, sites, fixed);
      t := RenumberAll(t);
      ds.fmt := t;
    }
  }

  // ----- what the rewritten format prints -----

  /** Printing: every marker is replaced by the text of its item. */
  function Render(s: Text, items: seq<Text>): Text {
    if s == [] then [] else Shown(s[0], items) + Render(s[1..], items)
  }

  function Shown(c: Byte, items: seq<Text>): Text {
    if !IsField(c) then [c] else if c - OFFSET < |items| then items[c - OFFSET] else []
  }

  /** The markers of the text count up from `k`. */
  ghost predicate InOrder(s: Text, k: nat) {
    s == [] || (if IsField(s[0]) then s[0] == OFFSET + k && InOrder(s[1..], k + 1) else InOrder(s[1..], k))
  }

  /** The text, whose first marker is the `k`-th, with constants for markers. */
  function Subst(s: Text, k: nat, fixed: seq<Fixed>): Text {
    if s == [] then []
    else if !IsField(s[0]) then [s[0]] + Subst(s[1..], k, fixed)
    else if fixed != [] && k == fixed[0].0 then fixed[0].1 + Subst(s[1..], k + 1, fixed[1..])
    else [s[0]] + Subst(s[1..], k + 1, fixed)
  }

  lemma SpliceStep(s: Text, pos: nat, sites: seq<nat>, fixed: seq<Fixed>)
    requires pos < |s| && SitesOk(s, pos + 1, sites, fixed)
    ensures Splice(s, pos, sites, fixed) == [s[pos]] + Splice(s, pos + 1, sites, fixed)
  {
    if sites != [] {
      assert s[pos..sites[0]] == [s[pos]] + s[pos + 1..sites[0]];
    }
  }

  lemma {:induction false} SubstNone(s: Text, k: nat)
    ensures Subst(s, k, []) == s
  {
    if s != [] {
      SubstNone(s[1..], if IsField(s[0]) then k + 1 else k);
    }
  }

  /** Splicing at the sites is substituting marker by marker. */
  lemma {:induction false} SpliceIsSubst(s: Text, pos: nat, i: nat, fixed: seq<Fixed>)
    requires pos <= |s|
    ensures Splice(s, pos, Sites(s, pos, i, fixed), fixed) == Subst(s[pos..], i, fixed)
    decreases |s| - pos
  {
    if pos == |s| {
    } else if fixed == [] {
      SubstNone(s[pos..], i);
    } else {
      assert s[pos..][1..] == s[pos + 1..];
      if IsField(s[pos]) && i == fixed[0].0 {
        SpliceIsSubst(s, pos + 1, i + 1, fixed[1..]);
        var rest := Sites(s, pos + 1, i + 1, fixed[1..]);
        assert ([pos] + rest)[1..] == rest;
        assert s[pos..pos] == [];
      } else {
        var i' := if IsField(s[pos]) then i + 1 else i;
        SpliceIsSubst(s, pos + 1, i', fixed);
        SitesAreOk(s, pos + 1, i', fixed);
        SpliceStep(s, pos, Sites(s, pos + 1, i', fixed), fixed);
      }
    }
  }

  // The items that remain, and the items with constants in place.

  /** The items from `k` on, without the constant ones. */
  function Kept(items: seq<Text>, k: nat, fixed: seq<Fixed>): seq<Text>
    decreases |items| - k
  {
    if k >= |items| then []
    else if fixed != [] && fixed[0].0 == k then Kept(items, k + 1, fixed[1..])
    else [items[k]] + Kept(items, k + 1, fixed)
  }

  /** The items from `k` on, the constant ones replaced by their text. */
  function Replaced(items: seq<Text>, k: nat, fixed: seq<Fixed>): seq<Text>
    decreases |items| - k
  {
    if k >= |items| then []
    else if fixed != [] && fixed[0].0 == k then [fixed[0].1] + Replaced(items, k + 1, fixed[1..])
    else [items[k]] + Replaced(items, k + 1, fixed)
  }

  lemma {:induction false} RenderPlain(v: Text, s: Text, n: nat, items: seq<Text>)
    requires Plain7(v)
    ensures Render(Renumber(v + s, n), items) == v + Render(Renumber(s, n), items)
  {
    if v == [] {
      assert v + s == s;
    } else {
      RenderPlain(v[1..], s, n, items);
      assert (v + s)[1..] == v[1..] + s;
      RenderFirst(v[0], Renumber(v[1..] + s, n), items);
      Associate([v[0]], v[1..], Render(Renumber(s, n), items), v[1..] + Render(Renumber(s, n), items));
    }
  }

  lemma RenderFirst(c: Byte, s: Text, items: seq<Text>)
    ensures Render([c] + s, items) == Shown(c, items) + Render(s, items)
  {
    assert ([c] + s)[1..] == s;
  }

  /** Positions at or after `k`, ascending, with marker-free texts. */
  ghost predicate Ahead(fixed: seq<Fixed>, k: nat) {
    Ascending(fixed) && (forall i :: 0 <= i < |fixed| ==> k <= fixed[i].0 && Plain7(fixed[i].1))
  }

  /** `n` items were kept before position `k`; from there on the kept items are the tail of `kept`. */
  ghost predicate Aligned(items: seq<Text>, k: nat, fixed: seq<Fixed>, kept: seq<Text>, n: nat) {
    n <= k && n <= |kept| && kept[n..] == Kept(items, k, fixed)
  }

  /** The tail of `all` from `k` on is the items with constants in place. */
  ghost predicate InPlace(items: seq<Text>, k: nat, fixed: seq<Fixed>, all: seq<Text>) {
    k <= |all| == |items| && all[k..] == Replaced(items, k, fixed)
  }

  function CountMarkers(s: Text): nat { if s == [] then 0 else CountMarkers(s[1..]) + if IsField(s[0]) then 1 else 0 }

  lemma NextItem(items: seq<Text>, k: nat, fixed: seq<Fixed>, kept: seq<Text>, n: nat, all: seq<Text>)
    requires k < |items| && Ahead(fixed, k) && Aligned(items, k, fixed, kept, n) && InPlace(items, k, fixed, all)
    ensures
      if fixed != [] && fixed[0].0 == k then
        && Ahead(fixed[1..], k + 1) && Aligned(items, k + 1, fixed[1..], kept, n)
        && InPlace(items, k + 1, fixed[1..], all) && all[k] == fixed[0].1
      else
        && Ahead(fixed, k + 1) && Aligned(items, k + 1, fixed, kept, n + 1)
        && InPlace(items, k + 1, fixed, all) && n < |kept| && all[k] == kept[n] == items[k]
  {
    assert all[k] == all[k..][0] && all[k..][1..] == all[k + 1..];
    if !(fixed != [] && fixed[0].0 == k) {
      assert kept[n] == kept[n..][0] && kept[n..][1..] == kept[n + 1..];
    }
  }

  lemma {:induction false} RewritePrints(s: Text, k: nat, fixed: seq<Fixed>, items: seq<Text>, kept: seq<Text>, n: nat,
                                         all: seq<Text>)
    requires InOrder(s, k) && k + CountMarkers(s) <= |items|
    requires Ahead(fixed, k) && Aligned(items, k, fixed, kept, n) && InPlace(items, k, fixed, all)
    ensures Render(Renumber(Subst(s, k, fixed), n), kept) == Render(s, all)
  {
    if s == [] {
    } else if !IsField(s[0]) {
      RewritePrints(s[1..], k, fixed, items, kept, n, all);
      LiteralFirst(s[0], Subst(s[1..], k, fixed), n, kept);
    } else {
      NextItem(items, k, fixed, kept, n, all);
      if fixed != [] && fixed[0].0 == k {
        RewritePrints(s[1..], k + 1, fixed[1..], items, kept, n, all);
        ConstantPrints(s, k, fixed, kept, n, all);
      } else {
        RewritePrints(s[1..], k + 1, fixed, items, kept, n + 1, all);
        MarkerPrints(s, k, fixed, kept, n, all);
      }
    }
  }

  lemma ConstantPrints(s: Text, k: nat, fixed: seq<Fixed>, kept: seq<Text>, n: nat, all: seq<Text>)
    requires s != [] && IsField(s[0]) && fixed != [] && fixed[0].0 == k && Plain7(fixed[0].1)
    requires Shown(s[0], all) == fixed[0].1
    requires Render(Renumber(Subst(s[1..], k + 1, fixed[1..]), n), kept) == Render(s[1..], all)
    ensures Render(Renumber(Subst(s, k, fixed), n), kept) == Render(s, all)
  {
    RenderPlain(fixed[0].1, Subst(s[1..], k + 1, fixed[1..]), n, kept);
  }

  lemma MarkerPrints(s: Text, k: nat, fixed: seq<Fixed>, kept: seq<Text>, n: nat, all: seq<Text>)
    requires s != [] && IsField(s[0]) && !(fixed != [] && fixed[0].0 == k) && n < 128 && n < |kept|
    requires Shown(s[0], all) == kept[n]
    requires Render(Renumber(Subst(s[1..], k + 1, fixed), n + 1), kept) == Render(s[1..], all)
    ensures Render(Renumber(Subst(s, k, fixed), n), kept) == Render(s, all)
  {
    MarkerFirst(s[0], Subst(s[1..], k + 1, fixed), n, kept);
  }

  lemma LiteralFirst(c: Byte, t: Text, n: nat, kept: seq<Text>)
    requires !IsField(c)
    ensures Render(Renumber([c] + t, n), kept) == [c] + Render(Renumber(t, n), kept)
  {
    assert ([c] + t)[1..] == t;
    RenderFirst(c, Renumber(t, n), kept);
  }

  lemma MarkerFirst(c: Byte, t: Text, n: nat, kept: seq<Text>)
    requires IsField(c) && n < 128 && n < |kept|
    ensures Render(Renumber([c] + t, n), kept) == kept[n] + Render(Renumber(t, n + 1), kept)
  {
    RenumberMarker(c, t, n);
    RenderFirst(Marker(n), Renumber(t, n + 1), kept);
    assert Shown(Marker(n), kept) == kept[n];
  }

  lemma RenumberMarker(c: Byte, t: Text, n: nat)
    requires IsField(c) && n < 128
    ensures Renumber([c] + t, n) == [Marker(n)] + Renumber(t, n + 1) && Marker(n) == OFFSET + n
  {
    assert ([c] + t)[1..] == t;
  }

  lemma {:induction false} ReplacedSize(items: seq<Text>, k: nat, fixed: seq<Fixed>)
    requires k <= |items|
    ensures |Replaced(items, k, fixed)| == |items| - k
    decreases |items| - k
  {
    if k < |items| {
      ReplacedSize(items, k + 1, if fixed != [] && fixed[0].0 == k then fixed[1..] else fixed);
    }
  }

  /** A format whose markers count up is its own renumbering. */
  lemma {:induction false} RenumberInOrder(s: Text, k: nat)
    requires InOrder(s, k)
    ensures Renumber(s, k) == s
  {
    if s != [] {
      RenumberInOrder(s[1..], if IsField(s[0]) then k + 1 else k);
    }
  }

  /**
   Substituting constants preserves what is printed: the rewritten format with the remaining
   items prints what the original prints with the constants in place of theirs.
   */
  lemma RewrittenPrintsSame(s: Text, fixed: seq<Fixed>, items: seq<Text>)
    requires InOrder(s, 0) && CountMarkers(s) <= |items| && Ahead(fixed, 0)
    ensures Render(Rewritten(s, fixed), Kept(items, 0, fixed)) == Render(s, Replaced(items, 0, fixed))
  {
    var sites := Sites(s, 0, 0, fixed);
    SpliceIsSubst(s, 0, 0, fixed);
    assert s[0..] == s;
    var kept, all := Kept(items, 0, fixed), Replaced(items, 0, fixed);
    ReplacedSize(items, 0, fixed);
    assert kept[0..] == kept && all[0..] == all;
    RewritePrints(s, 0, fixed, items, kept, 0, all);
    if sites == [] {
      assert Splice(s, 0, sites, fixed) == s;
      RenumberInOrder(s, 0);
    }
  }

  /** Renumbered markers count up. */
  lemma {:induction false} RenumberedInOrder(s: Text, n: nat)
    requires n + CountMarkers(s) <= 128
    ensures InOrder(Renumber(s, n), n) && CountMarkers(Renumber(s, n)) == CountMarkers(s)
  {
    if s != [] {
      var n' := if IsField(s[0]) then n + 1 else n;
      RenumberedInOrder(s[1..], n');
      assert Renumber(s, n)[1..] == Renumber(s[1..], n');
    }
  }

  lemma {:induction false} CountConcat(a: Text, b: Text)
    ensures CountMarkers(a + b) == CountMarkers(a) + CountMarkers(b)
  {
    if a == [] {
      assert a + b == b;
    } else {
      assert (a + b)[1..] == a[1..] + b;
      CountConcat(a[1..], b);
    }
  }

  lemma {:induction false} CountPlain(v: Text)
    requires Plain7(v)
    ensures CountMarkers(v) == 0
  {
    if v != [] {
      CountPlain(v[1..]);
    }
  }

  /** Each site takes one marker away. */
  lemma {:induction false} SubstCount(s: Text, pos: nat, i: nat, fixed: seq<Fixed>)
    requires pos <= |s| && forall j :: 0 <= j < |fixed| ==> Plain7(fixed[j].1)
    ensures CountMarkers(Subst(s[pos..], i, fixed)) + |Sites(s, pos, i, fixed)| == CountMarkers(s[pos..])
    decreases |s| - pos
  {
    if pos == |s| {
    } else if fixed == [] {
      SubstNone(s[pos..], i);
    } else {
      assert s[pos..][1..] == s[pos + 1..];
      if IsField(s[pos]) && i == fixed[0].0 {
        SubstCount(s, pos + 1, i + 1, fixed[1..]);
        CountPlain(fixed[0].1);
        CountConcat(fixed[0].1, Subst(s[pos + 1..], i + 1, fixed[1..]));
      } else {
        var k := if IsField(s[pos]) then i + 1 else i;
        SubstCount(s, pos + 1, k, fixed);
        CountFirst(s[pos], Subst(s[pos + 1..], k, fixed));
      }
    }
  }

  lemma CountFirst(c: Byte, t: Text)
    ensures CountMarkers([c] + t) == CountMarkers(t) + if IsField(c) then 1 else 0
  {
    assert ([c] + t)[1..] == t;
  }

  /** Markers that count up are at most as many as there are marker bytes. */
  lemma {:induction false} InOrderBound(s: Text, k: nat)
    requires InOrder(s, k)
    ensures CountMarkers(s) > 0 ==> k + CountMarkers(s) <= 128
  {
    if s != [] {
      InOrderBound(s[1..], if IsField(s[0]) then k + 1 else k);
    }
  }

  /** In the rewritten format the markers that survive count up from the first, one less for each constant put in. */
  lemma RewrittenInOrder(s: Text, fixed: seq<Fixed>)
    requires InOrder(s, 0) && Ahead(fixed, 0)
    ensures InOrder(Rewritten(s, fixed), 0)
    ensures CountMarkers(Rewritten(s, fixed)) == CountMarkers(s) - |Sites(s, 0, 0, fixed)|
  {
    var sites := Sites(s, 0, 0, fixed);
    if sites != [] {
      assert s[0..] == s;
      SpliceIsSubst(s, 0, 0, fixed);
      SubstCount(s, 0, 0, fixed);
      InOrderBound(s, 0);
      RenumberedInOrder(Splice(s, 0, sites, fixed), 0);
    }
  }

  /** What a compiled format satisfies: its markers count up from 0. */
  lemma {:induction false} NumberedInOrder(s: Text, k: nat)
    requires k + |Markers(s)| <= 128 && forall i :: 0 <= i < |Markers(s)| ==> Markers(s)[i] == OFFSET + k + i
    ensures InOrder(s, k) && CountMarkers(s) == |Markers(s)|
  {
    if s != [] {
      MarkersFirst(s);
      if IsField(s[0]) {
        assert Markers(s)[0] == s[0];
        assert forall i :: 0 <= i < |Markers(s[1..])| ==> Markers(s[1..])[i] == Markers(s)[i + 1];
        NumberedInOrder(s[1..], k + 1);
      } else {
        assert Markers(s) == Markers(s[1..]);
        NumberedInOrder(s[1..], k);
      }
    }
  }

  lemma {:induction false} MarkersFirst(s: Text)
    requires s != []
    ensures Markers(s) == (if IsField(s[0]) then [s[0]] else []) + Markers(s[1..])
  {
    if |s| > 1 {
      var f := s[..|s| - 1];
      MarkersFirst(f);
      assert f[1..] == s[1..][..|s| - 2];
    }
  }

  /** From source text to rewritten format: compiled formats may be rewritten safely. */
  lemma CompiledThenRewritten(src: Text, count: nat, name: Text, nameFirst: bool, fixed: seq<Fixed>, items: seq<Text>)
    requires FieldCodes(src) <= 128 && GoodName(name) && Plain7(src) && Compile(src, count, name, nameFirst).Ok?
    requires |items| == count && Ahead(fixed, 0)
    ensures
      var s := Compile(src, count, name, nameFirst).value.text;
      && Render(Rewritten(s, fixed), Kept(items, 0, fixed)) == Render(s, Replaced(items, 0, fixed))
      && InOrder(Rewritten(s, fixed), 0)
  {
    CompiledShape(src, count, name, nameFirst);
    var s := Compile(src, count, name, nameFirst).value.text;
    NumberedInOrder(s, 0);
    RewrittenPrintsSame(s, fixed, items);
    RewrittenInOrder(s, fixed);
  }

  // ----- the items that go with the rewritten format: Instr::invert_syntax -----

  /** The loop over the items leaves a constant out unless its field is constrained. */
  predicate IsCarried(x: Item) { !x.isValue || x.constrained }

  function Carried(items: seq<Item>, texts: seq<Text>, k: nat): seq<Text>
    requires |items| == |texts|
    decreases |items| - k
  {
    if k >= |items| then []
    else (if IsCarried(items[k]) then [texts[k]] else []) + Carried(items, texts, k + 1)
  }

  ghost predicate ListedAt(fixed: seq<Fixed>, j: nat) { exists i :: 0 <= i < |fixed| && fixed[i].0 == j }

  /** `fixed` lists exactly the constants from item `k` on. */
  ghost predicate ListsFrom(items: seq<Item>, k: nat, fixed: seq<Fixed>) {
    && Ascending(fixed)
    && (forall i :: 0 <= i < |fixed| ==> k <= fixed[i].0 < |items| && IsFixed(items[fixed[i].0]))
    && (forall j :: k <= j < |items| && IsFixed(items[j]) ==> ListedAt(fixed, j))
  }

  lemma ListedFirst(items: seq<Item>, k: nat, fixed: seq<Fixed>)
    requires k < |items| && ListsFrom(items, k, fixed)
    ensures IsFixed(items[k]) <==> fixed != [] && fixed[0].0 == k
  {
    if IsFixed(items[k]) {
      assert ListedAt(fixed, k);
      assert forall i :: 0 < i < |fixed| ==> fixed[0].0 < fixed[i].0;
    }
  }

  lemma ListedRest(fixed: seq<Fixed>, j: nat)
    requires fixed != [] && ListedAt(fixed, j) && fixed[0].0 != j
    ensures ListedAt(fixed[1..], j)
  {
    var m :| 0 <= m < |fixed| && fixed[m].0 == j;
    assert fixed[1..][m - 1].0 == j;
  }

  lemma ListsRest(items: seq<Item>, k: nat, fixed: seq<Fixed>)
    requires k < |items| && ListsFrom(items, k, fixed) && fixed != [] && fixed[0].0 == k
    ensures ListsFrom(items, k + 1, fixed[1..])
  {
    forall j | k + 1 <= j < |items| && IsFixed(items[j])
      ensures ListedAt(fixed[1..], j)
    {
      ListedRest(fixed, j);
    }
  }

  lemma ListsStep(items: seq<Item>, k: nat, fixed: seq<Fixed>)
    requires k < |items| && ListsFrom(items, k, fixed)
    ensures IsFixed(items[k]) <==> fixed != [] && fixed[0].0 == k
    ensures ListsFrom(items, k + 1, if IsFixed(items[k]) then fixed[1..] else fixed)
  {
    ListedFirst(items, k, fixed);
    if IsFixed(items[k]) {
      ListsRest(items, k, fixed);
    } else {
      assert forall i :: 0 <= i < |fixed| ==> fixed[i].0 != k;
    }
  }

  /** A constant of an enumerated and constrained field: printed into the format and yet carried along. */
  predicate Doubled(x: Item) { IsFixed(x) && IsCarried(x) }

  predicate NoneDoubled(items: seq<Item>, k: nat)
    decreases |items| - k
  {
    k < |items| ==> !Doubled(items[k]) && NoneDoubled(items, k + 1)
  }

  lemma {:induction false} CarriedFrom(items: seq<Item>, texts: seq<Text>, k: nat, fixed: seq<Fixed>)
    requires |items| == |texts| && ListsFrom(items, k, fixed)
    ensures |Carried(items, texts, k)| >= |Kept(texts, k, fixed)|
    ensures |Carried(items, texts, k)| == |Kept(texts, k, fixed)| <==> NoneDoubled(items, k)
    ensures NoneDoubled(items, k) ==> Carried(items, texts, k) == Kept(texts, k, fixed)
    decreases |items| - k
  {
    if k < |items| {
      var rest := if IsFixed(items[k]) then fixed[1..] else fixed;
      ListsStep(items, k, fixed);
      CarriedFrom(items, texts, k + 1, rest);
      KeptStep(items, texts, k, fixed, rest);
    }
  }

  lemma KeptStep(items: seq<Item>, texts: seq<Text>, k: nat, fixed: seq<Fixed>, rest: seq<Fixed>)
    requires k < |items| == |texts| && (IsFixed(items[k]) <==> fixed != [] && fixed[0].0 == k)
    requires rest == if IsFixed(items[k]) then fixed[1..] else fixed
    ensures Kept(texts, k, fixed) == (if IsFixed(items[k]) then [] else [texts[k]]) + Kept(texts, k + 1, rest)
  {
  }

  /** The items carried along are those the rewritten format has markers for, unless some constant is both. */
  lemma CarriedIff(items: seq<Item>, texts: seq<Text>, fixed: seq<Fixed>)
    requires |items| == |texts| && Lists(items, |items|, fixed)
    ensures Carried(items, texts, 0) == Kept(texts, 0, fixed) <==> NoneDoubled(items, 0)
  {
    CarriedFrom(items, texts, 0, fixed);
  }
}
