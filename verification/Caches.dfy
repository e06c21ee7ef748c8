/**
 Cache hierarchies: caches sit in slots by level, one list for instructions and one for data,
 and the hierarchy check links each cache to the next one of its list.  A unified cache is in both.
 */
module Caches {

  datatype Kind = InstrCache | DataCache | UnifiedCache

  class Cache {
    const level: nat
    const kind: Kind
    var next: Cache?

    constructor (level: nat, kind: Kind)
      ensures this.level == level && this.kind == kind && next == null
    {
      this.level := level;
      this.kind := kind;
      next := null;
    }
  }

  type Slots = seq<Cache?>
  type Links = map<Cache?, Cache?>

  // ----- slots: Core::add_cache -----

  /** Every cache is in the slot of its level, in a list of its kind. */
  ghost predicate Slotted(slots: Slots, other: Kind) {
    forall i :: 0 <= i < |slots| ==>
      var c := slots[i];
      c != null ==> c.level == i + 1 && c.kind != other
  }

  function SlotAt(slots: Slots, i: nat): Cache? { if i < |slots| then slots[i] else null }

  /** Put a cache in the slot of its level, growing the list as needed; a cache already there is dropped. */
  method AddTo(slots: Slots, c: Cache) returns (r: Slots)
    requires c.level > 0
    ensures |r| == if c.level <= |slots| then |slots| else c.level
    ensures forall i: nat :: SlotAt(r, i) == if i == c.level - 1 then c else SlotAt(slots, i)
  {
    r := slots;
    while |r| < c.level
      invariant |slots| <= |r| && (|r| > |slots| ==> |r| <= c.level)
      invariant forall i: nat :: SlotAt(r, i) == SlotAt(slots, i)
    {
      r := r + [null];
    }
    r := r[c.level - 1 := c];
  }

  predicate IsUnified(c: Cache?) { c != null && c.kind == UnifiedCache }

  /** Unified caches are in both lists. */
  ghost predicate Shared(instr: Slots, data: Slots) {
    forall i: nat :: IsUnified(SlotAt(instr, i)) || IsUnified(SlotAt(data, i)) ==> SlotAt(instr, i) == SlotAt(data, i)
  }

  /** A unified cache would be replaced in one of the lists only. */
  ghost predicate Halves(instr: Slots, data: Slots, c: Cache)
    requires c.level > 0
  {
    || (c.kind == InstrCache && IsUnified(SlotAt(data, c.level - 1)))
    || (c.kind == DataCache && IsUnified(SlotAt(instr, c.level - 1)))
  }

  method AddCache(instr: Slots, data: Slots, c: Cache) returns (i: Slots, d: Slots)
    requires c.level > 0 && Slotted(instr, DataCache) && Slotted(data, InstrCache)
    ensures Slotted(i, DataCache) && Slotted(d, InstrCache)
    ensures forall k: nat :: SlotAt(i, k) == if k == c.level - 1 && c.kind != DataCache then c else SlotAt(instr, k)
    ensures forall k: nat :: SlotAt(d, k) == if k == c.level - 1 && c.kind != InstrCache then c else SlotAt(data, k)
    ensures Shared(instr, data) ==> (Shared(i, d) <==> !Halves(instr, data, c))
  {
    i, d := instr, data;
    if c.kind == InstrCache || c.kind == UnifiedCache {
      i := AddTo(i, c);
      StaysSlotted(instr, i, c, DataCache);
    }
    if c.kind == DataCache || c.kind == UnifiedCache {
      d := AddTo(d, c);
      StaysSlotted(data, d, c, InstrCache);
    }
    assert SlotAt(i, c.level - 1) == if c.kind != DataCache then c else SlotAt(instr, c.level - 1);
  }

  lemma StaysSlotted(slots: Slots, r: Slots, c: Cache, other: Kind)
    requires Slotted(slots, other) && c.level > 0 && c.kind != other
    requires forall i: nat :: SlotAt(r, i) == if i == c.level - 1 then c else SlotAt(slots, i)
    ensures Slotted(r, other)
  {
    forall i | 0 <= i < |r| && r[i] != null
      ensures r[i].level == i + 1 && r[i].kind != other
    {
      assert SlotAt(r, i) == r[i];
    }
  }

  // ----- chains -----

  /** The lowest cache from slot `n` on. */
  function NextIn(slots: Slots, n: nat): Cache?
    decreases |slots| - n
  {
    if n >= |slots| then null else if slots[n] != null then slots[n] else NextIn(slots, n + 1)
  }

  predicate HasUnified(slots: Slots, n: nat)
    requires n <= |slots|
  {
    exists i :: 0 <= i < n && IsUnified(slots[i])
  }

  /** A split cache although a lower one is unified. */
  predicate Misplaced(slots: Slots, i: nat)
    requires i < |slots|
  {
    slots[i] != null && slots[i].kind != UnifiedCache && HasUnified(slots, i)
  }

  ghost predicate Ordered(slots: Slots) { OrderedBelow(slots, |slots|) }

  /** The caches that get linked: the misplaced ones are left out. */
  function Kept(slots: Slots, n: nat): (k: Slots)
    requires n <= |slots|
    ensures |k| == n && forall i :: 0 <= i < n ==> k[i] == if Misplaced(slots, i) then null else slots[i]
  {
    seq(n, i requires 0 <= i < n => if Misplaced(slots, i) then null else slots[i])
  }

  /** In order: above a unified cache there are only unified ones. */
  lemma OrderedIff(slots: Slots)
    ensures Ordered(slots) <==>
            forall i, j :: 0 <= i < j < |slots| && slots[i] != null && slots[i].kind == UnifiedCache && slots[j] != null ==>
              slots[j].kind == UnifiedCache
  {
    if Ordered(slots) {
      forall i, j | 0 <= i < j < |slots| && slots[i] != null && slots[i].kind == UnifiedCache && slots[j] != null
        ensures slots[j].kind == UnifiedCache
      {
        assert IsUnified(slots[i]) && !Misplaced(slots, j);
      }
    }
  }

  /** What is left out of the links: split caches above a unified one. */
  lemma KeptMeans(slots: Slots, j: nat)
    requires j < |slots|
    ensures
      var out := slots[j] != null && slots[j].kind != UnifiedCache
                 && exists i :: 0 <= i < j && slots[i] != null && slots[i].kind == UnifiedCache;
      Kept(slots, |slots|)[j] == if out then null else slots[j]
  {
    if i :| 0 <= i < j && slots[i] != null && slots[i].kind == UnifiedCache {
      assert IsUnified(slots[i]);
    }
  }

  lemma {:induction false} NextGrows(s: Slots, c: Cache?, n: nat)
    requires n <= |s|
    ensures NextIn(s + [c], n) == if NextIn(s, n) != null then NextIn(s, n) else c
    decreases |s| - n
  {
    if n < |s| { NextGrows(s, c, n + 1); }
  }

  lemma {:induction false} NextNone(s: Slots, n: nat)
    requires n <= |s|
    ensures NextIn(s, n) == null <==> forall i :: n <= i < |s| ==> s[i] == null
    decreases |s| - n
  {
    if n < |s| { NextNone(s, n + 1); }
  }

  /** The links a list of caches should have; the last cache keeps the link it had. */
  ghost predicate LinkedIn(s: Slots, was: Links)
    reads s
  {
    forall i {:trigger s[i]} :: 0 <= i < |s| ==>
      var c := s[i];
      c != null ==> c in was && c.next == if NextIn(s, i + 1) != null then NextIn(s, i + 1) else was[c]
  }

  /** No cache is in two slots. */
  ghost predicate Apart(s: Slots) { forall i, j :: 0 <= i < j < |s| && s[i] != null ==> s[i] != s[j] }

  lemma SlottedApart(slots: Slots, other: Kind)
    requires Slotted(slots, other)
    ensures Apart(slots)
  {
  }

  /** Slot `p` holds the latest linked cache below slot `i`; `p` is -1 when there is none. */
  ghost predicate LatestAt(k: Slots, last: Cache?, p: int) {
    && -1 <= p < |k| && (p == -1 ==> last == null) && (p >= 0 ==> last != null && k[p] == last)
    && forall j :: p < j < |k| ==> k[j] == null
  }

  /** The caches from slot `i` on, and the misplaced ones, have the links they had. */
  ghost predicate Untouched(slots: Slots, i: nat, was: Links)
    requires i <= |slots|
    reads slots
  {
    forall j {:trigger slots[j]} :: 0 <= j < |slots| && slots[j] != null && (j >= i || Misplaced(slots, j)) ==>
      slots[j] in was && slots[j].next == was[slots[j]]
  }

  lemma KeptGrows(slots: Slots, i: nat)
    requires i < |slots|
    ensures Kept(slots, i + 1) == Kept(slots, i) + [if Misplaced(slots, i) then null else slots[i]]
  {
  }

  lemma UnifiedGrows(slots: Slots, i: nat)
    requires i < |slots|
    ensures HasUnified(slots, i + 1) <==> HasUnified(slots, i) || IsUnified(slots[i])
  {
  }

  /** A list that grows by an empty slot stays linked. */
  lemma GrowsByNone(k: Slots, was: Links)
    requires LinkedIn(k, was)
    ensures LinkedIn(k + [null], was)
  {
    var g := k + [null];
    forall i | 0 <= i < |g| && g[i] != null
      ensures g[i] in was && g[i].next == if NextIn(g, i + 1) != null then NextIn(g, i + 1) else was[g[i]]
    {
      assert g[i] == k[i];
      NextGrows(k, null, i + 1);
    }
  }

  /** What the next cache is, once a cache joins the list. */
  lemma NextAfterGrowth(k: Slots, c: Cache, last: Cache?, p: int, i: nat)
    requires LatestAt(k, last, p) && i < |k| && k[i] != null
    ensures NextIn(k + [c], i + 1) == if i == p then c else NextIn(k, i + 1)
    ensures NextIn(k, i + 1) == null <==> i == p
  {
    NextGrows(k, c, i + 1);
    NextNone(k, i + 1);
  }

  /** Link the latest cache to the one that joins the list. */
  method Link(k: Slots, c: Cache, last: Cache?, ghost p: int, ghost was: Links)
    requires LatestAt(k, last, p) && LinkedIn(k, was) && Apart(k + [c])
    requires c in was && c.next == was[c]
    modifies k
    ensures LinkedIn(k + [c], was)
    ensures forall d :: d in k && d != null && d != last ==> d.next == old(d.next)
  {
    if last != null {
      assert last in k;
      last.next := c;
    }
    forall i | 0 <= i < |k| && k[i] != null
      ensures NextIn(k + [c], i + 1) == (if i == p then c else NextIn(k, i + 1)) && (NextIn(k, i + 1) == null <==> i == p)
    {
      NextAfterGrowth(k, c, last, p, i);
    }
    ghost var g := k + [c];
    forall i | 0 <= i < |g| && g[i] != null
      ensures g[i] in was && g[i].next == if NextIn(g, i + 1) != null then NextIn(g, i + 1) else was[g[i]]
    {
      assert p >= 0 && i != p ==> g[p] == last && g[i] != g[p];
      assert i < |k| ==> g[i] == k[i];
    }
  }

  /** One slot of the walk over a list. */
  method CheckSlot(slots: Slots, i: nat, last: Cache?, unified: bool, ghost p: int, ghost was: Links)
      returns (ok: bool, newLast: Cache?, newUnified: bool, ghost q: int)
    requires i < |slots| && Apart(slots)
    requires Walking(slots, i, last, p, unified, was)
    modifies slots
    ensures ok <==> !Misplaced(slots, i)
    ensures Walking(slots, i + 1, newLast, q, newUnified, was)
  {
    var c := slots[i];
    ok, newLast, newUnified, q := true, last, unified, p;
    KeptGrows(slots, i);
    UnifiedGrows(slots, i);
    if c == null {
      GrowsByNone(Kept(slots, i), was);
    } else if c.kind != UnifiedCache && unified {
      GrowsByNone(Kept(slots, i), was);
      ok := false;
    } else {
      newUnified := unified || c.kind == UnifiedCache;
      KeptApart(slots, i, c);
      Link(Kept(slots, i), c, last, p, was);
      newLast, q := c, i;
    }
  }

  lemma KeptApart(slots: Slots, i: nat, c: Cache)
    requires i < |slots| && Apart(slots) && slots[i] == c
    ensures Apart(Kept(slots, i) + [c])
  {
    var g := Kept(slots, i) + [c];
    forall a, b | 0 <= a < b < |g| && g[a] != null
      ensures g[a] != g[b]
    {
      assert g[a] == slots[a] && (g[b] == slots[b] || g[b] == null);
    }
  }

  /** The links of a list before the walk. */
  ghost function LinksOf(slots: Slots): Links
    reads slots
  {
    map c | c in slots && c != null :: c.next
  }

  /** Where the walk over a list stands at slot `i`. */
  ghost predicate Walking(slots: Slots, i: nat, last: Cache?, p: int, unified: bool, was: Links)
    requires i <= |slots|
    reads slots
  {
    && LatestAt(Kept(slots, i), last, p) && LinkedIn(Kept(slots, i), was) && Untouched(slots, i, was)
    && (unified <==> HasUnified(slots, i))
  }

  ghost predicate OrderedBelow(slots: Slots, i: nat)
    requires i <= |slots|
  {
    forall j :: 0 <= j < i ==> !Misplaced(slots, j)
  }

  lemma OrderedGrows(slots: Slots, i: nat)
    requires i < |slots|
    ensures OrderedBelow(slots, i + 1) <==> OrderedBelow(slots, i) && !Misplaced(slots, i)
  {
  }

  lemma WalkStarts(slots: Slots)
    ensures Walking(slots, 0, null, -1, false, LinksOf(slots))
  {
  }

  /** Link a list: every split cache above a unified one is an error and is left out. */
  method CheckCacheHierarchy(slots: Slots) returns (ok: bool)
    requires Apart(slots)
    modifies slots
    ensures ok <==> Ordered(slots)
    ensures LinkedIn(Kept(slots, |slots|), old(LinksOf(slots))) && Untouched(slots, |slots|, old(LinksOf(slots)))
  {
    ghost var was := LinksOf(slots);
    var last: Cache?, unified := null, false;
    ghost var p := -1;
    ok := true;
    WalkStarts(slots);
    for i := 0 to |slots|
      invariant Walking(slots, i, last, p, unified, was)
      invariant ok <==> OrderedBelow(slots, i)
    {
      OrderedGrows(slots, i);
      var good;
      good, last, unified, p := CheckSlot(slots, i, last, unified, p, was);
      ok := ok && good;
    }
  }

  // ----- both lists -----

  /** Above a unified cache the two lists are the same, slot by slot. */
  lemma ConvergeAbove(instr: Slots, data: Slots, i: nat, j: nat)
    requires Shared(instr, data) && Ordered(instr) && Ordered(data) && i <= j
    requires IsUnified(SlotAt(instr, i)) || IsUnified(SlotAt(data, i))
    ensures SlotAt(instr, j) == SlotAt(data, j)
  {
    assert IsUnified(SlotAt(instr, i)) && IsUnified(SlotAt(data, i));
    if i < j {
      if j < |instr| {
        assert IsUnified(instr[i]);
        assert !Misplaced(instr, j);
      }
      if j < |data| {
        assert IsUnified(data[i]);
        assert !Misplaced(data, j);
      }
    }
  }

  /** The links of a list when it is in order. */
  ghost predicate Chained(s: Slots)
    reads s
  {
    forall i {:trigger s[i]} :: 0 <= i < |s| && s[i] != null ==> s[i].next == NextIn(s, i + 1)
  }

  lemma {:induction false} NextConverges(a: Slots, b: Slots, n: nat, m: nat)
    requires forall j: nat :: j >= n ==> SlotAt(a, j) == SlotAt(b, j)
    requires m >= |a| && m >= |b| && n <= m
    ensures NextIn(a, n) == NextIn(b, n)
    decreases m - n
  {
    assert SlotAt(a, n) == SlotAt(b, n);
    if n < m {
      NextConverges(a, b, n + 1, m);
    }
  }

  /** From a unified cache on, both lists have the same next cache: the chains are one chain. */
  lemma ChainsConverge(instr: Slots, data: Slots, i: nat)
    requires Shared(instr, data) && Ordered(instr) && Ordered(data)
    requires IsUnified(SlotAt(instr, i)) || IsUnified(SlotAt(data, i))
    ensures NextIn(instr, i + 1) == NextIn(data, i + 1)
  {
    forall j: nat | j >= i + 1
      ensures SlotAt(instr, j) == SlotAt(data, j)
    {
      ConvergeAbove(instr, data, i, j);
    }
    NextConverges(instr, data, i + 1, i + 1 + |instr| + |data|);
  }

  lemma KeptAll(slots: Slots)
    requires Ordered(slots)
    ensures Kept(slots, |slots|) == slots
  {
  }

  /** A cache of both lists is unified and in the same slot. */
  lemma InBoth(instr: Slots, data: Slots, i: nat, j: nat)
    requires Slotted(instr, DataCache) && Slotted(data, InstrCache)
    requires i < |instr| && j < |data| && instr[i] != null && instr[i] == data[j]
    ensures i == j && IsUnified(instr[i])
  {
  }

  /** Where the data walk leaves an instruction cache. */
  lemma InstrStays(instr: Slots, data: Slots, i: nat, was: Cache?, now: Cache?)
    requires Slotted(instr, DataCache) && Slotted(data, InstrCache) && Shared(instr, data)
    requires Ordered(instr) && Ordered(data) && i < |instr| && instr[i] != null
    requires was == NextIn(instr, i + 1)
    requires instr[i] !in data ==> now == was
    requires forall j :: 0 <= j < |data| && data[j] == instr[i] ==>
               now == if NextIn(data, j + 1) != null then NextIn(data, j + 1) else was
    ensures now == NextIn(instr, i + 1)
  {
    if instr[i] in data {
      var j :| 0 <= j < |data| && data[j] == instr[i];
      InBoth(instr, data, i, j);
      ChainsConverge(instr, data, i);
    }
  }

  /** Where the data walk leaves a data cache. */
  lemma DataEnds(instr: Slots, data: Slots, j: nat, was: Cache?)
    requires Slotted(instr, DataCache) && Slotted(data, InstrCache) && Shared(instr, data)
    requires Ordered(instr) && Ordered(data) && j < |data| && data[j] != null
    requires data[j] !in instr ==> was == null
    requires forall i :: 0 <= i < |instr| && instr[i] == data[j] ==> was == NextIn(instr, i + 1)
    ensures NextIn(data, j + 1) == null ==> was == null
  {
    if data[j] in instr {
      var i :| 0 <= i < |instr| && instr[i] == data[j];
      InBoth(instr, data, i, j);
      ChainsConverge(instr, data, i);
    }
  }

  /** Both lists of a core, with every cache in its slot and the unified ones shared. */
  ghost predicate Lists(instr: Slots, data: Slots) {
    Slotted(instr, DataCache) && Slotted(data, InstrCache) && Shared(instr, data)
  }

  ghost predicate Unlinked(s: Slots)
    reads s
  {
    forall i {:trigger s[i]} :: 0 <= i < |s| && s[i] != null ==> s[i].next == null
  }

  lemma FirstWalk(s: Slots, was: Links)
    requires Ordered(s) && LinkedIn(Kept(s, |s|), was) && forall c :: c in was ==> was[c] == null
    ensures Chained(s)
  {
    KeptAll(s);
  }

  /** What is known before the second walk, about the links of both lists. */
  ghost predicate Before(instr: Slots, data: Slots, was: Links) {
    && (forall i {:trigger instr[i]} :: 0 <= i < |instr| && instr[i] != null ==>
          instr[i] in was && was[instr[i]] == NextIn(instr, i + 1))
    && (forall j {:trigger data[j]} :: 0 <= j < |data| && data[j] != null ==>
          data[j] in was && (data[j] !in instr ==> was[data[j]] == null))
  }

  /** What is known after it. */
  ghost predicate After(instr: Slots, data: Slots, was: Links)
    reads instr, data
  {
    && LinkedIn(data, was)
    && (forall i {:trigger instr[i]} :: 0 <= i < |instr| && instr[i] != null && instr[i] !in data ==>
          instr[i] in was && instr[i].next == was[instr[i]])
  }

  /** The second walk changes no link of the first list. */
  lemma SecondKeepsFirst(instr: Slots, data: Slots, was: Links)
    requires Lists(instr, data) && Ordered(instr) && Ordered(data)
    requires Before(instr, data, was) && After(instr, data, was)
    ensures Chained(instr)
  {
    forall i | 0 <= i < |instr| && instr[i] != null
      ensures instr[i].next == NextIn(instr, i + 1)
    {
      InstrStays(instr, data, i, was[instr[i]], instr[i].next);
    }
  }

  /** The second walk ends its own list properly. */
  lemma SecondChains(instr: Slots, data: Slots, was: Links)
    requires Lists(instr, data) && Ordered(instr) && Ordered(data)
    requires Before(instr, data, was) && After(instr, data, was)
    ensures Chained(data)
  {
    forall j | 0 <= j < |data| && data[j] != null
      ensures data[j].next == NextIn(data, j + 1)
    {
      DataEnds(instr, data, j, was[data[j]]);
    }
  }

  lemma NothingLinked(s: Slots)
    requires Unlinked(s)
    ensures forall c :: c in LinksOf(s) ==> LinksOf(s)[c] == null
  {
  }

  /** The first walk, over caches without links. */
  method CheckFirst(instr: Slots) returns (ok: bool)
    requires Slotted(instr, DataCache) && Unlinked(instr)
    modifies instr
    ensures ok <==> Ordered(instr)
    ensures ok ==> Chained(instr)
  {
    SlottedApart(instr, DataCache);
    NothingLinked(instr);
    ghost var none := LinksOf(instr);
    ok := CheckCacheHierarchy(instr);
    if ok { FirstWalk(instr, none); }
  }

  /** The caches of the second list alone have no links yet. */
  ghost predicate OwnUnlinked(instr: Slots, data: Slots)
    reads data
  {
    forall j {:trigger data[j]} :: 0 <= j < |data| && data[j] != null && data[j] !in instr ==> data[j].next == null
  }

  lemma LinksBefore(instr: Slots, data: Slots)
    requires Chained(instr) && OwnUnlinked(instr, data)
    ensures Before(instr, data, LinksOf(instr + data))
  {
    var both := instr + data;
    forall i | 0 <= i < |instr|
      ensures instr[i] in both
    {
      assert both[i] == instr[i];
    }
    forall j | 0 <= j < |data|
      ensures data[j] in both
    {
      assert both[|instr| + j] == data[j];
    }
  }

  lemma LinkedWider(s: Slots, was: Links, wider: Links)
    requires LinkedIn(s, was) && forall c :: c in was ==> c in wider && was[c] == wider[c]
    ensures LinkedIn(s, wider)
  {
  }

  lemma LinksWider(instr: Slots, data: Slots)
    ensures forall c :: c in LinksOf(data) ==> c in LinksOf(instr + data) && LinksOf(data)[c] == LinksOf(instr + data)[c]
  {
  }

  /** The second walk, over a list that shares its unified caches with a chained one. */
  method CheckSecond(instr: Slots, data: Slots) returns (ok: bool)
    requires Slotted(instr, DataCache) && Slotted(data, InstrCache)
    requires Ordered(instr) && Chained(instr) && OwnUnlinked(instr, data)
    modifies data
    ensures ok <==> Ordered(data)
    ensures ok && Shared(instr, data) ==> Chained(instr) && Chained(data)
  {
    ghost var was, all := LinksOf(data), LinksOf(instr + data);
    LinksBefore(instr, data);
    LinksWider(instr, data);
    ok := WalkSecond(instr, data, was, all);
    if ok && Shared(instr, data) {
      SecondKeepsFirst(instr, data, all);
      SecondChains(instr, data, all);
    }
  }

  method WalkSecond(instr: Slots, data: Slots, ghost was: Links, ghost all: Links) returns (ok: bool)
    requires Slotted(data, InstrCache) && was == LinksOf(data) && all == LinksOf(instr + data)
    requires forall c :: c in was ==> c in all && was[c] == all[c]
    modifies data
    ensures ok <==> Ordered(data)
    ensures ok ==> After(instr, data, all)
  {
    SlottedApart(data, InstrCache);
    ok := CheckCacheHierarchy(data);
    if ok {
      KeptAll(data);
      LinkedWider(data, was, all);
      forall i | 0 <= i < |instr| && instr[i] != null && instr[i] !in data
        ensures instr[i] in all && instr[i].next == all[instr[i]]
      {
        assert (instr + data)[i] == instr[i];
      }
    }
  }

  /** Check both lists, the instruction caches first. */
  method CheckBoth(instr: Slots, data: Slots) returns (ok: bool)
    requires Slotted(instr, DataCache) && Slotted(data, InstrCache) && Unlinked(instr) && Unlinked(data)
    modifies instr, data
    ensures ok <==> Ordered(instr) && Ordered(data)
    ensures ok && Shared(instr, data) ==> Chained(instr) && Chained(data)
  {
    var first := CheckFirst(instr);
    assert OwnUnlinked(instr, data);
    if first {
      ok := CheckSecond(instr, data);
    } else {
      SlottedApart(data, InstrCache);
      var second := CheckCacheHierarchy(data);
      ok := false;
    }
  }

  // ----- Core::finalize_caches -----

  /** No two caches go to the same slot of the same list. */
  ghost predicate Compatible(caches: seq<Cache>) {
    forall a, b :: 0 <= a < b < |caches| && caches[a].level == caches[b].level ==>
      (caches[a].kind == InstrCache && caches[b].kind == DataCache) ||
      (caches[a].kind == DataCache && caches[b].kind == InstrCache)
  }

  /** The last of the first `n` caches that goes to slot `k` of the list. */
  function Latest(caches: seq<Cache>, n: nat, k: nat, other: Kind): Cache?
    requires n <= |caches|
  {
    if n == 0 then null
    else if caches[n - 1].level == k + 1 && caches[n - 1].kind != other then caches[n - 1]
    else Latest(caches, n - 1, k, other)
  }

  lemma {:induction false} LatestIs(caches: seq<Cache>, n: nat, k: nat, other: Kind)
    requires n <= |caches|
    ensures
      var c := Latest(caches, n, k, other);
      c != null ==> c.level == k + 1 && c.kind != other && exists a :: 0 <= a < n && caches[a] == c
  {
    if n > 0 {
      LatestIs(caches, n - 1, k, other);
    }
  }

  /** The slots hold the latest caches. */
  ghost predicate Holds(slots: Slots, caches: seq<Cache>, n: nat, other: Kind)
    requires n <= |caches|
  {
    forall k: nat :: SlotAt(slots, k) == Latest(caches, n, k, other)
  }

  /** With at most one cache per slot, both lists hold the same unified caches. */
  lemma {:induction false} LatestShared(caches: seq<Cache>, n: nat, k: nat)
    requires n <= |caches| && Compatible(caches)
    ensures
      var (i, d) := (Latest(caches, n, k, DataCache), Latest(caches, n, k, InstrCache));
      IsUnified(i) || IsUnified(d) ==> i == d
  {
    if n > 0 {
      LatestShared(caches, n - 1, k);
      LatestIs(caches, n - 1, k, DataCache);
      LatestIs(caches, n - 1, k, InstrCache);
    }
  }

  lemma HeldShared(instr: Slots, data: Slots, caches: seq<Cache>)
    requires Holds(instr, caches, |caches|, DataCache) && Holds(data, caches, |caches|, InstrCache) && Compatible(caches)
    ensures Shared(instr, data)
  {
    forall k: nat | IsUnified(SlotAt(instr, k)) || IsUnified(SlotAt(data, k))
      ensures SlotAt(instr, k) == SlotAt(data, k)
    {
      LatestShared(caches, |caches|, k);
    }
  }

  /** Sort the caches into the two lists, a later one in place of an earlier one; a cache without a level is an error. */
  method AddAll(caches: seq<Cache>) returns (instr: Slots, data: Slots, ok: bool)
    ensures Slotted(instr, DataCache) && Slotted(data, InstrCache)
    ensures Holds(instr, caches, |caches|, DataCache) && Holds(data, caches, |caches|, InstrCache)
    ensures ok <==> forall c :: c in caches ==> c.level > 0
    ensures Compatible(caches) ==> Shared(instr, data)
  {
    instr, data, ok := [], [], true;
    for n := 0 to |caches|
      invariant Slotted(instr, DataCache) && Slotted(data, InstrCache)
      invariant Holds(instr, caches, n, DataCache) && Holds(data, caches, n, InstrCache)
      invariant ok <==> forall c :: c in caches[..n] ==> c.level > 0
    {
      var c := caches[n];
      assert caches[..n + 1] == caches[..n] + [c];
      if c.level == 0 {
        ok := false;
      } else {
        instr, data := AddCache(instr, data, c);
      }
    }
    assert caches[..|caches|] == caches;
    if Compatible(caches) { HeldShared(instr, data, caches); }
  }

  // ----- walking a chain: the check of shared caches -----

  /** Every cache after a shared one must be shared: a walk along the links. */
  method CheckShared(slots: Slots, i: nat, shared: set<Cache>) returns (ok: bool)
    requires i < |slots| && slots[i] != null && Chained(slots)
    ensures ok <==> forall j :: i < j < |slots| && slots[j] != null ==> slots[j] in shared
  {
    ghost var n := i + 1;
    var c := slots[i].next;
    while c != null
      invariant i < n <= |slots| && c == NextIn(slots, n)
      invariant forall j :: i < j < n && slots[j] != null ==> slots[j] in shared
      decreases |slots| - n
    {
      ghost var m := NextAt(slots, n);
      if c !in shared { return false; }
      c := c.next;
      n := m + 1;
    }
    NextNone(slots, n);
    return true;
  }

  /** The slot of the next cache. */
  lemma {:induction false} NextAt(slots: Slots, n: nat) returns (m: nat)
    requires NextIn(slots, n) != null
    ensures n <= m < |slots| && slots[m] == NextIn(slots, n) && forall j :: n <= j < m ==> slots[j] == null
    decreases |slots| - n
  {
    if slots[n] != null { m := n; } else { m := NextAt(slots, n + 1); }
  }
}
