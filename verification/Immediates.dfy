/**
 Longest immediates: the instructions with an immediate operand are gathered into classes of
 equivalent ones, and each is told the number of the longest member of its class.
 */
module Immediates {
  import opened Basics

  type Test = (nat, nat) -> bool

  // ----- one class -----

  /** The items that join a class whose latest member is `back`: each is tested against the latest member. */
  function Joining(back: nat, rest: seq<nat>, equiv: Test): seq<nat>
    decreases rest
  {
    if rest == [] then []
    else if equiv(rest[0], back) then [rest[0]] + Joining(rest[0], rest[1..], equiv)
    else Joining(back, rest[1..], equiv)
  }

  /** The items that stay behind. */
  function Staying(back: nat, rest: seq<nat>, equiv: Test): (s: seq<nat>)
    ensures |s| <= |rest|
    decreases rest
  {
    if rest == [] then []
    else if equiv(rest[0], back) then Staying(rest[0], rest[1..], equiv)
    else [rest[0]] + Staying(back, rest[1..], equiv)
  }

  lemma {:induction false} JoinOrStay(back: nat, rest: seq<nat>, equiv: Test)
    ensures multiset(Joining(back, rest, equiv)) + multiset(Staying(back, rest, equiv)) == multiset(rest)
    decreases rest
  {
    if rest != [] {
      assert rest == [rest[0]] + rest[1..];
      JoinOrStay(if equiv(rest[0], back) then rest[0] else back, rest[1..], equiv);
    }
  }

  /** Taking the items of one class out of the ordered rest. */
  method TakeClass(order: seq<nat>, equiv: Test) returns (cls: seq<nat>, left: seq<nat>)
    requires order != []
    ensures cls == ClassOf(order, equiv) && left == Staying(order[0], order[1..], equiv)
  {
    cls := [order[0]];
    left := [];
    var i := 1;
    while i < |order|
      invariant 1 <= i <= |order| && cls != []
      invariant cls + Joining(Last(cls), order[i..], equiv) == ClassOf(order, equiv)
      invariant left + Staying(Last(cls), order[i..], equiv) == Staying(order[0], order[1..], equiv)
    {
      assert order[i..][0] == order[i] && order[i..][1..] == order[i + 1..];
      if equiv(order[i], Last(cls)) {
        Extend(cls, order[i], Joining(order[i], order[i + 1..], equiv));
        cls := cls + [order[i]];
      } else {
        Extend(left, order[i], Staying(Last(cls), order[i + 1..], equiv));
        left := left + [order[i]];
      }
      i := i + 1;
    }
  }

  lemma Extend(a: seq<nat>, x: nat, b: seq<nat>)
    ensures a + ([x] + b) == (a + [x]) + b
  {
  }

  /** The class the first item starts. */
  function ClassOf(order: seq<nat>, equiv: Test): (c: seq<nat>)
    requires order != []
    ensures c != [] && c[0] == order[0]
  {
    [order[0]] + Joining(order[0], order[1..], equiv)
  }

  // ----- all classes -----

  function Classes(order: seq<nat>, equiv: Test): seq<seq<nat>>
    decreases |order|
  {
    if order == [] then []
    else [ClassOf(order, equiv)] + Classes(Staying(order[0], order[1..], equiv), equiv)
  }

  function Flat(classes: seq<seq<nat>>): seq<nat> { if classes == [] then [] else classes[0] + Flat(classes[1..]) }

  lemma ClassOrStay(order: seq<nat>, equiv: Test)
    requires order != []
    ensures multiset(ClassOf(order, equiv)) + multiset(Staying(order[0], order[1..], equiv)) == multiset(order)
  {
    JoinOrStay(order[0], order[1..], equiv);
    assert order == [order[0]] + order[1..];
  }

  /** The classes are a partition: every item is in exactly one class, exactly once. */
  lemma {:induction false} ClassesPartition(order: seq<nat>, equiv: Test)
    ensures multiset(Flat(Classes(order, equiv))) == multiset(order)
    decreases |order|
  {
    if order != [] {
      var left: seq<nat> := Staying(order[0], order[1..], equiv);
      ClassesPartition(left, equiv);
      ClassOrStay(order, equiv);
      assert Classes(order, equiv)[1..] == Classes(left, equiv);
    }
  }

  /** The latest member of the class an item is in; minus one for an item in no class. */
  function Longest(order: seq<nat>, equiv: Test, i: nat): int
    decreases |order|
  {
    if order == [] then -1
    else if i in ClassOf(order, equiv) then Last(ClassOf(order, equiv))
    else Longest(Staying(order[0], order[1..], equiv), equiv, i)
  }

  ghost predicate Distinct(s: seq<nat>) { forall x: nat :: multiset(s)[x] <= 1 }

  lemma ClassMembers(order: seq<nat>, equiv: Test, x: nat)
    requires order != [] && Distinct(order)
    ensures
      var cls: seq<nat>, left: seq<nat> := ClassOf(order, equiv), Staying(order[0], order[1..], equiv);
      Distinct(left) && (x in order <==> x in cls || x in left) && !(x in cls && x in left)
  {
    var cls: seq<nat>, left: seq<nat> := ClassOf(order, equiv), Staying(order[0], order[1..], equiv);
    ClassOrStay(order, equiv);
    assert multiset(order)[x] == multiset(cls)[x] + multiset(left)[x];
    forall y: nat
      ensures multiset(left)[y] <= 1
    {
      assert multiset(order)[y] == multiset(cls)[y] + multiset(left)[y];
    }
  }

  lemma {:induction false} LongestMember(order: seq<nat>, equiv: Test, i: nat)
    requires Distinct(order)
    ensures if i in order then Longest(order, equiv, i) >= 0 && Longest(order, equiv, i) in order
            else Longest(order, equiv, i) == -1
    decreases |order|
  {
    if order != [] {
      var cls: seq<nat>, left: seq<nat> := ClassOf(order, equiv), Staying(order[0], order[1..], equiv);
      ClassMembers(order, equiv, i);
      ClassMembers(order, equiv, Last(cls));
      assert Last(cls) in cls;
      if i !in cls {
        LongestMember(left, equiv, i);
        if i in left { ClassMembers(order, equiv, Longest(left, equiv, i)); }
      }
    }
  }

  /** Following the number once more leads to the same number. */
  lemma {:induction false} LongestFixpoint(order: seq<nat>, equiv: Test, i: nat)
    requires Distinct(order) && i in order
    ensures Longest(order, equiv, i) >= 0
    ensures Longest(order, equiv, Longest(order, equiv, i)) == Longest(order, equiv, i)
    decreases |order|
  {
    LongestMember(order, equiv, i);
    var cls: seq<nat>, left: seq<nat> := ClassOf(order, equiv), Staying(order[0], order[1..], equiv);
    ClassMembers(order, equiv, i);
    if i in cls {
      assert Last(cls) in cls;
    } else {
      LongestFixpoint(left, equiv, i);
      LongestMember(left, equiv, i);
      ClassMembers(order, equiv, Longest(left, equiv, i));
    }
  }

  // ----- when the test is an equivalence -----

  ghost predicate Equivalence(equiv: Test) {
    && (forall x :: equiv(x, x))
    && (forall x, y :: equiv(x, y) ==> equiv(y, x))
    && (forall x, y, z :: equiv(x, y) && equiv(y, z) ==> equiv(x, z))
  }

  /** The items equivalent to `a`, in order. */
  function Like(order: seq<nat>, equiv: Test, a: nat): seq<nat> {
    if order == [] then []
    else if equiv(order[0], a) then [order[0]] + Like(order[1..], equiv, a)
    else Like(order[1..], equiv, a)
  }

  function Unlike(order: seq<nat>, equiv: Test, a: nat): seq<nat> {
    if order == [] then []
    else if equiv(order[0], a) then Unlike(order[1..], equiv, a)
    else [order[0]] + Unlike(order[1..], equiv, a)
  }

  lemma SameTest(equiv: Test, x: nat, a: nat, b: nat)
    requires Equivalence(equiv) && equiv(a, b)
    ensures equiv(x, a) <==> equiv(x, b)
  {
  }

  /** Testing against the latest member is testing against any member. */
  lemma {:induction false} JoiningIsLike(back: nat, rest: seq<nat>, equiv: Test, a: nat)
    requires Equivalence(equiv) && equiv(back, a)
    ensures Joining(back, rest, equiv) == Like(rest, equiv, a)
    ensures Staying(back, rest, equiv) == Unlike(rest, equiv, a)
    decreases rest
  {
    if rest != [] {
      SameTest(equiv, rest[0], back, a);
      JoiningIsLike(if equiv(rest[0], back) then rest[0] else back, rest[1..], equiv, a);
    }
  }

  lemma {:induction false} LikeOfUnlike(order: seq<nat>, equiv: Test, a: nat, b: nat)
    requires Equivalence(equiv) && !equiv(b, a)
    ensures Like(Unlike(order, equiv, a), equiv, b) == Like(order, equiv, b)
  {
    if order != [] {
      LikeOfUnlike(order[1..], equiv, a, b);
      var x := order[0];
      assert equiv(x, a) && equiv(x, b) ==> equiv(b, x) && equiv(b, a);
      if !equiv(x, a) {
        assert Unlike(order, equiv, a)[1..] == Unlike(order[1..], equiv, a);
      }
    }
  }

  lemma {:induction false} LikeMembers(order: seq<nat>, equiv: Test, a: nat, x: nat)
    ensures x in Like(order, equiv, a) <==> x in order && equiv(x, a)
    ensures x in Unlike(order, equiv, a) <==> x in order && !equiv(x, a)
  {
    if order != [] {
      LikeMembers(order[1..], equiv, a, x);
      assert order == [order[0]] + order[1..];
    }
  }

  lemma {:induction false} LikeSame(order: seq<nat>, equiv: Test, a: nat, b: nat)
    requires Equivalence(equiv) && equiv(a, b)
    ensures Like(order, equiv, a) == Like(order, equiv, b)
  {
    if order != [] {
      SameTest(equiv, order[0], a, b);
      LikeSame(order[1..], equiv, a, b);
    }
  }

  lemma ClassIsLike(order: seq<nat>, equiv: Test)
    requires Equivalence(equiv) && order != []
    ensures ClassOf(order, equiv) == Like(order, equiv, order[0])
    ensures Staying(order[0], order[1..], equiv) == Unlike(order, equiv, order[0])
  {
    JoiningIsLike(order[0], order[1..], equiv, order[0]);
  }

  /** With an equivalence, the number is that of the last equivalent instruction in the order. */
  lemma {:induction false} LongestIsLast(order: seq<nat>, equiv: Test, i: nat)
    requires Equivalence(equiv) && i in order
    ensures Like(order, equiv, i) != [] && Longest(order, equiv, i) == Last(Like(order, equiv, i))
    decreases |order|
  {
    var a := order[0];
    ClassIsLike(order, equiv);
    LikeMembers(order, equiv, a, i);
    LikeMembers(order, equiv, i, i);
    if equiv(i, a) {
      LikeSame(order, equiv, i, a);
    } else {
      LongestIsLast(Unlike(order, equiv, a), equiv, i);
      LikeOfUnlike(order, equiv, a, i);
    }
  }

  /** With an equivalence, two immediate instructions get the same number exactly when they are equivalent. */
  lemma LongestSameIff(order: seq<nat>, equiv: Test, i: nat, j: nat)
    requires Equivalence(equiv) && i in order && j in order
    ensures Longest(order, equiv, i) == Longest(order, equiv, j) <==> equiv(i, j)
  {
    LongestIsLast(order, equiv, i);
    LongestIsLast(order, equiv, j);
    if equiv(i, j) {
      LikeSame(order, equiv, i, j);
    } else {
      var x := Last(Like(order, equiv, i));
      LikeMembers(order, equiv, i, x);
      LikeMembers(order, equiv, j, x);
      assert x in Like(order, equiv, i);
      assert equiv(i, x);
      assert x !in Like(order, equiv, j);
    }
  }

  // ----- genBigMemInfo -----

  /** The order holds the immediate instructions, each once. */
  ghost predicate OrderOf(order: seq<nat>, immediate: seq<bool>) {
    Distinct(order) && forall i: nat :: i in order <==> i < |immediate| && immediate[i]
  }

  /** First pass: immediate instructions get their own number, the others none. */
  method NumberImmediates(immediate: seq<bool>, longest: array<int>)
    requires longest.Length == |immediate|
    modifies longest
    ensures forall i :: 0 <= i < |immediate| ==> longest[i] == if immediate[i] then i else -1
  {
    for i := 0 to |immediate|
      invariant forall k :: 0 <= k < i ==> longest[k] == if immediate[k] then k else -1
    {
      longest[i] := if immediate[i] then i else -1;
    }
  }

  method MarkClass(longest: array<int>, cls: seq<nat>, v: int)
    requires forall k :: 0 <= k < |cls| ==> cls[k] < longest.Length
    modifies longest
    ensures forall i :: 0 <= i < longest.Length ==> longest[i] == if i in cls then v else old(longest[i])
  {
    for k := 0 to |cls|
      invariant forall i :: 0 <= i < longest.Length ==> longest[i] == if i in cls[..k] then v else old(longest[i])
    {
      longest[cls[k]] := v;
      assert cls[..k + 1] == cls[..k] + [cls[k]];
    }
    assert cls[..|cls|] == cls;
  }

  /** What is marked so far: the finished classes have their number, the rest still their own. */
  ghost predicate Marked(now: seq<int>, order: seq<nat>, rest: seq<nat>, equiv: Test) {
    && Distinct(rest) && (forall x :: x in rest ==> x < |now| && now[x] == x)
    && forall i: nat :: i < |now| ==>
         if i in rest then Longest(order, equiv, i) == Longest(rest, equiv, i)
         else Longest(order, equiv, i) == now[i]
  }

  lemma MarkedStep(was: seq<int>, now: seq<int>, order: seq<nat>, rest: seq<nat>, equiv: Test)
    requires Marked(was, order, rest, equiv) && rest != [] && |now| == |was|
    requires forall i :: 0 <= i < |now| ==> now[i] == if i in ClassOf(rest, equiv) then Last(ClassOf(rest, equiv)) else was[i]
    ensures Marked(now, order, Staying(rest[0], rest[1..], equiv), equiv)
  {
    var cls: seq<nat>, left: seq<nat> := ClassOf(rest, equiv), Staying(rest[0], rest[1..], equiv);
    ClassMembers(rest, equiv, 0);
    forall x: nat
      ensures (x in rest <==> x in cls || x in left) && !(x in cls && x in left)
    {
      ClassMembers(rest, equiv, x);
    }
    forall i: nat | i < |now|
      ensures if i in left then Longest(order, equiv, i) == Longest(left, equiv, i)
              else Longest(order, equiv, i) == now[i]
    {
      if i in rest { assert Longest(order, equiv, i) == Longest(rest, equiv, i); }
    }
  }

  /** The class of the first item lies in the order and still carries its own numbers. */
  lemma MarkedClass(now: seq<int>, order: seq<nat>, rest: seq<nat>, equiv: Test)
    requires Marked(now, order, rest, equiv) && rest != []
    ensures forall x :: x in ClassOf(rest, equiv) ==> x < |now| && now[x] == x
  {
    forall x | x in ClassOf(rest, equiv)
      ensures x in rest
    {
      ClassMembers(rest, equiv, x);
    }
  }

  /** One class is taken out of the rest and marked. */
  method MarkNext(longest: array<int>, ghost order: seq<nat>, rest: seq<nat>, equiv: Test) returns (left: seq<nat>)
    requires Marked(longest[..], order, rest, equiv) && rest != []
    modifies longest
    ensures Marked(longest[..], order, left, equiv) && |left| < |rest|
  {
    ghost var was := longest[..];
    var cls;
    cls, left := TakeClass(rest, equiv);
    MarkedClass(was, order, rest, equiv);
    assert forall k :: 0 <= k < |cls| ==> cls[k] in cls;
    MarkClass(longest, cls, longest[Last(cls)]);
    MarkedStep(was, longest[..], order, rest, equiv);
  }

  lemma MarkedStart(now: seq<int>, order: seq<nat>, equiv: Test)
    requires Distinct(order) && forall x :: x in order ==> x < |now| && now[x] == x
    requires forall i :: 0 <= i < |now| && i !in order ==> now[i] == -1
    ensures Marked(now, order, order, equiv)
  {
    forall i: nat | i < |now|
      ensures i !in order ==> Longest(order, equiv, i) == now[i]
    {
      LongestMember(order, equiv, i);
    }
  }

  method GenBigMemInfo(immediate: seq<bool>, order: seq<nat>, equiv: Test) returns (longest: array<int>)
    requires OrderOf(order, immediate)
    ensures longest.Length == |immediate|
    ensures forall i: nat :: i < |immediate| ==> longest[i] == Longest(order, equiv, i)
  {
    longest := new int[|immediate|];
    NumberImmediates(immediate, longest);
    MarkedStart(longest[..], order, equiv);
    var rest := order;
    while rest != []
      invariant Marked(longest[..], order, rest, equiv)
      decreases |rest|
    {
      rest := MarkNext(longest, order, rest, equiv);
    }
  }
}
