// Reachability in a graph given by a successor function.
module Graph {

  ghost predicate IsPath<T>(succ: T -> set<T>, p: seq<T>, a: T, b: T) {
    && p != [] && p[0] == a && p[|p| - 1] == b
    && forall i :: 0 <= i < |p| - 1 ==> p[i + 1] in succ(p[i])
  }

  ghost predicate Reaches<T(!new)>(succ: T -> set<T>, a: T, b: T) {
    exists p :: IsPath(succ, p, a, b)
  }

  ghost predicate ReachedFrom<T(!new)>(succ: T -> set<T>, roots: set<T>, b: T) {
    exists a :: a in roots && Reaches(succ, a, b)
  }

  lemma RootReached<T(!new)>(succ: T -> set<T>, roots: set<T>, a: T)
    requires a in roots
    ensures ReachedFrom(succ, roots, a)
  {
    assert IsPath(succ, [a], a, a);
  }

  lemma StepReached<T(!new)>(succ: T -> set<T>, roots: set<T>, b: T, c: T)
    requires ReachedFrom(succ, roots, b) && c in succ(b)
    ensures ReachedFrom(succ, roots, c)
  {
    var a :| a in roots && Reaches(succ, a, b);
    var p :| IsPath(succ, p, a, b);
    assert IsPath(succ, p + [c], a, c);
  }

  lemma StepFirst<T(!new)>(succ: T -> set<T>, a: T, b: T, c: T)
    requires b in succ(a) && Reaches(succ, b, c)
    ensures Reaches(succ, a, c)
  {
    var p :| IsPath(succ, p, b, c);
    assert IsPath(succ, [a] + p, a, c);
  }

  // A node is the root, or is reached from one of the root's successors.
  lemma FirstStep<T(!new)>(succ: T -> set<T>, a: T, c: T)
    requires Reaches(succ, a, c)
    ensures a == c || exists b :: b in succ(a) && Reaches(succ, b, c)
  {
    var p :| IsPath(succ, p, a, c);
    if |p| > 1 {
      assert IsPath(succ, p[1..], p[1], c);
      assert p[1] in succ(a) && Reaches(succ, p[1], c);
    }
  }

  // The reached nodes are the least set with the roots that is closed under
  // successors.
  lemma ReachedIsLeast<T(!new)>(succ: T -> set<T>, roots: set<T>, s: set<T>, b: T)
    requires roots <= s
    requires forall x :: x in s ==> succ(x) <= s
    requires ReachedFrom(succ, roots, b)
    ensures b in s
  {
    var a :| a in roots && Reaches(succ, a, b);
    var p :| IsPath(succ, p, a, b);
    for i := 0 to |p| - 1
      invariant p[i] in s
    {
    }
  }

  // Nodes each of which has a successor among them.
  ghost predicate Circular<T(!new)>(succ: T -> set<T>, s: set<T>) {
    forall x :: x in s ==> HasSuccIn(succ, x, s)
  }

  ghost predicate HasSuccIn<T(!new)>(succ: T -> set<T>, x: T, s: set<T>) {
    exists y :: y in succ(x) && y in s
  }

  // From x one can go on for ever: a circle can be reached.
  ghost predicate GoesOn<T(!new)>(succ: T -> set<T>, x: T) {
    exists s: set<T> :: Circular(succ, s) && x in s
  }

  // All paths from x have at most n nodes.
  ghost predicate Bounded<T(!new)>(succ: T -> set<T>, x: T, n: nat)
    decreases n
  {
    n > 0 && forall y :: y in succ(x) ==> Bounded(succ, y, n - 1)
  }

  lemma {:induction false} BoundedGrows<T(!new)>(succ: T -> set<T>, x: T, n: nat, m: nat)
    requires Bounded(succ, x, n) && n <= m
    ensures Bounded(succ, x, m)
    decreases n
  {
    forall y | y in succ(x)
      ensures Bounded(succ, y, m - 1)
    {
      BoundedGrows(succ, y, n - 1, m - 1);
    }
  }

  lemma {:induction false} BoundedOffCircles<T(!new)>(succ: T -> set<T>, x: T, n: nat, s: set<T>)
    requires Bounded(succ, x, n) && Circular(succ, s)
    ensures x !in s
    decreases n
  {
    hide Circular;
    if x in s {
      var y := SuccInCircle(succ, x, s);
      BoundedOffCircles(succ, y, n - 1, s);
    }
  }

  ghost function WithSucc<T(!new)>(succ: T -> set<T>, s: set<T>): set<T> {
    set x | x in s && HasSuccIn(succ, x, s)
  }

  // Nodes of all from which k further ones can be reached within all.
  ghost function Live<T(!new)>(succ: T -> set<T>, all: set<T>, k: nat): set<T> {
    if k == 0 then all else WithSucc(succ, Live(succ, all, k - 1))
  }

  // They stop shrinking after as many steps as there are nodes.
  lemma {:induction false} LiveSettles<T(!new)>(succ: T -> set<T>, all: set<T>, k: nat) returns (i: nat)
    ensures Live(succ, all, i + 1) == Live(succ, all, i)
    decreases |Live(succ, all, k)|
  {
    hide HasSuccIn;
    if Live(succ, all, k + 1) == Live(succ, all, k) {
      i := k;
    } else {
      SmallerSet(Live(succ, all, k + 1), Live(succ, all, k));
      i := LiveSettles(succ, all, k + 1);
    }
  }

  lemma SmallerSet<T>(a: set<T>, b: set<T>)
    requires a < b
    ensures |a| < |b|
  {
    assert b == a + (b - a) && |b| == |a| + |b - a|;
  }

  lemma {:induction false} BoundedWhenNotLive<T(!new)>(succ: T -> set<T>, all: set<T>, x: T, k: nat)
    requires forall y :: succ(y) <= all
    requires x in all && x !in Live(succ, all, k)
    ensures Bounded(succ, x, k)
  {
    if x !in Live(succ, all, k - 1) {
      BoundedWhenNotLive(succ, all, x, k - 1);
      BoundedGrows(succ, x, k - 1, k);
    } else {
      forall y | y in succ(x)
        ensures Bounded(succ, y, k - 1)
      {
        BoundedWhenNotLive(succ, all, y, k - 1);
      }
    }
  }

  // If only finitely many nodes are successors, there is a common bound for all
  // nodes from which no circle can be reached.
  lemma CommonBound<T(!new)>(succ: T -> set<T>, all: set<T>) returns (n: nat)
    requires forall y :: succ(y) <= all
    ensures forall x :: Bounded(succ, x, n) <==> !GoesOn(succ, x)
  {
    var i := LiveSettles(succ, all, 0);
    n := i + 1;
    forall x
      ensures Bounded(succ, x, n) <==> !GoesOn(succ, x)
    {
      BoundedIff(succ, all, i, x);
    }
  }

  lemma BoundedIff<T(!new)>(succ: T -> set<T>, all: set<T>, i: nat, x: T)
    requires forall y :: succ(y) <= all
    requires Live(succ, all, i + 1) == Live(succ, all, i)
    ensures Bounded(succ, x, i + 1) <==> !GoesOn(succ, x)
  {
    hide Live, Circular, Bounded;
    if GoesOn(succ, x) && Bounded(succ, x, i + 1) {
      var t :| Circular(succ, t) && x in t;
      BoundedOffCircles(succ, x, i + 1, t);
    }
    if !GoesOn(succ, x) {
      forall y | y in succ(x)
        ensures Bounded(succ, y, i)
      {
        if y in Live(succ, all, i) {
          SettledCircle(succ, all, i);
          GoesOnInto(succ, x, y, Live(succ, all, i));
        }
        BoundedWhenNotLive(succ, all, y, i);
      }
      BoundedFrom(succ, x, i + 1);
    }
  }

  lemma BoundedFrom<T(!new)>(succ: T -> set<T>, x: T, n: nat)
    requires n > 0 && forall y :: y in succ(x) ==> Bounded(succ, y, n - 1)
    ensures Bounded(succ, x, n)
  {
  }

  lemma SettledCircle<T(!new)>(succ: T -> set<T>, all: set<T>, i: nat)
    requires Live(succ, all, i + 1) == Live(succ, all, i)
    ensures Circular(succ, Live(succ, all, i))
  {
    hide HasSuccIn;
  }

  lemma GoesOnInto<T(!new)>(succ: T -> set<T>, x: T, y: T, s: set<T>)
    requires y in succ(x) && y in s && Circular(succ, s)
    ensures GoesOn(succ, x)
  {
    hide HasSuccIn;
    var t := s + {x};
    forall z | z in t
      ensures HasSuccIn(succ, z, t)
    {
      if z in s {
        Widen(succ, z, s, t);
      } else {
        HasThisSucc(succ, x, y, t);
      }
    }
    assert Circular(succ, t) && x in t;
  }

  lemma HasThisSucc<T(!new)>(succ: T -> set<T>, x: T, y: T, t: set<T>)
    requires y in succ(x) && y in t
    ensures HasSuccIn(succ, x, t)
  {
  }

  lemma Widen<T(!new)>(succ: T -> set<T>, x: T, s: set<T>, t: set<T>)
    requires HasSuccIn(succ, x, s) && s <= t
    ensures HasSuccIn(succ, x, t)
  {
    var y :| y in succ(x) && y in s;
    HasThisSucc(succ, x, y, t);
  }

  lemma SuccInCircle<T(!new)>(succ: T -> set<T>, x: T, s: set<T>) returns (y: T)
    requires Circular(succ, s) && x in s
    ensures y in succ(x) && y in s
  {
    hide Circular;
    assert HasSuccIn(succ, x, s) by { CircleHasSucc(succ, x, s); }
    y :| y in succ(x) && y in s;
  }

  lemma CircleHasSucc<T(!new)>(succ: T -> set<T>, x: T, s: set<T>)
    requires Circular(succ, s) && x in s
    ensures HasSuccIn(succ, x, s)
  {
    hide HasSuccIn;
  }

  // From where one can go on, one can go on from a successor.
  lemma GoesOnStep<T(!new)>(succ: T -> set<T>, x: T)
    ensures GoesOn(succ, x) <==> exists y :: y in succ(x) && GoesOn(succ, y)
  {
    if GoesOn(succ, x) {
      var s :| Circular(succ, s) && x in s;
      var y := SuccInCircle(succ, x, s);
      assert GoesOn(succ, y);
    }
    if y :| y in succ(x) && GoesOn(succ, y) {
      var s :| Circular(succ, s) && y in s;
      GoesOnInto(succ, x, y, s);
    }
  }

  lemma BoundedSomewhere<T(!new)>(succ: T -> set<T>, all: set<T>, x: T)
    requires forall y :: succ(y) <= all
    ensures (exists n: nat :: Bounded(succ, x, n)) <==> !GoesOn(succ, x)
  {
    hide Bounded, Circular;
    var m := CommonBound(succ, all);
    assert !GoesOn(succ, x) ==> Bounded(succ, x, m);
    if n: nat :| Bounded(succ, x, n) {
      BoundedEnds(succ, x, n);
    }
  }

  lemma BoundedEnds<T(!new)>(succ: T -> set<T>, x: T, n: nat)
    requires Bounded(succ, x, n)
    ensures !GoesOn(succ, x)
  {
    hide Bounded, Circular;
    if s: set<T> :| Circular(succ, s) && x in s {
      BoundedOffCircles(succ, x, n, s);
    }
  }

  lemma BoundedByLayers<T(!new)>(succ: T -> set<T>, x: T, n: nat)
    ensures Bounded(succ, x, n) <==> n > 0 && forall y :: y in succ(x) ==> Bounded(succ, y, n - 1)
  {
  }

  lemma MutualSuccessors<T(!new)>(succ: T -> set<T>, x: T, y: T)
    requires y in succ(x) && x in succ(y)
    ensures GoesOn(succ, x)
  {
    hide HasSuccIn;
    HasThisSucc(succ, x, y, {x, y});
    HasThisSucc(succ, y, x, {x, y});
    assert Circular(succ, {x, y});
  }

  // There are no circles where a rank falls along successors.
  lemma {:induction false} RankedEnds<T(!new)>(succ: T -> set<T>, rank: T -> nat, x: T)
    requires forall a, b :: b in succ(a) ==> rank(b) < rank(a)
    ensures !GoesOn(succ, x)
    decreases rank(x)
  {
    hide GoesOn;
    GoesOnStep(succ, x);
    forall y | y in succ(x)
      ensures !GoesOn(succ, y)
    {
      RankedEnds(succ, rank, y);
    }
  }
}
