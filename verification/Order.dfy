// Strings in dictionary order, sorted lists, and sort | uniq.
module Order {

  predicate Less(a: string, b: string) {
    if b == [] then false
    else if a == [] then true
    else a[0] < b[0] || (a[0] == b[0] && Less(a[1..], b[1..]))
  }

  lemma LessIrreflexive(a: string)
    ensures !Less(a, a)
  {
  }

  lemma {:induction false} LessTransitive(a: string, b: string, c: string)
    requires Less(a, b) && Less(b, c)
    ensures Less(a, c)
  {
    if a != [] && a[0] == b[0] == c[0] {
      LessTransitive(a[1..], b[1..], c[1..]);
    }
  }

  lemma {:induction false} LessTotal(a: string, b: string)
    ensures Less(a, b) || a == b || Less(b, a)
  {
    if a != [] && b != [] && a[0] == b[0] {
      LessTotal(a[1..], b[1..]);
      assert a == [a[0]] + a[1..] && b == [b[0]] + b[1..];
    }
  }

  // A proper prefix comes first.
  lemma {:induction false} PrefixLess(a: string, b: string)
    requires a <= b && a != b
    ensures Less(a, b)
  {
    if a != [] {
      assert a[0] == b[0];
      assert a == [a[0]] + a[1..] && b == [b[0]] + b[1..];
      PrefixLess(a[1..], b[1..]);
    }
  }

  // The first different character decides.
  lemma {:induction false} LessAt(a: string, b: string, n: nat)
    requires n < |a| && n < |b| && a[..n] == b[..n] && a[n] < b[n]
    ensures Less(a, b) && !Less(b, a)
  {
    if n > 0 {
      assert a[0] == a[..n][0] && b[0] == b[..n][0];
      assert a[1..][..n - 1] == a[..n][1..] && b[1..][..n - 1] == b[..n][1..];
      LessAt(a[1..], b[1..], n - 1);
    }
  }

  ghost predicate Sorted(s: seq<string>) {
    forall i, j :: 0 <= i < j < |s| ==> !Less(s[j], s[i])
  }

  ghost predicate StrictlySorted(s: seq<string>) {
    forall i, j :: 0 <= i < j < |s| ==> Less(s[i], s[j])
  }

  function Insert(x: string, s: seq<string>): seq<string> {
    if s == [] || Less(x, s[0]) then [x] + s else [s[0]] + Insert(x, s[1..])
  }

  // Python's sort, as a function.
  function Sort(s: seq<string>): seq<string> {
    if s == [] then [] else Insert(s[0], Sort(s[1..]))
  }

  lemma {:induction false} InsertKeeps(x: string, s: seq<string>)
    requires Sorted(s)
    ensures Sorted(Insert(x, s)) && multiset(Insert(x, s)) == multiset(s) + multiset{x}
  {
    if s == [] {
    } else if Less(x, s[0]) {
      forall j | 0 <= j < |s|
        ensures !Less(s[j], x)
      {
        LessIrreflexive(s[0]);
        if Less(s[j], x) {
          LessTransitive(s[j], x, s[0]);
        }
      }
    } else {
      assert s == [s[0]] + s[1..];
      InsertKeeps(x, s[1..]);
      var rest := Insert(x, s[1..]);
      forall j | 0 <= j < |rest|
        ensures !Less(rest[j], s[0])
      {
        assert rest[j] in multiset(rest);
        assert rest[j] == x || rest[j] in multiset(s[1..]);
      }
    }
  }

  lemma {:induction false} SortSorts(s: seq<string>)
    ensures Sorted(Sort(s)) && multiset(Sort(s)) == multiset(s)
    ensures forall x :: x in Sort(s) <==> x in s
  {
    hide Less, Insert, Sorted;
    if s == [] {
      NothingSorted();
    } else {
      SortSorts(s[1..]);
      InsertKeeps(s[0], Sort(s[1..]));
      assert s == [s[0]] + s[1..];
    }
    SameMembers(Sort(s), s);
  }

  lemma NothingSorted()
    ensures Sorted([])
  {
  }

  lemma SameMembers(s: seq<string>, t: seq<string>)
    requires multiset(s) == multiset(t)
    ensures forall x :: x in s <==> x in t
  {
    assert forall x :: x in s <==> x in multiset(s);
    assert forall x :: x in t <==> x in multiset(t);
  }

  // uniq: drops a line that equals the one before it.
  function Uniq(s: seq<string>): seq<string> {
    if |s| < 2 then s
    else if s[0] == s[1] then Uniq(s[1..])
    else [s[0]] + Uniq(s[1..])
  }

  lemma {:induction false} UniqOfSorted(s: seq<string>)
    requires Sorted(s)
    ensures StrictlySorted(Uniq(s))
    ensures forall x :: x in Uniq(s) <==> x in s
    ensures s != [] ==> Uniq(s) != [] && Uniq(s)[0] == s[0]
  {
    if |s| >= 2 {
      assert s == [s[0]] + s[1..];
      UniqOfSorted(s[1..]);
      if s[0] != s[1] {
        var rest := Uniq(s[1..]);
        LessTotal(s[0], s[1]);
        forall j | 0 <= j < |rest|
          ensures Less(s[0], rest[j])
        {
          if j > 0 {
            LessTransitive(s[0], rest[0], rest[j]);
          }
        }
      }
    }
  }

  function SortUniq(s: seq<string>): seq<string> {
    Uniq(Sort(s))
  }

  lemma SortUniqIsSet(s: seq<string>)
    ensures StrictlySorted(SortUniq(s))
    ensures forall x :: x in SortUniq(s) <==> x in s
  {
    SortSorts(s);
    UniqOfSorted(Sort(s));
  }
}
