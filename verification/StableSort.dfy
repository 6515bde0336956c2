/**
 JavaScript's `Array.prototype.sort`: a stable rearrangement into comparator order. `Sort` is
 one definition of it; `SortIsDetermined` shows that no other stable sorted rearrangement
 exists, so nothing proved about `Sort` depends on the algorithm an engine picks.
 */
module StableSort {
  import opened Sequences

  ghost predicate TotalPreorder<T(!new)>(le: (T, T) -> bool) {
    && (forall x, y :: le(x, y) || le(y, x))
    && (forall x, y, z :: le(x, y) && le(y, z) ==> le(x, z))
  }

  ghost predicate Sorted<T>(le: (T, T) -> bool, s: seq<T>) {
    forall i, j :: 0 <= i < j < |s| ==> le(s[i], s[j])
  }

  function Insert<T>(le: (T, T) -> bool, x: T, s: seq<T>): (r: seq<T>)
    ensures |r| == |s| + 1
  {
    if s == [] || le(x, s[0]) then [x] + s else [s[0]] + Insert(le, x, s[1..])
  }

  function Sort<T>(le: (T, T) -> bool, s: seq<T>): (r: seq<T>)
    ensures |r| == |s|
  {
    if s == [] then [] else Insert(le, s[0], Sort(le, s[1..]))
  }

  lemma {:induction false} InsertContents<T>(le: (T, T) -> bool, x: T, s: seq<T>)
    ensures multiset(Insert(le, x, s)) == multiset{x} + multiset(s)
  {
    if !(s == [] || le(x, s[0])) {
      InsertContents(le, x, s[1..]);
      assert s == [s[0]] + s[1..];
    }
  }

  lemma {:induction false} SortContents<T>(le: (T, T) -> bool, s: seq<T>)
    ensures multiset(Sort(le, s)) == multiset(s)
  {
    if s != [] {
      SortContents(le, s[1..]);
      InsertContents(le, s[0], Sort(le, s[1..]));
      assert s == [s[0]] + s[1..];
    }
  }

  lemma SortIn<T(!new)>(le: (T, T) -> bool, s: seq<T>)
    ensures forall x :: x in Sort(le, s) <==> x in s
  {
    SortContents(le, s);
    forall x
      ensures x in Sort(le, s) <==> x in s
    {
      assert x in s <==> x in multiset(s);
      assert x in Sort(le, s) <==> x in multiset(Sort(le, s));
    }
  }

  lemma {:induction false} InsertSorted<T(!new)>(le: (T, T) -> bool, x: T, s: seq<T>)
    requires TotalPreorder(le) && Sorted(le, s)
    ensures Sorted(le, Insert(le, x, s))
  {
    if !(s == [] || le(x, s[0])) {
      InsertSorted(le, x, s[1..]);
      var r := Insert(le, x, s[1..]);
      InsertContents(le, x, s[1..]);
      forall j | 0 <= j < |r|
        ensures le(s[0], r[j])
      {
        assert r[j] in multiset(r);
        assert r[j] == x || r[j] in s[1..];
      }
    }
  }

  lemma {:induction false} SortSorted<T(!new)>(le: (T, T) -> bool, s: seq<T>)
    requires TotalPreorder(le)
    ensures Sorted(le, Sort(le, s))
  {
    if s != [] {
      SortSorted(le, s[1..]);
      InsertSorted(le, s[0], Sort(le, s[1..]));
    }
  }

  /** Sorting a sorted list changes nothing, ties included. */
  lemma {:induction false} SortOfSorted<T>(le: (T, T) -> bool, s: seq<T>)
    requires Sorted(le, s)
    ensures Sort(le, s) == s
  {
    if s != [] {
      SortOfSorted(le, s[1..]);
      assert s == [s[0]] + s[1..];
      if |s| > 1 {
        assert le(s[0], s[1]);
      }
    }
  }

  lemma FilterInsertFront<T(!new)>(le: (T, T) -> bool, p: T -> bool, x: T, s: seq<T>)
    requires forall y :: y in s ==> le(x, y)
    ensures Filter(p, [x] + s) == if p(x) then Insert(le, x, Filter(p, s)) else Filter(p, s)
  {
    assert ([x] + s)[1..] == s;
    FilterIn(p, s);
    if Filter(p, s) != [] {
      assert Filter(p, s)[0] in Filter(p, s);
    }
  }

  lemma BelowHeadBelowAll<T(!new)>(le: (T, T) -> bool, x: T, s: seq<T>)
    requires TotalPreorder(le) && Sorted(le, s)
    requires s != [] && le(x, s[0])
    ensures forall y :: y in s ==> le(x, y)
  {
    forall k | 0 <= k < |s|
      ensures le(x, s[k])
    {
      if k > 0 {
        assert le(s[0], s[k]);
      }
    }
  }

  lemma {:induction false} FilterInsert<T(!new)>(le: (T, T) -> bool, p: T -> bool, x: T, s: seq<T>)
    requires TotalPreorder(le) && Sorted(le, s)
    ensures Filter(p, Insert(le, x, s)) == if p(x) then Insert(le, x, Filter(p, s)) else Filter(p, s)
  {
    if s == [] || le(x, s[0]) {
      if s != [] {
        BelowHeadBelowAll(le, x, s);
      }
      FilterInsertFront(le, p, x, s);
    } else {
      FilterInsert(le, p, x, s[1..]);
      assert ([s[0]] + Insert(le, x, s[1..]))[1..] == Insert(le, x, s[1..]);
      assert ([s[0]] + Filter(p, s[1..]))[1..] == Filter(p, s[1..]);
    }
  }

  /** Stability in full: sorting commutes with every filter, in particular with "equal to x". */
  lemma {:induction false} FilterSort<T(!new)>(le: (T, T) -> bool, p: T -> bool, s: seq<T>)
    requires TotalPreorder(le)
    ensures Filter(p, Sort(le, s)) == Sort(le, Filter(p, s))
  {
    if s != [] {
      FilterSort(le, p, s[1..]);
      SortSorted(le, s[1..]);
      FilterInsert(le, p, s[0], Sort(le, s[1..]));
      assert ([s[0]] + Filter(p, s[1..]))[1..] == Filter(p, s[1..]);
    }
  }

  /** The elements that `le` cannot tell from x. */
  function Ties<T>(le: (T, T) -> bool, x: T): T -> bool {
    y => le(x, y) && le(y, x)
  }

  lemma SortedHeadBelow<T(!new)>(le: (T, T) -> bool, r: seq<T>, x: T)
    requires TotalPreorder(le) && Sorted(le, r) && x in r
    ensures le(r[0], x)
  {
    var i :| 0 <= i < |r| && r[i] == x;
    assert i == 0 || le(r[0], r[i]);
    assert le(x, x);
  }

  /** Two sorted lists with the same contents and the same ties start alike. */
  lemma SortedHeads<T(!new)>(le: (T, T) -> bool, r: seq<T>, t: seq<T>)
    requires TotalPreorder(le) && Sorted(le, r) && Sorted(le, t) && r != [] && t != []
    requires r[0] in t && t[0] in r
    requires Filter(Ties(le, r[0]), r) == Filter(Ties(le, r[0]), t)
    ensures r[0] == t[0]
  {
    SortedHeadBelow(le, t, r[0]);
    SortedHeadBelow(le, r, t[0]);
    SortedHeadBelow(le, r, r[0]);
    assert Ties(le, r[0])(r[0]) && Ties(le, r[0])(t[0]);
    assert Filter(Ties(le, r[0]), r)[0] == r[0];
    assert Filter(Ties(le, r[0]), t)[0] == t[0];
  }

  lemma FilterTails<T>(p: T -> bool, r: seq<T>, t: seq<T>)
    requires r != [] && t != [] && r[0] == t[0]
    requires Filter(p, r) == Filter(p, t)
    ensures Filter(p, r[1..]) == Filter(p, t[1..])
  {
    if p(r[0]) {
      assert Filter(p, r)[1..] == Filter(p, r[1..]);
      assert Filter(p, t)[1..] == Filter(p, t[1..]);
    }
  }

  lemma TailContents<T>(r: seq<T>, t: seq<T>)
    requires r != [] && t != [] && r[0] == t[0] && multiset(r) == multiset(t)
    ensures multiset(r[1..]) == multiset(t[1..])
  {
    assert r == [r[0]] + r[1..] && t == [t[0]] + t[1..];
    assert multiset(r[1..]) == multiset(r) - multiset{r[0]};
    assert multiset(t[1..]) == multiset(t) - multiset{t[0]};
  }

  lemma HeadsAreShared<T>(r: seq<T>, t: seq<T>)
    requires multiset(r) == multiset(t)
    ensures |r| == |t|
    ensures r != [] ==> r[0] in t && t[0] in r
  {
    assert |r| == |multiset(r)| == |multiset(t)| == |t|;
    if r != [] {
      assert r[0] in multiset(t) && t[0] in multiset(r);
    }
  }

  lemma {:induction false} SortedTies<T(!new)>(le: (T, T) -> bool, r: seq<T>, t: seq<T>)
    requires TotalPreorder(le) && Sorted(le, r) && Sorted(le, t)
    requires multiset(r) == multiset(t)
    requires forall x :: Filter(Ties(le, x), r) == Filter(Ties(le, x), t)
    ensures r == t
  {
    hide Filter;
    HeadsAreShared(r, t);
    if r != [] {
      SortedHeads(le, r, t);
      forall x
        ensures Filter(Ties(le, x), r[1..]) == Filter(Ties(le, x), t[1..])
      {
        FilterTails(Ties(le, x), r, t);
      }
      TailContents(r, t);
      SortedTies(le, r[1..], t[1..]);
    }
  }

  /** Whatever a sort routine returns, if it is a sorted rearrangement that keeps ties in input order, it is `Sort`. */
  lemma SortIsDetermined<T(!new)>(le: (T, T) -> bool, s: seq<T>, r: seq<T>)
    requires TotalPreorder(le) && Sorted(le, r)
    requires multiset(r) == multiset(s)
    requires forall x :: Filter(Ties(le, x), r) == Filter(Ties(le, x), s)
    ensures r == Sort(le, s)
  {
    SortSorted(le, s);
    SortContents(le, s);
    forall x
      ensures Filter(Ties(le, x), Sort(le, s)) == Filter(Ties(le, x), r)
    {
      var p := Ties(le, x);
      var ties := Filter(p, s);
      FilterSort(le, p, s);
      FilterIn(p, s);
      forall i, j | 0 <= i < j < |ties|
        ensures le(ties[i], ties[j])
      {
        assert ties[i] in ties && ties[j] in ties;
        assert p(ties[i]) && p(ties[j]);
      }
      SortOfSorted(le, ties);
    }
    SortedTies(le, r, Sort(le, s));
  }

  /** Ties of x under an order that agrees with `le` on a list are the ties of some element of the list, or none. */
  lemma TiesAmong<T(!new)>(le: (T, T) -> bool, ge: (T, T) -> bool, s: seq<T>, r: seq<T>, x: T)
    requires TotalPreorder(ge)
    requires forall a, b :: a in s && b in s ==> (le(a, b) <==> ge(a, b))
    requires forall a :: a in r <==> a in s
    requires forall a :: a in s ==> Filter(Ties(le, a), r) == Filter(Ties(le, a), s)
    ensures Filter(Ties(ge, x), r) == Filter(Ties(ge, x), s)
  {
    if a :| a in s && Ties(ge, x)(a) {
      FilterCongruent(Ties(ge, x), Ties(le, a), r);
      FilterCongruent(Ties(ge, x), Ties(le, a), s);
    } else {
      FilterNone(Ties(ge, x), r);
      FilterNone(Ties(ge, x), s);
    }
  }

  /** The same for a comparator that is a total preorder only on the elements that are sorted. */
  lemma SortIsDeterminedAmong<T(!new)>(le: (T, T) -> bool, ge: (T, T) -> bool, s: seq<T>, r: seq<T>)
    requires TotalPreorder(ge) && Sorted(le, r) && multiset(r) == multiset(s)
    requires forall a, b :: a in s && b in s ==> (le(a, b) <==> ge(a, b))
    requires forall a :: a in s ==> Filter(Ties(le, a), r) == Filter(Ties(le, a), s)
    ensures r == Sort(le, s)
  {
    forall a
      ensures a in r <==> a in s
    {
      assert a in r <==> a in multiset(r);
      assert a in s <==> a in multiset(s);
    }
    assert forall i :: 0 <= i < |r| ==> r[i] in s;
    forall x
      ensures Filter(Ties(ge, x), r) == Filter(Ties(ge, x), s)
    {
      TiesAmong(le, ge, s, r, x);
    }
    SortIsDetermined(ge, s, r);
    SortCongruent(le, ge, s);
  }

  /** Without ties there is one sorted rearrangement at all. */
  lemma {:induction false} StrictOrderIsUnique<T(!new)>(le: (T, T) -> bool, r: seq<T>, t: seq<T>)
    requires TotalPreorder(le) && Sorted(le, r) && multiset(r) == multiset(t)
    requires forall i, j :: 0 <= i < j < |t| ==> !le(t[j], t[i])
    ensures r == t
  {
    HeadsAreShared(r, t);
    if t != [] {
      SortedHeadBelow(le, r, t[0]);
      TailContents(r, t);
      StrictOrderIsUnique(le, r[1..], t[1..]);
    }
  }

  lemma TakeCons<T>(x: T, s: seq<T>, n: nat)
    requires n > 0
    ensures Take([x] + s, n) == [x] + Take(s, n - 1)
  {
    assert ([x] + s)[..Min(n, |s| + 1)] == [x] + s[..Min(n - 1, |s|)];
  }

  /** Cutting before an insertion loses nothing that the cut after it would have kept. */
  lemma {:induction false} TakeInsert<T>(le: (T, T) -> bool, x: T, s: seq<T>, n: nat)
    ensures Take(Insert(le, x, Take(s, n)), n) == Take(Insert(le, x, s), n)
  {
    if n == 0 || s == [] {
    } else if le(x, s[0]) {
      assert Take(s, n)[0] == s[0];
    } else {
      TakeInsert(le, x, s[1..], n - 1);
      assert s == [s[0]] + s[1..];
      TakeCons(s[0], s[1..], n);
      assert Take(s, n)[1..] == Take(s[1..], n - 1);
      var long := Insert(le, x, s[1..]);
      var short := Insert(le, x, Take(s[1..], n - 1));
      TakeCons(s[0], long, n);
      TakeCons(s[0], short, n);
    }
  }

  lemma TakeSorted<T>(le: (T, T) -> bool, s: seq<T>, n: nat)
    requires Sorted(le, s)
    ensures Sorted(le, Take(s, n))
  {
  }

  /** The comparator "members of a group first, then by `le`" that every two-level sort here uses. */
  function Grouped<T>(first: T -> bool, le: (T, T) -> bool): (T, T) -> bool {
    (a: T, b: T) => if first(a) != first(b) then first(a) else le(a, b)
  }

  lemma GroupedIs<T>(first: T -> bool, le: (T, T) -> bool, a: T, b: T)
    ensures Grouped(first, le)(a, b) <==> if first(a) != first(b) then first(a) else le(a, b)
  {
  }

  function Not<T>(p: T -> bool): T -> bool { x => !p(x) }

  lemma GroupedIsPreorder<T(!new)>(first: T -> bool, le: (T, T) -> bool)
    requires TotalPreorder(le)
    ensures TotalPreorder(Grouped(first, le))
  {
    var g := Grouped(first, le);
    forall x, y, z | g(x, y) && g(y, z)
      ensures g(x, z)
    {
      if first(x) == first(z) {
        assert le(x, y) && le(y, z);
      }
    }
    forall x, y
      ensures g(x, y) || g(y, x)
    {
      assert le(x, y) || le(y, x);
    }
  }

  lemma {:induction false} InsertCongruent<T>(le: (T, T) -> bool, ge: (T, T) -> bool, x: T, s: seq<T>)
    requires forall y :: y in s ==> (le(x, y) <==> ge(x, y))
    ensures Insert(le, x, s) == Insert(ge, x, s)
  {
    if s != [] {
      InsertCongruent(le, ge, x, s[1..]);
    }
  }

  /** Two orders that agree on the elements sort them alike. */
  lemma {:induction false} SortCongruent<T(!new)>(le: (T, T) -> bool, ge: (T, T) -> bool, s: seq<T>)
    requires forall x, y :: x in s && y in s ==> (le(x, y) <==> ge(x, y))
    ensures Sort(le, s) == Sort(ge, s)
  {
    if s != [] {
      SortCongruent(le, ge, s[1..]);
      SortIn(le, s[1..]);
      forall y | y in Sort(le, s[1..])
        ensures y in s
      {
        assert y in s[1..];
      }
      InsertCongruent(le, ge, s[0], Sort(le, s[1..]));
    }
  }

  lemma NoneAfterFirstOut<T>(first: T -> bool, le: (T, T) -> bool, s: seq<T>)
    requires Sorted(Grouped(first, le), s) && s != [] && !first(s[0])
    ensures forall x :: x in s ==> !first(x)
  {
    forall i | 0 <= i < |s|
      ensures !first(s[i])
    {
      assert i == 0 || Grouped(first, le)(s[0], s[i]);
    }
  }

  lemma {:induction false} GroupsInOrder<T>(first: T -> bool, le: (T, T) -> bool, s: seq<T>)
    requires Sorted(Grouped(first, le), s)
    ensures s == Filter(first, s) + Filter(Not(first), s)
  {
    if s != [] {
      GroupsInOrder(first, le, s[1..]);
      assert s == [s[0]] + s[1..];
      if !first(s[0]) {
        NoneAfterFirstOut(first, le, s);
        FilterNone(first, s);
        FilterAll(Not(first), s);
      }
    }
  }

  /** A two-level sort is the sorted group followed by the sorted rest. */
  lemma GroupedSort<T(!new)>(first: T -> bool, le: (T, T) -> bool, s: seq<T>)
    requires TotalPreorder(le)
    ensures Sort(Grouped(first, le), s) == Sort(le, Filter(first, s)) + Sort(le, Filter(Not(first), s))
  {
    var g := Grouped(first, le);
    GroupedIsPreorder(first, le);
    SortSorted(g, s);
    GroupsInOrder(first, le, Sort(g, s));
    FilterSort(g, first, s);
    FilterSort(g, Not(first), s);
    FilterIn(first, s);
    FilterIn(Not(first), s);
    SortCongruent(g, le, Filter(first, s));
    SortCongruent(g, le, Filter(Not(first), s));
  }
}
