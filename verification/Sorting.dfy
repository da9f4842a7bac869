/**
 Sorting directory entries by name. A directory holds each name once and lists its entries in any order;
 sorting makes the order of the listing irrelevant.
 */
module Sorting {
  import opened Text

  datatype Named<+T> = Named(name: string, value: T)

  predicate Distinct<T>(s: seq<Named<T>>) {
    forall i, j | 0 <= i < j < |s| :: s[i].name != s[j].name
  }

  predicate Sorted<T>(s: seq<Named<T>>) {
    forall i, j | 0 <= i < j < |s| :: LexLess(s[i].name, s[j].name)
  }

  ghost function Names<T>(s: seq<Named<T>>): set<string> {
    set e | e in s :: e.name
  }

  /** Puts `e` in front of the first entry that does not sort before it. */
  function Insert<T(!new)>(e: Named<T>, s: seq<Named<T>>): (r: seq<Named<T>>)
    ensures multiset(r) == multiset{e} + multiset(s)
    ensures forall x :: x in r <==> x == e || x in s
  {
    if s == [] then [e]
    else if LexLess(s[0].name, e.name) then
      assert s == [s[0]] + s[1..];
      [s[0]] + Insert(e, s[1..])
    else
      [e] + s
  }

  function SortByName<T(!new)>(s: seq<Named<T>>): (r: seq<Named<T>>)
    ensures multiset(r) == multiset(s)
    ensures forall x :: x in r <==> x in s
  {
    if s == [] then [] else
      assert s == [s[0]] + s[1..];
      Insert(s[0], SortByName(s[1..]))
  }

  lemma SameElements<T(!new)>(s: seq<Named<T>>, t: seq<Named<T>>)
    requires multiset(s) == multiset(t)
    ensures |s| == |t| && forall e :: e in s <==> e in t
  {
    assert |multiset(s)| == |s| && |multiset(t)| == |t|;
    forall e
      ensures e in s <==> e in t
    {
      assert e in s <==> e in multiset(s);
      assert e in t <==> e in multiset(t);
    }
  }

  lemma {:induction false} InsertSorted<T(!new)>(e: Named<T>, s: seq<Named<T>>)
    requires Sorted(s) && e.name !in Names(s)
    ensures Sorted(Insert(e, s))
  {
    if s != [] {
      var rest := s[1..];
      LexTotal(s[0].name, e.name);
      if LexLess(s[0].name, e.name) {
        InsertSorted(e, rest);
        var r := Insert(e, rest);
        forall j | 0 <= j < |r|
          ensures LexLess(s[0].name, r[j].name)
        {
          assert r[j] in r;
          if r[j] != e {
            var k :| 0 <= k < |rest| && rest[k] == r[j];
            assert rest[k] == s[k + 1];
          }
        }
      } else {
        assert s[0].name in Names(s);
        forall j | 0 <= j < |s|
          ensures LexLess(e.name, s[j].name)
        {
          if j > 0 {
            LexTransitive(e.name, s[0].name, s[j].name);
          }
        }
      }
    }
  }

  lemma {:induction false} SortSorts<T(!new)>(s: seq<Named<T>>)
    requires Distinct(s)
    ensures Sorted(SortByName(s))
  {
    if s != [] {
      SortSorts(s[1..]);
      var r := SortByName(s[1..]);
      forall e | e in r
        ensures e.name != s[0].name
      {
        assert e in s[1..];
        var k :| 0 <= k < |s[1..]| && s[1..][k] == e;
        assert s[k + 1] == e;
      }
      InsertSorted(s[0], r);
    }
  }

  /** One set of entries has one sorted order. */
  lemma {:induction false} SortedIsUnique<T(!new)>(s: seq<Named<T>>, t: seq<Named<T>>)
    requires Sorted(s) && Sorted(t) && multiset(s) == multiset(t)
    ensures s == t
  {
    SameElements(s, t);
    if s != [] {
      SmallestFirst(s, t);
      assert s == [s[0]] + s[1..] && t == [t[0]] + t[1..];
      assert multiset(s[1..]) == multiset(s) - multiset{s[0]};
      assert multiset(t[1..]) == multiset(t) - multiset{t[0]};
      SortedIsUnique(s[1..], t[1..]);
    }
  }

  lemma SmallestFirst<T(!new)>(s: seq<Named<T>>, t: seq<Named<T>>)
    requires Sorted(s) && Sorted(t) && s != [] && t != []
    requires forall e :: e in s <==> e in t
    ensures s[0] == t[0]
  {
    assert s[0] in t && t[0] in s;
    var i :| 0 <= i < |t| && t[i] == s[0];
    var j :| 0 <= j < |s| && s[j] == t[0];
    if i > 0 && j > 0 {
      LexTotal(s[0].name, t[0].name);
    }
  }

  /** Two listings of one directory sort to the same sequence. */
  lemma ListingOrderIsIrrelevant<T(!new)>(s: seq<Named<T>>, t: seq<Named<T>>)
    requires Distinct(s) && multiset(s) == multiset(t)
    ensures SortByName(s) == SortByName(t)
  {
    DistinctByMultiset(s, t);
    SortSorts(s);
    SortSorts(t);
    SortedIsUnique(SortByName(s), SortByName(t));
  }

  lemma {:induction false} DistinctByMultiset<T(!new)>(s: seq<Named<T>>, t: seq<Named<T>>)
    requires Distinct(s) && multiset(s) == multiset(t)
    ensures Distinct(t)
  {
    forall i, j | 0 <= i < j < |t|
      ensures t[i].name != t[j].name
    {
      SameElements(s, t);
      assert t[i] in s && t[j] in s;
      var k :| 0 <= k < |s| && s[k] == t[i];
      var l :| 0 <= l < |s| && s[l] == t[j];
      if k == l {
        OnceEach(s, k);
        TwiceInMultiset(t, i, j);
        assert false;
      }
    }
  }

  lemma OnceEach<T>(s: seq<Named<T>>, k: nat)
    requires Distinct(s) && k < |s|
    ensures multiset(s)[s[k]] == 1
  {
    assert s == s[..k] + [s[k]] + s[k + 1..];
    assert s[k] !in s[..k] && s[k] !in s[k + 1..];
  }

  lemma TwiceInMultiset<T>(t: seq<T>, i: nat, j: nat)
    requires i < j < |t| && t[i] == t[j]
    ensures multiset(t)[t[i]] >= 2
  {
    assert t == t[..i] + [t[i]] + t[i + 1..j] + [t[j]] + t[j + 1..];
  }

  /** So do two that hold the same entries. */
  lemma {:induction false} SortedByElements<T(!new)>(s: seq<Named<T>>, t: seq<Named<T>>)
    requires Sorted(s) && Sorted(t) && forall e :: e in s <==> e in t
    ensures s == t
  {
    assert (s == [] || s[0] in s) && (t == [] || t[0] in t);
    if s != [] {
      SmallestFirst(s, t);
      RestOfSorted(s);
      RestOfSorted(t);
      SortedByElements(s[1..], t[1..]);
      assert s == [s[0]] + s[1..] && t == [t[0]] + t[1..];
    }
  }

  lemma RestOfSorted<T>(s: seq<Named<T>>)
    requires Sorted(s) && s != []
    ensures Sorted(s[1..]) && forall e :: e in s[1..] <==> e in s && e != s[0]
  {
    hide LexLess;
    assert s == [s[0]] + s[1..];
    forall e | e in s[1..]
      ensures e != s[0]
    {
      var i :| 0 <= i < |s[1..]| && s[1..][i] == e;
      assert LexLess(s[0].name, s[i + 1].name);
      LexTotal(s[0].name, s[0].name);
    }
  }
}
