/** Directory listings and their ordering.  `read_dir` yields entries in no
    particular order and `sort_unstable` puts them in ascending order of their
    paths; siblings share every path component but the last, so the order is
    the lexicographic order of their names. */
module Listings {

  /** A directory entry: the name that orders it, the stem that is decoded,
      and (for a directory) the entries it contains. */
  datatype DirEntry = DirEntry(name: string, stem: string, children: seq<DirEntry>)

  /** Lexicographic order on names, compared character by character. */
  predicate LexLe(a: string, b: string)
  {
    LexLeFrom(a, b, 0)
  }

  /** The comparison from position `i` on, the positions before it being equal. */
  predicate LexLeFrom(a: string, b: string, i: nat)
    decreases |a| - i
  {
    i >= |a| || (i < |b| && (a[i] < b[i] || (a[i] == b[i] && LexLeFrom(a, b, i + 1))))
  }

  lemma {:induction false} LexLeFromRefl(a: string, i: nat)
    ensures LexLeFrom(a, a, i)
    decreases |a| - i
  {
    if i < |a| {
      LexLeFromRefl(a, i + 1);
    }
  }

  lemma LexLeRefl(a: string)
    ensures LexLe(a, a)
  {
    LexLeFromRefl(a, 0);
  }

  lemma {:induction false} LexLeFromTotal(a: string, b: string, i: nat)
    ensures LexLeFrom(a, b, i) || LexLeFrom(b, a, i)
    decreases |a| - i
  {
    if i < |a| && i < |b| && a[i] == b[i] {
      LexLeFromTotal(a, b, i + 1);
    }
  }

  lemma LexLeTotal(a: string, b: string)
    ensures LexLe(a, b) || LexLe(b, a)
  {
    LexLeFromTotal(a, b, 0);
  }

  lemma {:induction false} LexLeFromAntisym(a: string, b: string, i: nat)
    requires i <= |a| && i <= |b|
    requires LexLeFrom(a, b, i) && LexLeFrom(b, a, i)
    ensures |a| == |b| && forall k :: i <= k < |a| ==> a[k] == b[k]
    decreases |a| - i
  {
    if i < |a| && i < |b| {
      LexLeFromAntisym(a, b, i + 1);
    }
  }

  lemma LexLeAntisym(a: string, b: string)
    requires LexLe(a, b) && LexLe(b, a)
    ensures a == b
  {
    LexLeFromAntisym(a, b, 0);
  }

  lemma {:induction false} LexLeFromTrans(a: string, b: string, c: string, i: nat)
    requires LexLeFrom(a, b, i) && LexLeFrom(b, c, i)
    ensures LexLeFrom(a, c, i)
    decreases |a| - i
  {
    if i < |a| && a[i] == b[i] && b[i] == c[i] {
      LexLeFromTrans(a, b, c, i + 1);
    }
  }

  lemma LexLeTrans(a: string, b: string, c: string)
    requires LexLe(a, b) && LexLe(b, c)
    ensures LexLe(a, c)
  {
    LexLeFromTrans(a, b, c, 0);
  }

  /** Ascending by name. */
  ghost predicate SortedByName(s: seq<DirEntry>)
  {
    forall i, j :: 0 <= i < j < |s| ==> LexLe(s[i].name, s[j].name)
  }

  /** Every neighbouring pair is in order. */
  ghost predicate AdjacentSorted(s: seq<DirEntry>)
  {
    forall k :: 0 < k < |s| ==> LexLe(s[k - 1].name, s[k].name)
  }

  /** No two entries of one listing share a name, as in any directory. */
  ghost predicate DistinctNames(s: seq<DirEntry>)
  {
    forall i, j :: 0 <= i < j < |s| ==> s[i].name != s[j].name
  }

  lemma {:induction false} AdjacentToSorted(s: seq<DirEntry>)
    requires AdjacentSorted(s)
    ensures SortedByName(s)
  {
    if |s| > 1 {
      var t := s[..|s| - 1];
      assert AdjacentSorted(t);
      AdjacentToSorted(t);
      forall i | 0 <= i < |s| - 1 ensures LexLe(s[i].name, s[|s| - 1].name) {
        if i < |s| - 2 {
          assert LexLe(t[i].name, t[|s| - 2].name);
          LexLeTrans(s[i].name, s[|s| - 2].name, s[|s| - 1].name);
        }
      }
    }
  }

  /** Reference sort: insert into an already sorted listing. */
  function Insert(x: DirEntry, s: seq<DirEntry>): (r: seq<DirEntry>)
    ensures multiset(r) == multiset{x} + multiset(s)
    ensures |r| == |s| + 1
  {
    if s == [] then [x]
    else if LexLe(x.name, s[0].name) then [x] + s
    else
      assert s == [s[0]] + s[1..];
      [s[0]] + Insert(x, s[1..])
  }

  /** Reference sort: insertion sort on names. */
  function SortByName(s: seq<DirEntry>): (r: seq<DirEntry>)
    ensures multiset(r) == multiset(s)
    ensures |r| == |s|
  {
    if s == [] then []
    else
      assert s == [s[0]] + s[1..];
      Insert(s[0], SortByName(s[1..]))
  }

  /** The reference sort keeps exactly the entries it was given. */
  lemma SortByNameMembers(s: seq<DirEntry>)
    ensures forall x :: x in SortByName(s) <==> x in s
  {
    forall x ensures x in SortByName(s) <==> x in s {
      assert x in SortByName(s) <==> x in multiset(SortByName(s));
      assert x in s <==> x in multiset(s);
    }
  }

  /** Every name in `s` is at least `b`. */
  ghost predicate Above(b: string, s: seq<DirEntry>)
  {
    forall k :: 0 <= k < |s| ==> LexLe(b, s[k].name)
  }

  lemma {:induction false} InsertAbove(b: string, x: DirEntry, s: seq<DirEntry>)
    requires Above(b, s) && LexLe(b, x.name)
    ensures Above(b, Insert(x, s))
  {
    if s != [] && !LexLe(x.name, s[0].name) {
      assert Above(b, s[1..]);
      InsertAbove(b, x, s[1..]);
    }
  }

  lemma ConsSorted(h: DirEntry, s: seq<DirEntry>)
    requires SortedByName(s) && Above(h.name, s)
    ensures SortedByName([h] + s)
  {
  }

  lemma {:induction false} InsertSorted(x: DirEntry, s: seq<DirEntry>)
    requires SortedByName(s)
    ensures SortedByName(Insert(x, s))
  {
    if s == [] {
    } else if LexLe(x.name, s[0].name) {
      forall k | 0 <= k < |s| ensures LexLe(x.name, s[k].name) {
        if k > 0 {
          LexLeTrans(x.name, s[0].name, s[k].name);
        }
      }
      ConsSorted(x, s);
    } else {
      LexLeTotal(x.name, s[0].name);
      var tail := s[1..];
      assert SortedByName(tail) && Above(s[0].name, tail);
      InsertSorted(x, tail);
      InsertAbove(s[0].name, x, tail);
      ConsSorted(s[0], Insert(x, tail));
    }
  }

  /** The reference sort gives a sorted permutation. */
  lemma {:induction false} SortByNameSorted(s: seq<DirEntry>)
    ensures SortedByName(SortByName(s)) && multiset(SortByName(s)) == multiset(s)
  {
    if s != [] {
      SortByNameSorted(s[1..]);
      InsertSorted(s[0], SortByName(s[1..]));
    }
  }

  /** The sorted arrangement of a listing. */
  ghost function Arranged(s: seq<DirEntry>): (r: seq<DirEntry>)
    ensures SortedByName(r) && multiset(r) == multiset(s)
  {
    SortByNameSorted(s);
    var r :| SortedByName(r) && multiset(r) == multiset(s); r
  }

  /** The sorted arrangement keeps exactly the entries it was given. */
  lemma ArrangedMembers(s: seq<DirEntry>)
    ensures |Arranged(s)| == |s|
    ensures forall x :: x in Arranged(s) <==> x in s
  {
    var r := Arranged(s);
    assert |r| == |multiset(r)| == |multiset(s)| == |s|;
    forall x ensures x in r <==> x in s {
      assert x in r <==> x in multiset(r);
      assert x in s <==> x in multiset(s);
    }
  }

  lemma {:induction false} CountInDistinct(u: seq<DirEntry>, x: DirEntry)
    requires DistinctNames(u) && x in u
    ensures multiset(u)[x] == 1
  {
    assert u == [u[0]] + u[1..];
    var rest := u[1..];
    if x == u[0] {
      forall j | 0 <= j < |rest| ensures rest[j] != x {
        assert u[j + 1].name != u[0].name;
      }
      assert multiset(rest)[x] == 0;
    } else {
      assert DistinctNames(rest);
      CountInDistinct(rest, x);
    }
  }

  /** A permutation of a listing with distinct names has distinct names. */
  lemma DistinctNamesPermutation(u: seq<DirEntry>, s: seq<DirEntry>)
    requires DistinctNames(u) && multiset(s) == multiset(u)
    ensures DistinctNames(s)
  {
    forall i, j | 0 <= i < j < |s| ensures s[i].name != s[j].name {
      if s[i].name == s[j].name {
        assert s[i] in multiset(u) && s[j] in multiset(u);
        var p :| 0 <= p < |u| && u[p] == s[i];
        var q :| 0 <= q < |u| && u[q] == s[j];
        assert p == q;
        var x := s[i];
        assert s == s[..j] + s[j..];
        assert x in s[..j];
        assert x in s[j..];
        assert multiset(s)[x] == multiset(s[..j])[x] + multiset(s[j..])[x];
        CountInDistinct(u, x);
        assert false;
      }
    }
  }

  /** Two sorted arrangements of the same distinct listing start alike. */
  lemma SortedHeads(s: seq<DirEntry>, t: seq<DirEntry>)
    requires SortedByName(s) && SortedByName(t)
    requires multiset(s) == multiset(t) && DistinctNames(s) && |s| > 0
    ensures |t| > 0 && s[0] == t[0]
  {
    assert s[0] in multiset(t);
    var m :| 0 <= m < |t| && t[m] == s[0];
    assert t[0] in multiset(s);
    var n :| 0 <= n < |s| && s[n] == t[0];
    LexLeRefl(s[0].name);
    LexLeRefl(t[0].name);
    assert LexLe(t[0].name, s[0].name);
    assert LexLe(s[0].name, t[0].name);
    LexLeAntisym(s[0].name, t[0].name);
  }

  lemma MultisetTails(s: seq<DirEntry>, t: seq<DirEntry>)
    requires |s| > 0 && |t| > 0 && s[0] == t[0] && multiset(s) == multiset(t)
    ensures multiset(s[1..]) == multiset(t[1..])
  {
    assert s == [s[0]] + s[1..];
    assert t == [t[0]] + t[1..];
    assert multiset(s) == multiset{s[0]} + multiset(s[1..]);
    assert multiset(t) == multiset{s[0]} + multiset(t[1..]);
    assert multiset(s[1..]) == multiset(s) - multiset{s[0]};
  }

  /** A listing with distinct names has exactly one sorted arrangement. */
  lemma {:induction false} SortedUnique(s: seq<DirEntry>, t: seq<DirEntry>)
    requires SortedByName(s) && SortedByName(t)
    requires multiset(s) == multiset(t) && DistinctNames(s)
    ensures s == t
  {
    if s == [] {
      assert |t| == |multiset(t)| == 0;
    } else {
      SortedHeads(s, t);
      MultisetTails(s, t);
      assert SortedByName(s[1..]) && SortedByName(t[1..]) && DistinctNames(s[1..]);
      SortedUnique(s[1..], t[1..]);
      assert s == [s[0]] + s[1..];
      assert t == [t[0]] + t[1..];
    }
  }

  /** A listing that is already in order is its own sorted arrangement. */
  lemma ArrangedIdentity(s: seq<DirEntry>)
    requires SortedByName(s) && DistinctNames(s)
    ensures Arranged(s) == s
  {
    SortedUnique(s, Arranged(s));
  }

  /** While `a[j]` moves left through `a[..i + 1]`: every neighbouring pair
      up to `i` is in order except possibly the one ending at `j`. */
  ghost predicate OrderedExcept(s: seq<DirEntry>, i: nat, j: nat)
    requires i < |s|
  {
    (forall k :: 0 < k <= i && k != j ==> LexLe(s[k - 1].name, s[k].name)) &&
    (0 < j < i ==> LexLe(s[j - 1].name, s[j + 1].name))
  }

  /** `t` holds the same entries as `s`, as often. */
  ghost predicate SameEntries(s: seq<DirEntry>, t: seq<DirEntry>)
  {
    multiset(s) == multiset(t)
  }

  /** Swapping the out-of-order pair ending at `j` moves the exception to `j - 1`. */
  lemma SwapStep(s: seq<DirEntry>, i: nat, j: nat)
    requires 0 < j <= i < |s| && OrderedExcept(s, i, j)
    requires !LexLe(s[j - 1].name, s[j].name)
    ensures OrderedExcept(s[j - 1 := s[j]][j := s[j - 1]], i, j - 1)
    ensures SameEntries(s[j - 1 := s[j]][j := s[j - 1]], s)
  {
    var t := s[j - 1 := s[j]][j := s[j - 1]];
    LexLeTotal(s[j - 1].name, s[j].name);
    forall k | 0 < k <= i && k != j - 1 ensures LexLe(t[k - 1].name, t[k].name) {
      if k == j {
        assert t[k - 1] == s[j] && t[k] == s[j - 1];
      } else if k == j + 1 {
        assert t[k - 1] == s[j - 1] && t[k] == s[j + 1];
      } else {
        assert t[k - 1] == s[k - 1] && t[k] == s[k];
      }
    }
    if 0 < j - 1 {
      assert t[j - 2] == s[j - 2] && t[j] == s[j - 1];
      assert LexLe(s[j - 2].name, s[j - 1].name);
    }
    SwapEntries(s, j - 1, j);
  }

  /** Exchanging two entries keeps the same entries. */
  lemma SwapEntries(s: seq<DirEntry>, p: nat, q: nat)
    requires p < q < |s|
    ensures SameEntries(s[p := s[q]][q := s[p]], s)
  {
  }

  lemma SameEntriesTrans(s: seq<DirEntry>, t: seq<DirEntry>, u: seq<DirEntry>)
    requires SameEntries(s, t) && SameEntries(t, u)
    ensures SameEntries(s, u)
  {
  }

  /** Move `a[i]` left past every neighbour that should follow it; the
      prefix `a[..i]` is in order before, `a[..i + 1]` after. */
  method SiftLeft(a: array<DirEntry>, i: nat)
    requires i < a.Length && AdjacentSorted(a[..i])
    modifies a
    ensures AdjacentSorted(a[..i + 1])
    ensures a[i + 1..] == old(a[i + 1..])
    ensures SameEntries(a[..], old(a[..]))
  {
    var j := i;
    assert OrderedExcept(a[..], i, j);
    while j > 0 && !LexLe(a[j - 1].name, a[j].name)
      invariant 0 <= j <= i
      invariant OrderedExcept(a[..], i, j)
      invariant a[i + 1..] == old(a[i + 1..])
      invariant SameEntries(a[..], old(a[..]))
    {
      ghost var s := a[..];
      SwapStep(s, i, j);
      a[j - 1], a[j] := a[j], a[j - 1];
      assert a[..] == s[j - 1 := s[j]][j := s[j - 1]];
      SameEntriesTrans(a[..], s, old(a[..]));
      j := j - 1;
    }
  }

  /** `sort_unstable` on a collected listing: insertion sort by adjacent swaps. */
  method SortInPlace(a: array<DirEntry>)
    modifies a
    ensures SortedByName(a[..])
    ensures SameEntries(a[..], old(a[..]))
  {
    var i := 0;
    while i < a.Length
      invariant 0 <= i <= a.Length
      invariant AdjacentSorted(a[..i])
      invariant SameEntries(a[..], old(a[..]))
    {
      SiftLeft(a, i);
      i := i + 1;
    }
    assert a[..a.Length] == a[..];
    AdjacentToSorted(a[..]);
  }

  /** Collect a listing into a vector and sort it; the outcome is the
      reference sort whenever the names are distinct. */
  method CollectSorted(listing: seq<DirEntry>) returns (a: array<DirEntry>)
    requires DistinctNames(listing)
    ensures fresh(a)
    ensures a[..] == Arranged(listing)
  {
    a := new DirEntry[|listing|](k requires 0 <= k < |listing| => listing[k]);
    assert a[..] == listing;
    SortInPlace(a);
    DistinctNamesPermutation(listing, Arranged(listing));
    SortedUnique(Arranged(listing), a[..]);
  }
}
