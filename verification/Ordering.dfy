/** Go's string order and its stable sort, with the few facts about them that the rest of the project needs. */
module Ordering {

  /** Byte-wise lexicographic `<` on strings. */
  predicate Less(a: string, b: string) {
    b != "" && (a == "" || a[0] < b[0] || (a[0] == b[0] && Less(a[1..], b[1..])))
  }

  /** `less` never holds both ways, and its complement is transitive. */
  ghost predicate StrictWeak<T(!new)>(less: (T, T) -> bool) {
    && (forall x, y :: less(x, y) ==> !less(y, x))
    && (forall x, y, z :: !less(x, y) && !less(y, z) ==> !less(x, z))
  }

  /** A strict weak order in which only equal elements are unordered. */
  ghost predicate StrictTotal<T(!new)>(less: (T, T) -> bool) {
    && StrictWeak(less)
    && (forall x, y :: x != y ==> less(x, y) || less(y, x))
  }

  lemma {:induction false} LessTotal(a: string, b: string)
    ensures !(Less(a, b) && Less(b, a))
    ensures a != b ==> Less(a, b) || Less(b, a)
    decreases |a|
  {
    if a != "" && b != "" && a[0] == b[0] {
      LessTotal(a[1..], b[1..]);
      assert a == [a[0]] + a[1..] && b == [b[0]] + b[1..];
    }
  }

  lemma {:induction false} LessTransitive(a: string, b: string, c: string)
    requires Less(a, b) && Less(b, c)
    ensures Less(a, c)
    decreases |a|
  {
    if a != "" && a[0] == b[0] == c[0] {
      LessTransitive(a[1..], b[1..], c[1..]);
    }
  }

  lemma LessIsStrictTotal()
    ensures StrictTotal(Less)
  {
    forall x, y
      ensures !(Less(x, y) && Less(y, x))
      ensures x != y ==> Less(x, y) || Less(y, x)
    {
      LessTotal(x, y);
    }
    forall x, y, z | !Less(x, y) && !Less(y, z)
      ensures !Less(x, z)
    {
      LessTotal(x, y);
      LessTotal(y, z);
      LessTotal(x, z);
      if Less(x, z) && x != y && y != z {
        LessTransitive(y, x, z);
      }
    }
  }

  /** At the first difference `a` has ended or has the smaller character. */
  ghost predicate DiffersAt(a: string, b: string, k: nat) {
    k <= |a| && k < |b| && a[..k] == b[..k] && (k == |a| || a[k] < b[k])
  }

  lemma FirstsAgree(a: string, b: string, k: nat)
    requires DiffersAt(a, b, k) && k > 0
    ensures a != "" && b != "" && a[0] == b[0]
  {
    assert a[0] == a[..k][0] == b[..k][0] == b[0];
  }

  lemma {:induction false} LessIsLexicographic(a: string, b: string)
    ensures Less(a, b) <==> exists k: nat :: DiffersAt(a, b, k)
    decreases |a|
  {
    if a == "" || b == "" || a[0] != b[0] {
      assert a[..0] == b[..0];
      assert Less(a, b) ==> DiffersAt(a, b, 0);
      if k: nat :| DiffersAt(a, b, k) && k > 0 {
        FirstsAgree(a, b, k);
      }
    } else {
      LessIsLexicographic(a[1..], b[1..]);
      if Less(a, b) {
        var k: nat :| DiffersAt(a[1..], b[1..], k);
        assert a[..k + 1] == [a[0]] + a[1..][..k] && b[..k + 1] == [b[0]] + b[1..][..k];
        assert DiffersAt(a, b, k + 1);
      }
      if k: nat :| DiffersAt(a, b, k) {
        assert k > 0;
        assert a[1..][..k - 1] == a[..k][1..] && b[1..][..k - 1] == b[..k][1..];
        assert DiffersAt(a[1..], b[1..], k - 1);
      }
    }
  }

  // ---------- stable sort ----------

  ghost predicate Sorted<T(!new)>(s: seq<T>, less: (T, T) -> bool) {
    forall i, j :: 0 <= i < j < |s| ==> !less(s[j], s[i])
  }

  ghost predicate StrictlySorted<T(!new)>(s: seq<T>, less: (T, T) -> bool) {
    forall i, j :: 0 <= i < j < |s| ==> less(s[i], s[j])
  }

  function Insert<T>(x: T, s: seq<T>, less: (T, T) -> bool): seq<T> {
    if s == [] || !less(s[0], x) then [x] + s else [s[0]] + Insert(x, s[1..], less)
  }

  /** Stable insertion sort: the result of `sort.SliceStable` and, where keys are distinct, of `sort.Slice`. */
  function Sort<T>(s: seq<T>, less: (T, T) -> bool): seq<T> {
    if s == [] then [] else Insert(s[0], Sort(s[1..], less), less)
  }

  lemma {:induction false} InsertMultiset<T>(x: T, s: seq<T>, less: (T, T) -> bool)
    ensures multiset(Insert(x, s, less)) == multiset(s) + multiset{x}
  {
    if s != [] && less(s[0], x) {
      InsertMultiset(x, s[1..], less);
      assert s == [s[0]] + s[1..];
    }
  }

  lemma {:induction false} SortMultiset<T>(s: seq<T>, less: (T, T) -> bool)
    ensures multiset(Sort(s, less)) == multiset(s)
    ensures |Sort(s, less)| == |s|
  {
    if s != [] {
      SortMultiset(s[1..], less);
      InsertMultiset(s[0], Sort(s[1..], less), less);
      assert s == [s[0]] + s[1..];
    }
    assert |multiset(Sort(s, less))| == |Sort(s, less)| && |multiset(s)| == |s|;
  }

  lemma {:induction false} InsertSorted<T(!new)>(x: T, s: seq<T>, less: (T, T) -> bool)
    requires StrictWeak(less) && Sorted(s, less)
    ensures Sorted(Insert(x, s, less), less)
  {
    var r := Insert(x, s, less);
    if s != [] && less(s[0], x) {
      var tail := Insert(x, s[1..], less);
      InsertSorted(x, s[1..], less);
      forall j | 0 <= j < |tail|
        ensures !less(tail[j], s[0])
      {
        InsertMultiset(x, s[1..], less);
        assert tail[j] in multiset(tail);
        assert tail[j] == x || tail[j] in s[1..];
      }
    } else {
      forall i, j | 0 <= i < j < |r|
        ensures !less(r[j], r[i])
      {
        if i == 0 && j > 0 {
          assert r[j] == s[j - 1];
          assert !less(s[j - 1], s[0]) && !less(s[0], x);
        }
      }
    }
  }

  lemma {:induction false} SortSorted<T(!new)>(s: seq<T>, less: (T, T) -> bool)
    requires StrictWeak(less)
    ensures Sorted(Sort(s, less), less)
  {
    if s != [] {
      SortSorted(s[1..], less);
      InsertSorted(s[0], Sort(s[1..], less), less);
    }
  }

  lemma {:induction false} SortOfSorted<T(!new)>(s: seq<T>, less: (T, T) -> bool)
    requires Sorted(s, less)
    ensures Sort(s, less) == s
  {
    if s != [] {
      SortOfSorted(s[1..], less);
      assert s == [s[0]] + s[1..];
      if |s| > 1 {
        assert s[1..][0] == s[1];
      }
    }
  }

  lemma MultisetSplit<T>(s: seq<T>, j: nat)
    requires j < |s|
    ensures multiset(s) == multiset{s[j]} + multiset(s[..j] + s[j + 1..])
  {
    assert s == s[..j] + [s[j]] + s[j + 1..];
  }

  lemma MultisetCancel<T>(x: T, a: multiset<T>, b: multiset<T>)
    requires multiset{x} + a == multiset{x} + b
    ensures a == b
  {
    assert a == (multiset{x} + a) - multiset{x};
  }

  lemma FirstSplit<T>(s: seq<T>)
    requires s != []
    ensures multiset(s) == multiset{s[0]} + multiset(s[1..])
  {
    assert s == [s[0]] + s[1..];
  }

  lemma SameTails<T>(a: seq<T>, b: seq<T>)
    requires a != [] && b != [] && a[0] == b[0] && multiset(a) == multiset(b)
    ensures multiset(a[1..]) == multiset(b[1..])
  {
    FirstSplit(a);
    FirstSplit(b);
    MultisetCancel(a[0], multiset(a[1..]), multiset(b[1..]));
  }

  lemma FirstIsLeast<T(!new)>(s: seq<T>, x: T, less: (T, T) -> bool)
    requires Sorted(s, less) && x in s
    ensures x == s[0] || !less(x, s[0])
  {
    var k :| 0 <= k < |s| && s[k] == x;
  }

  /** A list whose distinct elements are all ordered has only one sorted arrangement. */
  lemma {:induction false} SortedUnique<T(!new)>(a: seq<T>, b: seq<T>, less: (T, T) -> bool)
    requires multiset(a) == multiset(b)
    requires Sorted(a, less) && Sorted(b, less)
    requires forall x, y :: x in a && y in a && x != y ==> less(x, y) || less(y, x)
    ensures a == b
  {
    assert |a| == |multiset(a)| == |multiset(b)| == |b|;
    if a != [] {
      assert a[0] in multiset(a) && b[0] in multiset(b);
      FirstIsLeast(a, b[0], less);
      FirstIsLeast(b, a[0], less);
      assert a[0] == b[0];
      SameTails(a, b);
      assert a == [a[0]] + a[1..] && b == [b[0]] + b[1..];
      SortedUnique(a[1..], b[1..], less);
    }
  }

  // ---------- sorted and compacted lists ----------

  /** Drops an element equal to the one kept before it. */
  function Compact<T(==)>(s: seq<T>): seq<T> {
    if |s| < 2 then s
    else if s[0] == s[1] then Compact(s[1..])
    else [s[0]] + Compact(s[1..])
  }

  function SortDistinct<T(==)>(s: seq<T>, less: (T, T) -> bool): seq<T> {
    Compact(Sort(s, less))
  }

  lemma {:induction false} CompactSorted<T(!new)>(s: seq<T>, less: (T, T) -> bool)
    requires StrictTotal(less) && Sorted(s, less)
    ensures StrictlySorted(Compact(s), less)
    ensures forall x :: x in Compact(s) <==> x in s
    ensures s != [] ==> Compact(s) != [] && Compact(s)[0] == s[0]
    ensures |Compact(s)| <= |s|
  {
    if |s| >= 2 {
      CompactSorted(s[1..], less);
      assert s == [s[0]] + s[1..];
      var tail := Compact(s[1..]);
      if s[0] != s[1] {
        forall j | 0 <= j < |tail|
          ensures less(s[0], tail[j])
        {
          assert tail[j] in s[1..];
          var k :| 0 <= k < |s[1..]| && s[1..][k] == tail[j];
          assert !less(s[k + 1], s[0]) && (k > 0 ==> !less(s[k + 1], s[1])) && !less(s[1], s[0]);
        }
      }
    }
  }

  lemma SortDistinctSpec<T(!new)>(s: seq<T>, less: (T, T) -> bool)
    requires StrictTotal(less)
    ensures StrictlySorted(SortDistinct(s, less), less)
    ensures forall x :: x in SortDistinct(s, less) <==> x in s
    ensures |SortDistinct(s, less)| <= |s|
  {
    SortSorted(s, less);
    SortMultiset(s, less);
    CompactSorted(Sort(s, less), less);
    forall x
      ensures x in Sort(s, less) <==> x in s
    {
      assert x in multiset(Sort(s, less)) <==> x in multiset(s);
    }
  }

  lemma StrictFirst<T(!new)>(s: seq<T>, x: T, less: (T, T) -> bool)
    requires StrictlySorted(s, less) && x in s
    ensures x == s[0] || less(s[0], x)
  {
    var k :| 0 <= k < |s| && s[k] == x;
  }

  /** A strictly sorted list is determined by its elements. */
  lemma {:induction false} StrictlySortedUnique<T(!new)>(a: seq<T>, b: seq<T>, less: (T, T) -> bool)
    requires StrictWeak(less)
    requires StrictlySorted(a, less) && StrictlySorted(b, less)
    requires forall x :: x in a <==> x in b
    ensures a == b
  {
    assert a != [] <==> b != [] by {
      assert a != [] ==> a[0] in a;
      assert b != [] ==> b[0] in b;
    }
    if a != [] {
      StrictFirst(a, b[0], less);
      StrictFirst(b, a[0], less);
      assert a == [a[0]] + a[1..] && b == [b[0]] + b[1..];
      assert forall x :: x in a[1..] ==> x in a && x != a[0];
      assert forall x :: x in b[1..] ==> x in b && x != b[0];
      StrictlySortedUnique(a[1..], b[1..], less);
    }
  }

  ghost function Elements<T>(s: seq<T>): set<T> {
    set x | x in s
  }

  // ---------- lists without repetition ----------

  predicate Distinct<T(==)>(s: seq<T>) {
    forall i, j :: 0 <= i < j < |s| ==> s[i] != s[j]
  }

  lemma {:induction false} DistinctFits<T>(s: seq<T>, all: set<T>)
    requires Distinct(s) && forall x :: x in s ==> x in all
    ensures |s| <= |all|
    decreases |s|
  {
    if s != [] {
      var last := s[|s| - 1];
      DistinctFits(s[..|s| - 1], all - {last});
    }
  }

  lemma {:induction false} DistinctCount<T>(s: seq<T>)
    requires Distinct(s)
    ensures |Elements(s)| == |s|
  {
    if s != [] {
      var front, last := s[..|s| - 1], s[|s| - 1];
      DistinctCount(front);
      assert s == front + [last] && last !in front;
      assert Elements(s) == Elements(front) + {last} && last !in Elements(front);
    }
  }

  // ---------- positions under permutation ----------

  lemma TwoPositions<T>(s: seq<T>, i: nat, j: nat)
    requires i < j < |s| && s[i] == s[j]
    ensures multiset(s)[s[i]] >= 2
  {
    assert s == s[..j] + [s[j]] + s[j + 1..];
    assert s[..j][i] == s[j];
  }

  lemma SecondPosition<T>(s: seq<T>, i: nat) returns (j: nat)
    requires i < |s| && multiset(s)[s[i]] >= 2
    ensures j < |s| && j != i && s[j] == s[i]
  {
    var rest := s[..i] + s[i + 1..];
    assert s == s[..i] + [s[i]] + s[i + 1..];
    assert multiset(rest)[s[i]] >= 1;
    assert s[i] in rest;
    var k :| 0 <= k < |rest| && rest[k] == s[i];
    j := if k < i then k else k + 1;
  }

  lemma PermutedPosition<T>(s: seq<T>, t: seq<T>, i: nat) returns (j: nat)
    requires multiset(s) == multiset(t) && i < |s|
    ensures j < |t| && t[j] == s[i]
  {
    assert s[i] in multiset(t);
    j :| 0 <= j < |t| && t[j] == s[i];
  }

  lemma PermutedTail<T>(s: seq<T>, t: seq<T>) returns (j: nat)
    requires s != [] && multiset(s) == multiset(t)
    ensures j < |t| && t[j] == s[0] && multiset(s[1..]) == multiset(t[..j] + t[j + 1..])
  {
    j := PermutedPosition(s, t, 0);
    MultisetSplit(s, 0);
    MultisetSplit(t, j);
    assert s[..0] + s[1..] == s[1..];
    MultisetCancel(s[0], multiset(s[1..]), multiset(t[..j] + t[j + 1..]));
  }

  function MapSeq<A, B>(f: A -> B, s: seq<A>): seq<B> {
    seq(|s|, i requires 0 <= i < |s| => f(s[i]))
  }

  lemma {:induction false} MapPermuted<A, B>(f: A -> B, a: seq<A>, b: seq<A>)
    requires multiset(a) == multiset(b)
    ensures multiset(MapSeq(f, a)) == multiset(MapSeq(f, b))
  {
    if a == [] {
      assert |b| == |multiset(b)| == |multiset(a)|;
    } else {
      var j := PermutedTail(a, b);
      var rest := b[..j] + b[j + 1..];
      MapPermuted(f, a[1..], rest);
      MapWithout(f, a, 0);
      MapWithout(f, b, j);
      assert a[..0] + a[1..] == a[1..];
    }
  }

  lemma MapWithout<A, B>(f: A -> B, s: seq<A>, j: nat)
    requires j < |s|
    ensures multiset(MapSeq(f, s)) == multiset{f(s[j])} + multiset(MapSeq(f, s[..j] + s[j + 1..]))
  {
    var mapped := MapSeq(f, s);
    MultisetSplit(mapped, j);
    assert mapped[..j] + mapped[j + 1..] == MapSeq(f, s[..j] + s[j + 1..]);
  }

  /** Two positions of `s` with distinct places have distinct places in a permutation of it. */
  lemma PermutedPair<T>(s: seq<T>, t: seq<T>, i: nat, j: nat, a: nat) returns (b: nat)
    requires multiset(s) == multiset(t) && i < |s| && j < |s| && i != j
    requires a < |t| && t[a] == s[i]
    ensures b < |t| && b != a && t[b] == s[j]
  {
    if s[i] == s[j] {
      TwoPositions(s, if i < j then i else j, if i < j then j else i);
      b := SecondPosition(t, a);
    } else {
      b := PermutedPosition(s, t, j);
    }
  }

  // ---------- the sorted listing of a set ----------

  lemma {:induction false} SortIsStrict<T(!new)>(s: seq<T>, less: (T, T) -> bool)
    requires StrictTotal(less) && forall i, j :: 0 <= i < j < |s| ==> s[i] != s[j]
    ensures StrictlySorted(Sort(s, less), less)
  {
    SortSorted(s, less);
    SortMultiset(s, less);
    var sorted := Sort(s, less);
    forall i, j | 0 <= i < j < |sorted|
      ensures less(sorted[i], sorted[j])
    {
      if sorted[i] == sorted[j] {
        TwoPositions(sorted, i, j);
        var a := PermutedPosition(sorted, s, i);
        var b := SecondPosition(s, a);
      }
    }
  }

  lemma SortElements<T(!new)>(s: seq<T>, less: (T, T) -> bool)
    ensures forall x :: x in Sort(s, less) <==> x in s
  {
    SortMultiset(s, less);
    forall x
      ensures x in Sort(s, less) <==> x in s
    {
      assert x in multiset(Sort(s, less)) <==> x in multiset(s);
    }
  }

  ghost predicate IsListing<T(!new)>(l: seq<T>, s: set<T>, less: (T, T) -> bool) {
    StrictlySorted(l, less) && forall x :: x in l <==> x in s
  }

  lemma ListingUnique<T(!new)>(a: seq<T>, b: seq<T>, s: set<T>, less: (T, T) -> bool)
    requires StrictTotal(less) && IsListing(a, s, less) && IsListing(b, s, less)
    ensures a == b
  {
    StrictlySortedUnique(a, b, less);
  }

  /** The keys of a map or the members of a set, collected in any order and sorted. */
  method SortedElements<T(!new, ==)>(s: set<T>, less: (T, T) -> bool) returns (l: seq<T>)
    requires StrictTotal(less)
    ensures IsListing(l, s, less)
  {
    var left := s;
    l := [];
    while left != {}
      invariant left <= s
      invariant forall x :: x in l <==> x in s - left
      invariant forall i, j :: 0 <= i < j < |l| ==> l[i] != l[j]
      decreases left
    {
      var x :| x in left;
      assert x !in l;
      left := left - {x};
      l := l + [x];
    }
    SortIsStrict(l, less);
    SortElements(l, less);
    l := Sort(l, less);
  }
}
