/** A second coalescing pass finds nothing to pair, and no evidence is lost or duplicated by the first. */
module CoalesceIdempotent {
  import opened Common
  import opened Ordering
  import opened Events
  import opened Coalesce

  // ---------- group sizes ----------

  lemma {:induction false} GroupPrefix(s: seq<PreparedEvent>, t: seq<PreparedEvent>, id: Identity, n: nat)
    requires n <= |s| && n <= |t| && s[..n] == t[..n]
    ensures |Group(s, id, n)| == |Group(t, id, n)|
  {
    if n > 0 {
      assert s[n - 1] == s[..n][n - 1] == t[..n][n - 1];
      assert s[..n - 1] == s[..n][..n - 1] && t[..n - 1] == t[..n][..n - 1];
      GroupPrefix(s, t, id, n - 1);
    }
  }

  lemma {:induction false} GroupSizeAppend(s: seq<PreparedEvent>, t: seq<PreparedEvent>, id: Identity)
    ensures |Group(s + t, id, |s + t|)| == |Group(s, id, |s|)| + |Group(t, id, |t|)|
  {
    if t == [] {
      assert s + t == s;
    } else {
      var front := t[..|t| - 1];
      GroupSizeAppend(s, front, id);
      assert (s + t)[..|s + front|] == s + front == (s + front)[..|s + front|];
      GroupPrefix(s + t, s + front, id, |s + front|);
      GroupPrefix(t, front, id, |front|);
    }
  }

  lemma GroupSizeWithout(t: seq<PreparedEvent>, j: nat, id: Identity)
    requires j < |t|
    ensures var rest := t[..j] + t[j + 1..];
            |Group(t, id, |t|)| == |Group([t[j]], id, 1)| + |Group(rest, id, |rest|)|
  {
    hide Group;
    assert t == (t[..j] + [t[j]]) + t[j + 1..];
    GroupSizeAppend(t[..j] + [t[j]], t[j + 1..], id);
    GroupSizeAppend(t[..j], [t[j]], id);
    GroupSizeAppend(t[..j], t[j + 1..], id);
  }

  lemma GroupSizeTail(s: seq<PreparedEvent>, id: Identity)
    requires s != []
    ensures |Group(s, id, |s|)| == |Group([s[0]], id, 1)| + |Group(s[1..], id, |s[1..]|)|
  {
    hide *;
    assert s[..0] + s[1..] == s[1..];
    GroupSizeWithout(s, 0, id);
  }

  lemma {:induction false} GroupSizePermuted(s: seq<PreparedEvent>, t: seq<PreparedEvent>, id: Identity)
    requires multiset(s) == multiset(t)
    ensures |Group(s, id, |s|)| == |Group(t, id, |t|)|
  {
    if s == [] {
      assert |t| == |multiset(t)| == |multiset(s)|;
    } else {
      hide *;
      var j := PermutedTail(s, t);
      var rest := t[..j] + t[j + 1..];
      GroupSizePermuted(s[1..], rest, id);
      GroupSizeWithout(t, j, id);
      GroupSizeTail(s, id);
    }
  }

  ghost predicate NonePaired(events: seq<PreparedEvent>, paired: map<nat, nat>, id: Identity)
    requires InRange(events, paired)
  {
    forall i :: i in paired ==> IdentityOf(events[i]) != Some(id)
  }

  /** The size of an identity group among the first n events after merging. */
  ghost function MergedSize(events: seq<PreparedEvent>, paired: map<nat, nat>, id: Identity, n: nat): nat
    requires n <= |events| && InRange(events, paired)
  {
    |Group(Merged(events, paired, n), id, |Merged(events, paired, n)|)|
  }

  /** Merging shrinks a group, and leaves its size alone when none of its members is paired. */
  lemma {:induction false} MergedGroupSize(events: seq<PreparedEvent>, paired: map<nat, nat>, id: Identity, n: nat)
    requires n <= |events| && InRange(events, paired) && IsPairing(events, paired)
    ensures MergedSize(events, paired, id, n) <= |Group(events, id, n)|
    ensures NonePaired(events, paired, id) ==> MergedSize(events, paired, id, n) == |Group(events, id, n)|
  {
    hide Merged, IsPairing, InRange, IdentityOf, SideOf, Heads, Keyed, NonePaired;
    if n > 0 {
      hide Group, MergedSize;
      MergedGroupSize(events, paired, id, n - 1);
      MergedGroupStep(events, paired, id, n);
      GroupStep(events, id, n);
      HeadsUnlessPaired(events, paired, id, n - 1);
    } else {
      NothingMerged(events, paired);
    }
  }

  lemma NothingMerged(events: seq<PreparedEvent>, paired: map<nat, nat>)
    requires InRange(events, paired)
    ensures Merged(events, paired, 0) == []
  {
  }

  lemma HeadsUnlessPaired(events: seq<PreparedEvent>, paired: map<nat, nat>, id: Identity, i: nat)
    requires i < |events| && InRange(events, paired)
    ensures NonePaired(events, paired, id) && Keyed(events[i], id) ==> Heads(paired, i)
  {
  }

  lemma GroupStep(events: seq<PreparedEvent>, id: Identity, n: nat)
    requires 0 < n <= |events|
    ensures |Group(events, id, n)| == |Group(events, id, n - 1)| + if Keyed(events[n - 1], id) then 1 else 0
  {
  }

  lemma MergedGroupStep(events: seq<PreparedEvent>, paired: map<nat, nat>, id: Identity, n: nat)
    requires 0 < n <= |events| && InRange(events, paired) && IsPairing(events, paired)
    ensures MergedSize(events, paired, id, n) ==
              MergedSize(events, paired, id, n - 1) + if Heads(paired, n - 1) && Keyed(events[n - 1], id) then 1 else 0
  {
    hide IsPairing, Keyed;
    var before := Merged(events, paired, n - 1);
    if Heads(paired, n - 1) {
      var image := Image(events, paired, n - 1);
      GroupSizeAppend(before, [image], id);
      assert |Group([image], id, 1)| == if Keyed([image][0], id) then 1 else 0;
      assert Merged(events, paired, n) == before + [image];
      assert Keyed(image, id) == Keyed(events[n - 1], id) by { KeyedImage(events, paired, n - 1, id); }
    } else {
      assert Merged(events, paired, n) == before;
    }
  }

  lemma KeyedImage(events: seq<PreparedEvent>, paired: map<nat, nat>, i: nat, id: Identity)
    requires InRange(events, paired) && IsPairing(events, paired) && i < |events|
    ensures Keyed(Image(events, paired, i), id) == Keyed(events[i], id)
  {
    ImageKeepsGroup(events, paired, i);
  }

  // ---------- what merging keeps ----------

  /** The index of the observation a merged item retains. */
  function Retained(events: seq<PreparedEvent>, paired: map<nat, nat>, i: nat): nat
    requires InRange(events, paired) && i < |events|
  {
    if i in paired && CoverageRank(events[paired[i]]) > CoverageRank(events[i]) then paired[i] else i
  }

  lemma ImageKeepsGroup(events: seq<PreparedEvent>, paired: map<nat, nat>, i: nat)
    requires InRange(events, paired) && IsPairing(events, paired) && i < |events|
    ensures IdentityOf(Image(events, paired, i)) == IdentityOf(events[i]) == IdentityOf(events[Retained(events, paired, i)])
    ensures SideOf(Image(events, paired, i)) == SideOf(events[Retained(events, paired, i)])
    ensures SideOf(Image(events, paired, i)).Some? <==> SideOf(events[i]).Some?
  {
    if i in paired {
      assert Isolated(events, i, paired[i]);
      hide IsPairing, Isolated, Group;
      MergeKeepsGroup(events[i], events[paired[i]]);
    }
  }

  lemma MergeKeepsGroup(a: PreparedEvent, b: PreparedEvent)
    requires IdentityOf(a).Some? && IdentityOf(a) == IdentityOf(b)
    ensures IdentityOf(MergeCoalesced(a, b)) == IdentityOf(a)
    ensures SideOf(MergeCoalesced(a, b)) == SideOf(if CoverageRank(b) > CoverageRank(a) then b else a)
  {
    hide SortDistinct, CoverageRank;
  }

  /** Filling in a missing signature can only remove compatibility. */
  lemma FillingShrinks(events: seq<PreparedEvent>, paired: map<nat, nat>, i: nat, j: nat, a: nat, b: nat)
    requires InRange(events, paired) && IsPairing(events, paired) && i < |events| && j < |events|
    requires SideOf(Image(events, paired, i)).Some? && SideOf(Image(events, paired, j)).Some?
    requires Opposite(CandidateOf(Image(events, paired, i), a), CandidateOf(Image(events, paired, j), b))
    requires Retained(events, paired, i) != Retained(events, paired, j)
    ensures var r, q := Retained(events, paired, i), Retained(events, paired, j);
            && SideOf(events[r]).Some? && SideOf(events[q]).Some?
            && Opposite(CandidateOf(events[r], r), CandidateOf(events[q], q))
  {
    hide IsPairing;
  }

  lemma HeadsDiffer(events: seq<PreparedEvent>, paired: map<nat, nat>, i: nat, j: nat)
    requires InRange(events, paired) && i < |events| && j < |events| && i != j
    requires Heads(paired, i) && Heads(paired, j)
    ensures Retained(events, paired, i) != Retained(events, paired, j)
    ensures i in paired ==> Retained(events, paired, j) != i && Retained(events, paired, j) != paired[i]
  {
  }

  /** An edge of the merged list joins two unpaired events, and was an edge before. */
  lemma MergedEdge(events: seq<PreparedEvent>, paired: map<nat, nat>, a: nat, b: nat)
    requires InRange(events, paired) && IsPairing(events, paired)
    requires Edge(Merged(events, paired, |events|), a, b)
    ensures var kept := Kept(paired, |events|);
            && kept[a] !in paired && kept[b] !in paired && Edge(events, kept[a], kept[b])
  {
    var n, m, kept := |events|, Merged(events, paired, |events|), Kept(paired, |events|);
    MergedAt(events, paired, n);
    KeptSpec(paired, n);
    var i, j := kept[a], kept[b];
    assert i in kept && j in kept;
    var r, q := Retained(events, paired, i), Retained(events, paired, j);
    ImageKeepsGroup(events, paired, i);
    ImageKeepsGroup(events, paired, j);
    HeadsDiffer(events, paired, i, j);
    HeadsDiffer(events, paired, j, i);
    var id := IdentityOf(events[i]).value;
    assert |Group(m, id, |m|)| <= MAX_COALESCE_GROUP;
    hide IsPairing, Isolated, IdentityOf, SideOf, Group, Image, Merged, Kept, SubjectOf;
    SmallBefore(events, paired, id);
    FillingShrinks(events, paired, i, j, a, b);
    assert Edge(events, r, q);
    EdgeSymmetric(events, r, q);
    PairedHasNoOtherEdge(events, paired, r, q);
    PairedHasNoOtherEdge(events, paired, q, r);
  }

  /** A group too large to coalesce stays too large. */
  lemma SmallBefore(events: seq<PreparedEvent>, paired: map<nat, nat>, id: Identity)
    requires InRange(events, paired) && IsPairing(events, paired)
    requires var m := Merged(events, paired, |events|);
             |Group(m, id, |m|)| <= MAX_COALESCE_GROUP
    ensures |Group(events, id, |events|)| <= MAX_COALESCE_GROUP
  {
    hide Group, Merged, IdentityOf;
    MergedGroupSize(events, paired, id, |events|);
    if p :| p in paired && IdentityOf(events[p]) == Some(id) {
      assert Isolated(events, p, paired[p]);
    }
  }

  lemma PairedHasNoOtherEdge(events: seq<PreparedEvent>, paired: map<nat, nat>, i: nat, k: nat)
    requires IsPairing(events, paired) && Edge(events, i, k)
    ensures i in paired ==> k == paired[i]
  {
    if i in paired {
      assert Isolated(events, i, paired[i]);
    }
  }

  ghost predicate NoPairs(events: seq<PreparedEvent>) {
    forall i: nat, j: nat :: !Isolated(events, i, j)
  }

  lemma MergedEdgeBack(events: seq<PreparedEvent>, paired: map<nat, nat>, a: nat, k: nat) returns (c: nat)
    requires InRange(events, paired) && IsPairing(events, paired)
    requires a < |Kept(paired, |events|)| && Kept(paired, |events|)[a] !in paired
    requires Edge(events, Kept(paired, |events|)[a], k)
    ensures c < |Kept(paired, |events|)| && Kept(paired, |events|)[c] == k && k !in paired
    ensures Edge(Merged(events, paired, |events|), a, c)
  {
    var n, m, kept := |events|, Merged(events, paired, |events|), Kept(paired, |events|);
    MergedAt(events, paired, n);
    KeptSpec(paired, n);
    var i := kept[a];
    EdgeSymmetric(events, i, k);
    PairedHasNoOtherEdge(events, paired, k, i);
    assert k !in paired;
    assert k in kept;
    hide IsPairing, IdentityOf, SideOf, Image, Heads;
    c :| 0 <= c < |kept| && kept[c] == k;
    MergedGroupSize(events, paired, IdentityOf(events[i]).value, n);
  }

  lemma MergedHasNoPairs(events: seq<PreparedEvent>)
    ensures NoPairs(Merged(events, Pairing(events), |events|))
  {
    var paired := Pairing(events);
    var m, kept := Merged(events, paired, |events|), Kept(paired, |events|);
    forall a: nat, b: nat
      ensures !Isolated(m, a, b)
    {
      if Isolated(m, a, b) {
        MergedEdge(events, paired, a, b);
        EdgeSymmetric(m, a, b);
        var i, j := kept[a], kept[b];
        forall k: nat | Edge(events, i, k)
          ensures k == j
        {
          var c := MergedEdgeBack(events, paired, a, k);
        }
        forall k: nat | Edge(events, j, k)
          ensures k == i
        {
          var c := MergedEdgeBack(events, paired, b, k);
        }
        assert Isolated(events, i, j);
      }
    }
  }

  // ---------- the graph does not depend on list order ----------

  lemma EdgePermuted(s: seq<PreparedEvent>, t: seq<PreparedEvent>, i: nat, j: nat, a: nat, b: nat)
    requires multiset(s) == multiset(t) && Edge(s, i, j)
    requires a < |t| && b < |t| && a != b && t[a] == s[i] && t[b] == s[j]
    ensures Edge(t, a, b)
  {
    GroupSizePermuted(s, t, IdentityOf(s[i]).value);
  }

  lemma IsolatedPermuted(s: seq<PreparedEvent>, t: seq<PreparedEvent>, i: nat, j: nat) returns (a: nat, b: nat)
    requires multiset(s) == multiset(t) && Isolated(s, i, j)
    ensures Isolated(t, a, b)
  {
    a := PermutedPosition(s, t, i);
    b := PermutedPair(s, t, i, j, a);
    EdgePermuted(s, t, i, j, a, b);
    EdgeSymmetric(s, i, j);
    EdgePermuted(s, t, j, i, b, a);
    forall k: nat | Edge(t, a, k)
      ensures k == b
    {
      OnlyEdgePermuted(s, t, i, j, a, b, k);
    }
    forall k: nat | Edge(t, b, k)
      ensures k == a
    {
      IsolatedSymmetric(s, i, j);
      OnlyEdgePermuted(s, t, j, i, b, a, k);
    }
  }

  lemma OnlyEdgePermuted(s: seq<PreparedEvent>, t: seq<PreparedEvent>, i: nat, j: nat, a: nat, b: nat, k: nat)
    requires multiset(s) == multiset(t) && Isolated(s, i, j)
    requires a < |t| && b < |t| && a != b && t[a] == s[i] && t[b] == s[j] && Edge(t, a, k)
    ensures k == b
  {
    if k != b {
      var x := PermutedPair(t, s, a, k, i);
      EdgePermuted(t, s, a, k, i, x);
      var y := PermutedPair(t, s, b, k, j);
      assert SideOf(s[y]) != SideOf(s[i]);
      EdgePermuted(t, s, a, k, i, y);
    }
  }

  // ---------- the theorem ----------

  lemma {:induction false} NothingToMerge(events: seq<PreparedEvent>, n: nat)
    requires n <= |events|
    ensures Merged(events, map[], n) == events[..n]
  {
    if n > 0 {
      NothingToMerge(events, n - 1);
      assert events[..n] == events[..n - 1] + [events[n - 1]];
    }
  }

  lemma CoalescedIsSorted(events: seq<PreparedEvent>)
    ensures Sorted(Coalesced(events), EventBefore)
    ensures multiset(Coalesced(events)) == multiset(Merged(events, Pairing(events), |events|))
  {
    EventBeforeIsStrictWeak();
    SortSorted(Merged(events, Pairing(events), |events|), EventBefore);
    SortMultiset(Merged(events, Pairing(events), |events|), EventBefore);
  }

  /** Running the pass on its own output finds no pair and returns the same list. */
  lemma CoalescingIsIdempotent(events: seq<PreparedEvent>)
    ensures Pairing(Coalesced(events)) == map[]
    ensures Coalesced(Coalesced(events)) == Coalesced(events)
  {
    var out := Coalesced(events);
    var m := Merged(events, Pairing(events), |events|);
    CoalescedIsSorted(events);
    MergedHasNoPairs(events);
    assert NoPairs(out) by {
      forall i: nat, j: nat
        ensures !Isolated(out, i, j)
      {
        if Isolated(out, i, j) {
          var a, b := IsolatedPermuted(out, m, i, j);
        }
      }
    }
    assert Pairing(out) == map[] by {
      PairingUnique(out, Pairing(out), map[]);
    }
    NothingToMerge(out, |out|);
    assert out[..|out|] == out;
    SortOfSorted(out, EventBefore);
  }

  // ---------- evidence ----------

  ghost predicate OneHolder(events: seq<PreparedEvent>, id: string) {
    exists k: nat :: k < |events| && id in events[k].evidence && OnlyHolder(events, id, k)
  }

  ghost predicate OnlyHolder(events: seq<PreparedEvent>, id: string, k: nat) {
    forall l: nat :: l < |events| && id in events[l].evidence ==> l == k
  }

  lemma ImageEvidence(events: seq<PreparedEvent>, paired: map<nat, nat>, i: nat, id: string)
    requires InRange(events, paired) && i < |events|
    ensures id in Image(events, paired, i).evidence <==>
              id in events[i].evidence || (i in paired && id in events[paired[i]].evidence)
  {
    if i in paired {
      LessIsStrictTotal();
      SortDistinctSpec(events[i].evidence + events[paired[i]].evidence, Less);
      SortDistinctSpec(events[paired[i]].evidence + events[i].evidence, Less);
    }
  }

  lemma MergedEvidence(events: seq<PreparedEvent>, paired: map<nat, nat>, id: string)
    requires InRange(events, paired) && OneHolder(events, id)
    ensures OneHolder(Merged(events, paired, |events|), id)
  {
    var m, kept := Merged(events, paired, |events|), Kept(paired, |events|);
    MergedAt(events, paired, |events|);
    KeptSpec(paired, |events|);
    var h: nat :| h < |events| && id in events[h].evidence && OnlyHolder(events, id, h);
    var head := if Heads(paired, h) then h else paired[h];
    assert head in kept;
    var k: nat :| k < |kept| && kept[k] == head;
    ImageEvidence(events, paired, head, id);
    forall l: nat | l < |m| && id in m[l].evidence
      ensures l == k
    {
      ImageEvidence(events, paired, kept[l], id);
      assert kept[l] in kept;
    }
    assert OnlyHolder(m, id, k);
  }

  lemma OneHolderPermuted(s: seq<PreparedEvent>, t: seq<PreparedEvent>, id: string)
    requires multiset(s) == multiset(t) && OneHolder(s, id)
    ensures OneHolder(t, id)
  {
    var k: nat :| k < |s| && id in s[k].evidence && OnlyHolder(s, id, k);
    var a := PermutedPosition(s, t, k);
    forall l: nat | l < |t| && id in t[l].evidence
      ensures l == a
    {
      if l != a {
        var x := PermutedPair(t, s, a, l, k);
      }
    }
    assert OnlyHolder(t, id, a);
  }

  /** An ID cited by one input item is cited by one output item, and no new ID appears. */
  lemma EvidenceIsConserved(events: seq<PreparedEvent>, id: string)
    ensures OneHolder(events, id) ==> OneHolder(Coalesced(events), id)
    ensures (exists k :: 0 <= k < |Coalesced(events)| && id in Coalesced(events)[k].evidence) ==>
            (exists k :: 0 <= k < |events| && id in events[k].evidence)
  {
    var paired := Pairing(events);
    var m, out := Merged(events, paired, |events|), Coalesced(events);
    CoalescedIsSorted(events);
    if OneHolder(events, id) {
      MergedEvidence(events, paired, id);
      OneHolderPermuted(m, out, id);
    }
    if k :| 0 <= k < |out| && id in out[k].evidence {
      var a := PermutedPosition(out, m, k);
      MergedAt(events, paired, |events|);
      ImageEvidence(events, paired, Kept(paired, |events|)[a], id);
    }
  }
}
