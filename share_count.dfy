/**
 * What change_cnt_DFS of db_functions.py does to the share counters: it adds
 * the same change to the counter of every folder it reaches, each time the
 * depth-first walk arrives at it (so once for every path from the start), and
 * stops at the first folder reference that has no row (the TypeError leaves
 * earlier updates in place).
 */
module ShareCount {
  import opened FolderGraph

  /**
   * The folders change_cnt_DFS(v) updates, each as often as it is updated,
   * and whether the traversal completed.
   */
  ghost function Visits(fs: Folders, v: Ref, rank: map<int, nat>, bound: nat): (r: (multiset<int>, bool))
    requires Ranked(fs, rank, bound)
    ensures forall x :: x in r.0 ==> x in fs
    decreases Height(fs, rank, bound, v), 1
  {
    if v.D? then (multiset{}, true)
    else if v.id !in fs then (multiset{}, false)
    else
      ChildrenLower(fs, rank, bound, v.id);
      var below := VisitsAll(fs, fs[v.id].children, rank, bound);
      (multiset{v.id} + below.0, below.1)
  }

  /** The for loop of change_cnt_DFS over a child list. */
  ghost function VisitsAll(fs: Folders, refs: seq<Ref>, rank: map<int, nat>, bound: nat): (r: (multiset<int>, bool))
    requires Ranked(fs, rank, bound)
    ensures forall x :: x in r.0 ==> x in fs
    decreases MaxHeight(fs, rank, bound, refs) + 1, 0, |refs|
  {
    if |refs| == 0 then (multiset{}, true)
    else
      var first := Visits(fs, refs[0], rank, bound);
      if !first.1 then first
      else
        MaxHeightTail(fs, rank, bound, refs);
        var rest := VisitsAll(fs, refs[1..], rank, bound);
        (first.0 + rest.0, rest.1)
  }

  /**
   * A diamond: folder 1 holds folders 2 and 3, and both hold folder 4. There
   * are two paths from 1 to 4, and change_cnt_DFS(1) updates folder 4 twice.
   */
  lemma DiamondVisitedTwice(fs: Folders, rank: map<int, nat>)
    requires fs == map[1 := Folder("a", 7, 1, 1, [F(2), F(3)]), 2 := Folder("b", 7, 1, 1, [F(4)]),
                       3 := Folder("c", 7, 1, 1, [F(4)]), 4 := Folder("d", 7, 1, 2, [])]
    requires rank == map[1 := 0, 2 := 1, 3 := 1, 4 := 2]
    ensures Ranked(fs, rank, 3) && Visits(fs, F(1), rank, 3) == (multiset{1, 2, 3, 4, 4}, true)
  {
    assert fs.Keys == {1, 2, 3, 4};
    assert Ranked(fs, rank, 3);
    DiamondTop(fs, rank);
  }

  /** The top of the diamond: folder 1's loop visits both sides in order. */
  lemma DiamondTop(fs: Folders, rank: map<int, nat>)
    requires Ranked(fs, rank, 3) && 1 in fs && 2 in fs && 3 in fs && 4 in fs
    requires fs[1].children == [F(2), F(3)]
    requires fs[2].children == [F(4)] && fs[3].children == [F(4)] && fs[4].children == []
    ensures Visits(fs, F(1), rank, 3) == (multiset{1, 2, 3, 4, 4}, true)
  {
    DiamondBranches(fs, rank);
    var children := fs[1].children;
    assert children[0] == F(2) && children[1..] == [F(3)];
    assert multiset{2, 4} + multiset{3, 4} == multiset{2, 4, 3, 4};
    assert multiset{1} + multiset{2, 4, 3, 4} == multiset{1, 2, 3, 4, 4};
    assert VisitsAll(fs, children, rank, 3) == (multiset{2, 4, 3, 4}, true);
  }

  /** The two sides of the diamond, each ending in the shared folder 4. */
  lemma DiamondBranches(fs: Folders, rank: map<int, nat>)
    requires Ranked(fs, rank, 3) && 2 in fs && 3 in fs && 4 in fs
    requires fs[2].children == [F(4)] && fs[3].children == [F(4)] && fs[4].children == []
    ensures Visits(fs, F(2), rank, 3) == (multiset{2, 4}, true)
    ensures Visits(fs, F(3), rank, 3) == (multiset{3, 4}, true)
    ensures VisitsAll(fs, [F(3)], rank, 3) == (multiset{3, 4}, true)
  {
    assert VisitsAll(fs, [], rank, 3) == (multiset{}, true);
    assert [F(4)][1..] == [];
    assert multiset{4} + multiset{} == multiset{4};
    assert Visits(fs, F(4), rank, 3) == (multiset{4}, true);
    assert VisitsAll(fs, [F(4)], rank, 3) == (multiset{4}, true);
    assert multiset{2} + multiset{4} == multiset{2, 4} && multiset{3} + multiset{4} == multiset{3, 4};
    assert [F(3)][1..] == [] && multiset{3, 4} + multiset{} == multiset{3, 4};
  }

  /** Counters after adding c once per occurrence in m. */
  function AddCounts(fs: Folders, c: int, m: multiset<int>): (r: Folders)
    ensures SameShape(fs, r)
    ensures forall k :: k in r ==> r[k] == fs[k].(count := fs[k].count + c * m[k])
  {
    map k | k in fs :: fs[k].(count := fs[k].count + c * m[k])
  }

  /** Two rounds of updates add up. */
  lemma AddCountsCompose(fs: Folders, c: int, a: multiset<int>, b: multiset<int>)
    ensures AddCounts(AddCounts(fs, c, a), c, b) == AddCounts(fs, c, a + b)
  {
    var left, right := AddCounts(AddCounts(fs, c, a), c, b), AddCounts(fs, c, a + b);
    forall k | k in left ensures left[k] == right[k] {
      assert (a + b)[k] == a[k] + b[k];
      Distribute(c, a[k], b[k]);
    }
    assert left.Keys == right.Keys;
  }

  lemma Distribute(c: int, x: int, y: int)
    ensures c * x + c * y == c * (x + y)
  {
  }

  /** Updating by c and then by -c over the same folders restores every counter. */
  lemma AddCountsInverse(fs: Folders, c: int, m: multiset<int>)
    ensures AddCounts(AddCounts(fs, c, m), -c, m) == fs
  {
    var back := AddCounts(AddCounts(fs, c, m), -c, m);
    forall k | k in fs ensures back[k] == fs[k] {
      assert c * m[k] + -c * m[k] == 0;
    }
  }

  /** Adding nothing changes nothing. */
  lemma AddCountsNone(fs: Folders, c: int)
    ensures AddCounts(fs, c, multiset{}) == fs
  {
    var r := AddCounts(fs, c, multiset{});
    assert forall k :: k in r ==> r[k] == fs[k];
  }

  /** The single counter update of one visit. */
  lemma AddCountsOne(fs: Folders, c: int, id: int)
    requires id in fs
    ensures AddCounts(fs, c, multiset{id}) == fs[id := fs[id].(count := fs[id].count + c)]
  {
    var left, right := AddCounts(fs, c, multiset{id}), fs[id := fs[id].(count := fs[id].count + c)];
    forall k | k in left ensures left[k] == right[k] {
      if k == id {
        assert multiset{id}[k] == 1;
      } else {
        assert multiset{id}[k] == 0;
      }
    }
    assert left.Keys == right.Keys;
  }

  /**
   * change_cnt_DFS(v, c) followed by change_cnt_DFS(v, -c) restores every
   * counter: the second traversal takes the same paths as the first.
   */
  lemma ChangeCountRoundTrip(fs: Folders, v: Ref, c: int, rank: map<int, nat>, bound: nat)
    requires Ranked(fs, rank, bound)
    ensures Ranked(AddCounts(fs, c, Visits(fs, v, rank, bound).0), rank, bound)
    ensures var gs := AddCounts(fs, c, Visits(fs, v, rank, bound).0);
      AddCounts(gs, -c, Visits(gs, v, rank, bound).0) == fs
  {
    var gs := AddCounts(fs, c, Visits(fs, v, rank, bound).0);
    VisitsSameShape(fs, gs, v, rank, bound);
    AddCountsInverse(fs, c, Visits(fs, v, rank, bound).0);
  }

  /**
   * One step of change_cnt_DFS: updating the folder's own counter first and
   * then running the loop over its (unchanged) children amounts to the whole
   * traversal.
   */
  lemma OwnThenChildren(fs: Folders, id: int, c: int, mid: Folders, rank: map<int, nat>, bound: nat)
    requires Ranked(fs, rank, bound) && id in fs
    requires mid == fs[id := fs[id].(count := fs[id].count + c)]
    ensures Ranked(mid, rank, bound)
    ensures AddCounts(mid, c, VisitsAll(mid, fs[id].children, rank, bound).0) == AddCounts(fs, c, Visits(fs, F(id), rank, bound).0)
    ensures VisitsAll(mid, fs[id].children, rank, bound).1 == Visits(fs, F(id), rank, bound).1
  {
    AddCountsOne(fs, c, id);
    RankedSameShape(fs, mid, rank, bound);
    ChildrenLower(fs, rank, bound, id);
    VisitsAllSameShape(fs, mid, fs[id].children, rank, bound);
    AddCountsCompose(fs, c, multiset{id}, VisitsAll(fs, fs[id].children, rank, bound).0);
  }

  /** Where change_cnt_DFS goes depends only on the child lists, not on the counters. */
  lemma {:induction false} VisitsSameShape(fs: Folders, gs: Folders, v: Ref, rank: map<int, nat>, bound: nat)
    requires Ranked(fs, rank, bound) && SameShape(fs, gs)
    ensures Ranked(gs, rank, bound)
    ensures Visits(fs, v, rank, bound) == Visits(gs, v, rank, bound)
    decreases Height(fs, rank, bound, v), 1
  {
    RankedSameShape(fs, gs, rank, bound);
    if v.F? && v.id in fs {
      ChildrenLower(fs, rank, bound, v.id);
      VisitsAllSameShape(fs, gs, fs[v.id].children, rank, bound);
    }
  }

  lemma {:induction false} VisitsAllSameShape(fs: Folders, gs: Folders, refs: seq<Ref>, rank: map<int, nat>, bound: nat)
    requires Ranked(fs, rank, bound) && SameShape(fs, gs)
    ensures Ranked(gs, rank, bound)
    ensures VisitsAll(fs, refs, rank, bound) == VisitsAll(gs, refs, rank, bound)
    decreases MaxHeight(fs, rank, bound, refs) + 1, 0, |refs|
  {
    RankedSameShape(fs, gs, rank, bound);
    if |refs| > 0 {
      VisitsSameShape(fs, gs, refs[0], rank, bound);
      MaxHeightTail(fs, rank, bound, refs);
      VisitsAllSameShape(fs, gs, refs[1..], rank, bound);
    }
  }

  /** Two stores hold the same rows, with the same child lists, everywhere below x. */
  ghost predicate AgreeBelow(fs: Folders, gs: Folders, x: int) {
    forall k :: Reaches(fs, x, k) ==> (k in fs <==> k in gs) && (k in fs ==> gs[k].children == fs[k].children)
  }

  /**
   * change_cnt_DFS(v) reads only the rows below v: two stores that agree
   * there, ranked in any way, give the same visits.
   */
  lemma {:induction false} VisitsLocal(fs: Folders, gs: Folders, v: Ref, rank: map<int, nat>, bound: nat,
                                       rank': map<int, nat>, bound': nat)
    requires Ranked(fs, rank, bound) && Ranked(gs, rank', bound')
    requires v.F? ==> AgreeBelow(fs, gs, v.id)
    ensures Visits(fs, v, rank, bound) == Visits(gs, v, rank', bound')
    decreases Height(fs, rank, bound, v), 1
  {
    if v.F? {
      ReachesSelf(fs, v.id);
      if v.id in fs {
        var children := fs[v.id].children;
        ChildrenLower(fs, rank, bound, v.id);
        forall i | 0 <= i < |children| && children[i].F? ensures AgreeBelow(fs, gs, children[i].id) {
          assert Edge(fs, v.id, children[i].id);
          forall k | Reaches(fs, children[i].id, k) ensures Reaches(fs, v.id, k) {
            ReachesStep(fs, v.id, children[i].id, k);
          }
        }
        VisitsAllLocal(fs, gs, children, rank, bound, rank', bound');
      }
    }
  }

  lemma {:induction false} VisitsAllLocal(fs: Folders, gs: Folders, refs: seq<Ref>, rank: map<int, nat>, bound: nat,
                                          rank': map<int, nat>, bound': nat)
    requires Ranked(fs, rank, bound) && Ranked(gs, rank', bound')
    requires forall i :: 0 <= i < |refs| && refs[i].F? ==> AgreeBelow(fs, gs, refs[i].id)
    ensures VisitsAll(fs, refs, rank, bound) == VisitsAll(gs, refs, rank', bound')
    decreases MaxHeight(fs, rank, bound, refs) + 1, 0, |refs|
  {
    if |refs| > 0 {
      VisitsLocal(fs, gs, refs[0], rank, bound, rank', bound');
      MaxHeightTail(fs, rank, bound, refs);
      VisitsAllLocal(fs, gs, refs[1..], rank, bound, rank', bound');
    }
  }

  /** The loop over a child list, one more child at a time. */
  lemma {:induction false} VisitsAllSnoc(fs: Folders, refs: seq<Ref>, i: nat, rank: map<int, nat>, bound: nat)
    requires Ranked(fs, rank, bound) && i < |refs|
    requires VisitsAll(fs, refs[..i], rank, bound).1
    ensures VisitsAll(fs, refs[..i + 1], rank, bound)
         == (VisitsAll(fs, refs[..i], rank, bound).0 + Visits(fs, refs[i], rank, bound).0,
             Visits(fs, refs[i], rank, bound).1)
    decreases i
  {
    var p, q := refs[..i], refs[..i + 1];
    if i == 0 {
      var first := Visits(fs, refs[0], rank, bound);
      assert p == [] && q[0] == refs[0] && q[1..] == [];
      assert VisitsAll(fs, q[1..], rank, bound) == (multiset{}, true);
      assert multiset{} + first.0 == first.0 + multiset{} == first.0;
    } else {
      var tail := refs[1..];
      assert q[0] == p[0] == refs[0] && q[1..] == tail[..i];
      assert p[1..] == tail[..i - 1];
      assert tail[i - 1] == refs[i];
      var first := Visits(fs, refs[0], rank, bound);
      assert first.1;
      VisitsAllSnoc(fs, tail, i - 1, rank, bound);
      var a, b := VisitsAll(fs, tail[..i - 1], rank, bound).0, Visits(fs, refs[i], rank, bound).0;
      assert first.0 + (a + b) == (first.0 + a) + b;
    }
  }

  /** Once a prefix of the loop has failed, the rest of the list is never visited. */
  lemma {:induction false} VisitsAllStops(fs: Folders, refs: seq<Ref>, i: nat, rank: map<int, nat>, bound: nat)
    requires Ranked(fs, rank, bound) && i <= |refs|
    requires !VisitsAll(fs, refs[..i], rank, bound).1
    ensures VisitsAll(fs, refs, rank, bound) == VisitsAll(fs, refs[..i], rank, bound)
    decreases i
  {
    var p := refs[..i];
    var first := Visits(fs, refs[0], rank, bound);
    assert p[0] == refs[0];
    if first.1 {
      assert p[1..] == refs[1..][..i - 1];
      VisitsAllStops(fs, refs[1..], i - 1, rank, bound);
    }
  }

  /** Every folder change_cnt_DFS(v) updates lies below v. */
  lemma {:induction false} VisitsReach(fs: Folders, v: Ref, rank: map<int, nat>, bound: nat, x: int)
    requires Ranked(fs, rank, bound) && x in Visits(fs, v, rank, bound).0
    ensures v.F? && Reaches(fs, v.id, x)
    decreases Height(fs, rank, bound, v), 1
  {
    if x == v.id {
      ReachesSelf(fs, x);
    } else {
      ChildrenLower(fs, rank, bound, v.id);
      var c := VisitsAllReach(fs, fs[v.id].children, rank, bound, x);
      ReachesStep(fs, v.id, c, x);
    }
  }

  lemma {:induction false} VisitsAllReach(fs: Folders, refs: seq<Ref>, rank: map<int, nat>, bound: nat, x: int)
    returns (c: int)
    requires Ranked(fs, rank, bound) && x in VisitsAll(fs, refs, rank, bound).0
    ensures F(c) in refs && Reaches(fs, c, x)
    decreases MaxHeight(fs, rank, bound, refs) + 1, 0, |refs|
  {
    if x in Visits(fs, refs[0], rank, bound).0 {
      VisitsReach(fs, refs[0], rank, bound, x);
      c := refs[0].id;
    } else {
      MaxHeightTail(fs, rank, bound, refs);
      c := VisitsAllReach(fs, refs[1..], rank, bound, x);
    }
  }

  /**
   * When the traversal completes, it reaches every folder below v: nothing
   * reachable is skipped.
   */
  lemma {:induction false} VisitsCover(fs: Folders, v: Ref, rank: map<int, nat>, bound: nat, x: int)
    requires Ranked(fs, rank, bound) && Visits(fs, v, rank, bound).1
    requires v.F? && Reaches(fs, v.id, x)
    ensures x in Visits(fs, v, rank, bound).0
    decreases Height(fs, rank, bound, v), 1
  {
    if x != v.id {
      var y := ReachesFirstEdge(fs, v.id, x);
      ChildrenLower(fs, rank, bound, v.id);
      VisitsAllCover(fs, fs[v.id].children, rank, bound, y, x);
    }
  }

  lemma {:induction false} VisitsAllCover(fs: Folders, refs: seq<Ref>, rank: map<int, nat>, bound: nat, y: int, x: int)
    requires Ranked(fs, rank, bound) && VisitsAll(fs, refs, rank, bound).1
    requires F(y) in refs && Reaches(fs, y, x)
    ensures x in VisitsAll(fs, refs, rank, bound).0
    decreases MaxHeight(fs, rank, bound, refs) + 1, 0, |refs|
  {
    MaxHeightTail(fs, rank, bound, refs);
    if refs[0] == F(y) {
      VisitsCover(fs, F(y), rank, bound, x);
    } else {
      VisitsAllCover(fs, refs[1..], rank, bound, y, x);
    }
  }
}
