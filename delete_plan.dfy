/**
 * delete_DFS of db_functions.py: before anything is removed, sort what lies
 * below a reference into folders to delete, files to delete and shared
 * folders whose counter is only to be decremented.
 */
module DeletePlan {
  import opened Wrappers
  import opened FolderGraph

  /** The dictionary {"F": ..., "D": ..., "change_cnt": ...} that delete_DFS returns. */
  datatype Plan = Plan(folders: seq<int>, files: seq<int>, decrement: seq<int>)

  /** Every folder to delete is unshared, every folder to decrement is shared. */
  ghost predicate Classified(fs: Folders, p: Plan) {
    && (forall i :: 0 <= i < |p.folders| ==> p.folders[i] in fs && fs[p.folders[i]].count <= 1)
    && (forall i :: 0 <= i < |p.decrement| ==> p.decrement[i] in fs && fs[p.decrement[i]].count > 1)
  }

  /** The three lists of two plans, each concatenated in order. */
  function Join(p: Plan, q: Plan): (r: Plan)
    ensures r.folders == p.folders + q.folders
    ensures r.files == p.files + q.files
    ensures r.decrement == p.decrement + q.decrement
  {
    Plan(p.folders + q.folders, p.files + q.files, p.decrement + q.decrement)
  }

  lemma JoinClassified(fs: Folders, p: Plan, q: Plan)
    requires Classified(fs, p) && Classified(fs, q)
    ensures Classified(fs, Join(p, q))
  {
    var r := Join(p, q);
    assert forall i :: |p.folders| <= i < |r.folders| ==> r.folders[i] == q.folders[i - |p.folders|];
    assert forall i :: |p.decrement| <= i < |r.decrement| ==> r.decrement[i] == q.decrement[i - |p.decrement|];
  }

  /**
   * delete_DFS(type, id, chat_id, fl_cnt). A file gives just its id; a folder
   * without a row raises TypeError; a shared folder (count > 1) is only
   * decremented and not descended into; otherwise, when fl_cnt holds, the
   * folder is deleted together with what its children's calls collect.
   */
  function DeleteDfs(fs: Folders, v: Ref, flCnt: bool, ghost rank: map<int, nat>, ghost bound: nat): (r: Result<Plan, GraphError>)
    requires Ranked(fs, rank, bound)
    ensures v.D? ==> r == Ok(Plan([], [v.id], []))
    ensures v.F? && v.id !in fs ==> r == Err(Missing)
    ensures v.F? && v.id in fs && fs[v.id].count > 1 ==> r == Ok(Plan([], [], [v.id]))
    ensures r.Err? ==> r.error == Missing
    ensures r.Ok? ==> Classified(fs, r.value)
    ensures r.Ok? && v.F? && fs[v.id].count <= 1 && flCnt ==> |r.value.folders| > 0 && r.value.folders[0] == v.id
    decreases Height(fs, rank, bound, v), 1
  {
    if v.D? then Ok(Plan([], [v.id], []))
    else if v.id !in fs then Err(Missing)
    else if fs[v.id].count > 1 then Ok(Plan([], [], [v.id]))
    else if !flCnt then Ok(Plan([], [], []))
    else
      ChildrenLower(fs, rank, bound, v.id);
      var below := DeleteAll(fs, fs[v.id].children, flCnt, rank, bound);
      if below.Err? then below
      else
        var own := Plan([v.id], [], []);
        JoinClassified(fs, own, below.value);
        Ok(Join(own, below.value))
  }

  /** The for loop of delete_DFS over a child list: results concatenated, the first error escapes. */
  function DeleteAll(fs: Folders, refs: seq<Ref>, flCnt: bool, ghost rank: map<int, nat>, ghost bound: nat): (r: Result<Plan, GraphError>)
    requires Ranked(fs, rank, bound)
    ensures r.Err? ==> r.error == Missing
    ensures r.Ok? ==> Classified(fs, r.value)
    decreases MaxHeight(fs, rank, bound, refs) + 1, 0, |refs|
  {
    if |refs| == 0 then Ok(Plan([], [], []))
    else
      var first := DeleteDfs(fs, refs[0], flCnt, rank, bound);
      if first.Err? then first
      else
        MaxHeightTail(fs, rank, bound, refs);
        var rest := DeleteAll(fs, refs[1..], flCnt, rank, bound);
        if rest.Err? then rest
        else
          JoinClassified(fs, first.value, rest.value);
          Ok(Join(first.value, rest.value))
  }

  lemma JoinAssociative(a: Plan, b: Plan, c: Plan)
    ensures Join(Join(a, b), c) == Join(a, Join(b, c))
  {
    assert (a.folders + b.folders) + c.folders == a.folders + (b.folders + c.folders);
    assert (a.files + b.files) + c.files == a.files + (b.files + c.files);
    assert (a.decrement + b.decrement) + c.decrement == a.decrement + (b.decrement + c.decrement);
  }

  lemma JoinEmpty(a: Plan)
    ensures Join(Plan([], [], []), a) == a && Join(a, Plan([], [], [])) == a
  {
    assert a.folders + [] == a.folders && a.files + [] == a.files && a.decrement + [] == a.decrement;
  }

  /**
   * The loop over a child list, one more child at a time: its result is the
   * results so far followed by the new child's, or the new child's error.
   */
  lemma {:induction false} DeleteAllSnoc(fs: Folders, refs: seq<Ref>, i: nat, flCnt: bool, rank: map<int, nat>, bound: nat)
    requires Ranked(fs, rank, bound) && i < |refs|
    requires DeleteAll(fs, refs[..i], flCnt, rank, bound).Ok?
    ensures DeleteDfs(fs, refs[i], flCnt, rank, bound).Err? ==>
      DeleteAll(fs, refs[..i + 1], flCnt, rank, bound) == DeleteDfs(fs, refs[i], flCnt, rank, bound)
    ensures DeleteDfs(fs, refs[i], flCnt, rank, bound).Ok? ==>
      DeleteAll(fs, refs[..i + 1], flCnt, rank, bound)
        == Ok(Join(DeleteAll(fs, refs[..i], flCnt, rank, bound).value, DeleteDfs(fs, refs[i], flCnt, rank, bound).value))
    decreases i
  {
    var p, q := refs[..i], refs[..i + 1];
    var last := DeleteDfs(fs, refs[i], flCnt, rank, bound);
    if i == 0 {
      assert p == [] && q[0] == refs[0] && q[1..] == [];
      assert DeleteAll(fs, q[1..], flCnt, rank, bound) == Ok(Plan([], [], []));
      if last.Ok? {
        JoinEmpty(last.value);
      }
    } else {
      var tail := refs[1..];
      assert q[0] == p[0] == refs[0] && q[1..] == tail[..i] && p[1..] == tail[..i - 1] && tail[i - 1] == refs[i];
      var first := DeleteDfs(fs, refs[0], flCnt, rank, bound);
      assert first.Ok?;
      DeleteAllSnoc(fs, tail, i - 1, flCnt, rank, bound);
      if last.Ok? {
        JoinAssociative(first.value, DeleteAll(fs, tail[..i - 1], flCnt, rank, bound).value, last.value);
      }
    }
  }

  /** Once a prefix of the loop has raised, the rest of the list is never classified. */
  lemma {:induction false} DeleteAllStops(fs: Folders, refs: seq<Ref>, i: nat, flCnt: bool, rank: map<int, nat>, bound: nat)
    requires Ranked(fs, rank, bound) && i <= |refs|
    requires DeleteAll(fs, refs[..i], flCnt, rank, bound).Err?
    ensures DeleteAll(fs, refs, flCnt, rank, bound) == DeleteAll(fs, refs[..i], flCnt, rank, bound)
    decreases i
  {
    var p := refs[..i];
    assert p[0] == refs[0];
    if DeleteDfs(fs, refs[0], flCnt, rank, bound).Ok? {
      assert p[1..] == refs[1..][..i - 1];
      DeleteAllStops(fs, refs[1..], i - 1, flCnt, rank, bound);
    }
  }

  /** The first child that raises decides the outcome of the whole loop. */
  lemma DeleteAllFirstError(fs: Folders, refs: seq<Ref>, i: nat, flCnt: bool, rank: map<int, nat>, bound: nat)
    requires Ranked(fs, rank, bound) && i < |refs|
    requires DeleteAll(fs, refs[..i], flCnt, rank, bound).Ok? && DeleteDfs(fs, refs[i], flCnt, rank, bound).Err?
    ensures DeleteAll(fs, refs, flCnt, rank, bound) == DeleteDfs(fs, refs[i], flCnt, rank, bound)
  {
    DeleteAllSnoc(fs, refs, i, flCnt, rank, bound);
    DeleteAllStops(fs, refs, i + 1, flCnt, rank, bound);
  }

  // ---------------------------------------------------------------------------
  // What the plan covers

  /**
   * The plan is closed under the child lists: every child of a folder to
   * delete is itself deleted (an unshared folder or a file) or decremented
   * (a shared folder). Nothing below a deleted folder is left dangling
   * unaccounted for.
   */
  ghost predicate Covers(fs: Folders, p: Plan, c: Ref) {
    if c.D? then c.id in p.files
    else c.id in p.folders || c.id in p.decrement
  }

  lemma {:induction false} DeleteDfsClosed(fs: Folders, v: Ref, rank: map<int, nat>, bound: nat, u: int, c: Ref)
    requires Ranked(fs, rank, bound) && DeleteDfs(fs, v, true, rank, bound).Ok?
    requires u in DeleteDfs(fs, v, true, rank, bound).value.folders && u in fs && c in fs[u].children
    ensures Covers(fs, DeleteDfs(fs, v, true, rank, bound).value, c)
    decreases Height(fs, rank, bound, v), 1
  {
    ChildrenLower(fs, rank, bound, v.id);
    var children := fs[v.id].children;
    var p := DeleteDfs(fs, v, true, rank, bound).value;
    var below := DeleteAll(fs, children, true, rank, bound).value;
    assert p == Join(Plan([v.id], [], []), below);
    if u == v.id {
      DeleteAllCovers(fs, children, rank, bound, c);
    } else {
      assert u in below.folders;
      DeleteAllClosed(fs, children, rank, bound, u, c);
    }
  }

  lemma {:induction false} DeleteAllClosed(fs: Folders, refs: seq<Ref>, rank: map<int, nat>, bound: nat, u: int, c: Ref)
    requires Ranked(fs, rank, bound) && DeleteAll(fs, refs, true, rank, bound).Ok?
    requires u in DeleteAll(fs, refs, true, rank, bound).value.folders && u in fs && c in fs[u].children
    ensures Covers(fs, DeleteAll(fs, refs, true, rank, bound).value, c)
    decreases MaxHeight(fs, rank, bound, refs) + 1, 0, |refs|
  {
    var first := DeleteDfs(fs, refs[0], true, rank, bound).value;
    MaxHeightTail(fs, rank, bound, refs);
    var rest := DeleteAll(fs, refs[1..], true, rank, bound).value;
    assert DeleteAll(fs, refs, true, rank, bound).value == Join(first, rest);
    if u in first.folders {
      DeleteDfsClosed(fs, refs[0], rank, bound, u, c);
    } else {
      DeleteAllClosed(fs, refs[1..], rank, bound, u, c);
    }
  }

  /** Every reference of a list that the loop went through is covered by the loop's result. */
  lemma {:induction false} DeleteAllCovers(fs: Folders, refs: seq<Ref>, rank: map<int, nat>, bound: nat, c: Ref)
    requires Ranked(fs, rank, bound) && DeleteAll(fs, refs, true, rank, bound).Ok? && c in refs
    ensures Covers(fs, DeleteAll(fs, refs, true, rank, bound).value, c)
    decreases |refs|
  {
    var first := DeleteDfs(fs, refs[0], true, rank, bound).value;
    MaxHeightTail(fs, rank, bound, refs);
    var rest := DeleteAll(fs, refs[1..], true, rank, bound).value;
    assert DeleteAll(fs, refs, true, rank, bound).value == Join(first, rest);
    if refs[0] == c {
      assert c.D? ==> first.files == [c.id];
    } else {
      DeleteAllCovers(fs, refs[1..], rank, bound, c);
    }
  }

  /**
   * The converse of DeleteDfsClosed: apart from the start itself, the plan
   * names only children of folders it deletes. Nothing is reached through a
   * decremented (shared) folder, whose children stay untouched.
   */
  lemma {:induction false} DeleteDfsJustified(fs: Folders, v: Ref, flCnt: bool, rank: map<int, nat>, bound: nat, c: Ref)
    returns (u: int)
    requires Ranked(fs, rank, bound) && DeleteDfs(fs, v, flCnt, rank, bound).Ok?
    requires Covers(fs, DeleteDfs(fs, v, flCnt, rank, bound).value, c) && c != v
    ensures u in DeleteDfs(fs, v, flCnt, rank, bound).value.folders && u in fs && c in fs[u].children
    decreases Height(fs, rank, bound, v), 1
  {
    ChildrenLower(fs, rank, bound, v.id);
    var children := fs[v.id].children;
    var below := DeleteAll(fs, children, flCnt, rank, bound).value;
    var p := DeleteDfs(fs, v, flCnt, rank, bound).value;
    assert p == Join(Plan([v.id], [], []), below);
    assert Covers(fs, below, c);
    var w := DeleteAllJustified(fs, children, flCnt, rank, bound, c);
    if c in children {
      u := v.id;
    } else {
      u := w;
    }
  }

  lemma {:induction false} DeleteAllJustified(fs: Folders, refs: seq<Ref>, flCnt: bool, rank: map<int, nat>, bound: nat, c: Ref)
    returns (u: int)
    requires Ranked(fs, rank, bound) && DeleteAll(fs, refs, flCnt, rank, bound).Ok?
    requires Covers(fs, DeleteAll(fs, refs, flCnt, rank, bound).value, c)
    ensures c in refs || (u in DeleteAll(fs, refs, flCnt, rank, bound).value.folders && u in fs && c in fs[u].children)
    decreases MaxHeight(fs, rank, bound, refs) + 1, 0, |refs|
  {
    var first := DeleteDfs(fs, refs[0], flCnt, rank, bound).value;
    MaxHeightTail(fs, rank, bound, refs);
    var rest := DeleteAll(fs, refs[1..], flCnt, rank, bound).value;
    assert DeleteAll(fs, refs, flCnt, rank, bound).value == Join(first, rest);
    if c == refs[0] {
      u := 0;
    } else if Covers(fs, first, c) {
      u := DeleteDfsJustified(fs, refs[0], flCnt, rank, bound, c);
    } else {
      u := DeleteAllJustified(fs, refs[1..], flCnt, rank, bound, c);
    }
  }

  /**
   * Folder 1 (count 1) holds folder 2 and file 9; folder 2 (count 2, shared
   * elsewhere) holds folder 3. Deleting folder 1 deletes it and the file,
   * decrements folder 2, and leaves folder 3 alone.
   */
  lemma SharedChildScenario(fs: Folders, rank: map<int, nat>)
    requires fs == map[1 := Folder("a", 7, 1, 1, [F(2), D(9)]), 2 := Folder("b", 7, 1, 2, [F(3)]), 3 := Folder("c", 7, 1, 1, [])]
    requires rank == map[1 := 0, 2 := 1, 3 := 2]
    ensures Ranked(fs, rank, 3) && DeleteDfs(fs, F(1), true, rank, 3) == Ok(Plan([1], [9], [2]))
  {
    assert fs.Keys == {1, 2, 3};
    assert Ranked(fs, rank, 3);
    var children := fs[1].children;
    assert children[0] == F(2) && children[1..] == [D(9)] && [D(9)][1..] == [];
    var empty := DeleteAll(fs, [], true, rank, 3);
    assert empty == Ok(Plan([], [], []));
    var file := DeleteAll(fs, [D(9)], true, rank, 3);
    assert file == Ok(Join(Plan([], [9], []), Plan([], [], [])));
    JoinEmpty(Plan([], [9], []));
    var all := DeleteAll(fs, children, true, rank, 3);
    assert all == Ok(Join(Plan([], [], [2]), Plan([], [9], [])));
    assert [] + [9] == [9] && [2] + [] == [2] && [1] + [] == [1] && [] + [2] == [2];
    assert all == Ok(Plan([], [9], [2]));
    assert DeleteDfs(fs, F(1), true, rank, 3) == Ok(Join(Plan([1], [], []), Plan([], [9], [2])));
  }

  /** Everything the plan names lies at or below the start. */
  lemma {:induction false} DeleteDfsBelow(fs: Folders, v: Ref, flCnt: bool, rank: map<int, nat>, bound: nat, x: int)
    requires Ranked(fs, rank, bound) && DeleteDfs(fs, v, flCnt, rank, bound).Ok?
    requires x in DeleteDfs(fs, v, flCnt, rank, bound).value.folders || x in DeleteDfs(fs, v, flCnt, rank, bound).value.decrement
    ensures v.F? && Reaches(fs, v.id, x)
    decreases Height(fs, rank, bound, v), 1
  {
    if x == v.id {
      ReachesSelf(fs, x);
    } else {
      ChildrenLower(fs, rank, bound, v.id);
      var below := DeleteAll(fs, fs[v.id].children, flCnt, rank, bound).value;
      assert DeleteDfs(fs, v, flCnt, rank, bound).value == Join(Plan([v.id], [], []), below);
      var c := DeleteAllBelow(fs, fs[v.id].children, flCnt, rank, bound, x);
      ReachesStep(fs, v.id, c, x);
    }
  }

  lemma {:induction false} DeleteAllBelow(fs: Folders, refs: seq<Ref>, flCnt: bool, rank: map<int, nat>, bound: nat, x: int)
    returns (c: int)
    requires Ranked(fs, rank, bound) && DeleteAll(fs, refs, flCnt, rank, bound).Ok?
    requires x in DeleteAll(fs, refs, flCnt, rank, bound).value.folders || x in DeleteAll(fs, refs, flCnt, rank, bound).value.decrement
    ensures F(c) in refs && Reaches(fs, c, x)
    decreases MaxHeight(fs, rank, bound, refs) + 1, 0, |refs|
  {
    var first := DeleteDfs(fs, refs[0], flCnt, rank, bound).value;
    MaxHeightTail(fs, rank, bound, refs);
    var rest := DeleteAll(fs, refs[1..], flCnt, rank, bound).value;
    assert DeleteAll(fs, refs, flCnt, rank, bound).value == Join(first, rest);
    if x in first.folders || x in first.decrement {
      DeleteDfsBelow(fs, refs[0], flCnt, rank, bound, x);
      c := refs[0].id;
    } else {
      c := DeleteAllBelow(fs, refs[1..], flCnt, rank, bound, x);
    }
  }

  /** In a store without stale folder references, delete_DFS from a stored folder or a file never raises. */
  lemma {:induction false} DeleteDfsTotal(fs: Folders, v: Ref, flCnt: bool, rank: map<int, nat>, bound: nat)
    requires Ranked(fs, rank, bound) && (forall u, w :: Edge(fs, u, w) ==> w in fs)
    requires v.F? ==> v.id in fs
    ensures DeleteDfs(fs, v, flCnt, rank, bound).Ok?
    decreases Height(fs, rank, bound, v), 1
  {
    if v.F? && fs[v.id].count <= 1 && flCnt {
      ChildrenLower(fs, rank, bound, v.id);
      DeleteAllTotal(fs, v.id, fs[v.id].children, flCnt, rank, bound);
    }
  }

  lemma {:induction false} DeleteAllTotal(fs: Folders, u: int, refs: seq<Ref>, flCnt: bool, rank: map<int, nat>, bound: nat)
    requires Ranked(fs, rank, bound) && (forall u, w :: Edge(fs, u, w) ==> w in fs)
    requires u in fs && forall i :: 0 <= i < |refs| ==> refs[i] in fs[u].children
    ensures DeleteAll(fs, refs, flCnt, rank, bound).Ok?
    decreases MaxHeight(fs, rank, bound, refs) + 1, 0, |refs|
  {
    if |refs| > 0 {
      assert Edge(fs, u, refs[0].id) || refs[0].D?;
      DeleteDfsTotal(fs, refs[0], flCnt, rank, bound);
      MaxHeightTail(fs, rank, bound, refs);
      assert forall i :: 0 <= i < |refs| - 1 ==> refs[1..][i] == refs[i + 1];
      DeleteAllTotal(fs, u, refs[1..], flCnt, rank, bound);
    }
  }
}
