/**
 * The shared-folder graph of db_functions.py. The Folders and Files tables
 * become maps from row id to record, and a folder's next_vertices text
 * ("F:<id>;D:<id>;...") becomes a sequence of typed references.
 *
 * Folders may be reached along several paths (a shared folder sits in more
 * than one child list), so the graph is a DAG rather than a tree. The ghost
 * rank used here gives every stored folder a number below `bound` that grows
 * along every stored folder-to-folder edge; it is what makes the recursive
 * traversals of the source terminate, and the store keeps it up to date.
 */
module FolderGraph {

  /** A typed child reference: "F:<id>" names a folder, "D:<id>" a file. */
  datatype Ref = F(id: int) | D(id: int)

  /** A row of the Folders table (head_text is not part of this model). */
  datatype Folder = Folder(name: string, author: int, privateMode: int, count: int, children: seq<Ref>)

  /** A row of the Files table. */
  datatype FileRecord = FileRecord(fileId: string, name: string, fileType: string)

  /** The exceptions the engine lets escape. */
  datatype GraphError =
    | Missing        // TypeError: get_value_db found no row, fetchone() is None
    | CycleRejected  // KeyError raised by add_folder when cycle_BFS finds a path id
    | NotAChild      // ValueError: list.remove found no such child reference
    | BadPath        // ValueError: int("") on an empty user path

  type Folders = map<int, Folder>

  /**
   * Every stored folder has a rank below bound, and a stored folder's
   * folder-children that are themselves stored have larger ranks.
   * References to ids with no row (stale references) are not constrained.
   */
  ghost predicate Ranked(fs: Folders, rank: map<int, nat>, bound: nat) {
    && fs.Keys <= rank.Keys
    && (forall k :: k in fs ==> rank[k] < bound)
    && (forall k, i :: k in fs && 0 <= i < |fs[k].children| && fs[k].children[i].F? && fs[k].children[i].id in fs
          ==> rank[fs[k].children[i].id] > rank[k])
  }

  lemma RankBelowBound(fs: Folders, rank: map<int, nat>, bound: nat, k: int)
    requires Ranked(fs, rank, bound) && k in fs
    ensures rank[k] < bound
  {
  }

  /** How many more folder levels can lie below a reference. */
  ghost function Height(fs: Folders, rank: map<int, nat>, bound: nat, v: Ref): nat
    requires Ranked(fs, rank, bound)
  {
    if v.F? && v.id in fs then bound - rank[v.id] else 0
  }

  /** The largest height among some references (0 for none). */
  ghost function MaxHeight(fs: Folders, rank: map<int, nat>, bound: nat, refs: seq<Ref>): (h: nat)
    requires Ranked(fs, rank, bound)
    ensures forall i :: 0 <= i < |refs| ==> Height(fs, rank, bound, refs[i]) <= h
    decreases |refs|
  {
    if |refs| == 0 then 0
    else
      var rest := MaxHeight(fs, rank, bound, refs[1..]);
      assert forall i :: 1 <= i < |refs| ==> refs[i] == refs[1..][i - 1];
      var first := Height(fs, rank, bound, refs[0]);
      if first < rest then rest else first
  }

  lemma {:induction false} MaxHeightBelow(fs: Folders, rank: map<int, nat>, bound: nat, refs: seq<Ref>, h: nat)
    requires Ranked(fs, rank, bound)
    requires forall i :: 0 <= i < |refs| ==> Height(fs, rank, bound, refs[i]) < h
    requires h >= 1
    ensures MaxHeight(fs, rank, bound, refs) < h
    decreases |refs|
  {
    if |refs| > 0 {
      assert forall i :: 1 <= i < |refs| ==> refs[1..][i - 1] == refs[i];
      MaxHeightBelow(fs, rank, bound, refs[1..], h);
    }
  }

  /** The children of a stored folder lie strictly lower than the folder itself. */
  lemma ChildrenLower(fs: Folders, rank: map<int, nat>, bound: nat, id: int)
    requires Ranked(fs, rank, bound) && id in fs
    ensures MaxHeight(fs, rank, bound, fs[id].children) < Height(fs, rank, bound, F(id))
  {
    var children := fs[id].children;
    forall i | 0 <= i < |children|
      ensures Height(fs, rank, bound, children[i]) < Height(fs, rank, bound, F(id))
    {
    }
    MaxHeightBelow(fs, rank, bound, children, Height(fs, rank, bound, F(id)));
  }

  lemma MaxHeightTail(fs: Folders, rank: map<int, nat>, bound: nat, refs: seq<Ref>)
    requires Ranked(fs, rank, bound) && |refs| > 0
    ensures MaxHeight(fs, rank, bound, refs[1..]) <= MaxHeight(fs, rank, bound, refs)
  {
  }

  /** Heights depend only on which rows exist, not on what they hold. */
  lemma {:induction false} MaxHeightSameKeys(fs: Folders, gs: Folders, rank: map<int, nat>, bound: nat, refs: seq<Ref>)
    requires Ranked(fs, rank, bound) && Ranked(gs, rank, bound) && fs.Keys == gs.Keys
    ensures MaxHeight(fs, rank, bound, refs) == MaxHeight(gs, rank, bound, refs)
    decreases |refs|
  {
    if |refs| > 0 {
      MaxHeightSameKeys(fs, gs, rank, bound, refs[1..]);
    }
  }

  // ---------------------------------------------------------------------------
  // Walks

  /** u is a stored folder whose child list holds a reference to folder v. */
  ghost predicate Edge(fs: Folders, u: int, v: int) {
    u in fs && F(v) in fs[u].children
  }

  /** A non-empty sequence of ids, each linked to the next by an edge. */
  ghost predicate IsWalk(fs: Folders, w: seq<int>) {
    |w| >= 1 && forall i :: 0 <= i < |w| - 1 ==> Edge(fs, w[i], w[i + 1])
  }

  /** t can be reached from x by following folder references through stored folders. */
  ghost predicate Reaches(fs: Folders, x: int, t: int) {
    exists w :: IsWalk(fs, w) && w[0] == x && w[|w| - 1] == t
  }

  lemma ReachesSelf(fs: Folders, x: int)
    ensures Reaches(fs, x, x)
  {
    assert IsWalk(fs, [x]);
  }

  /** A walk can be extended at its front by an edge into it. */
  lemma ReachesStep(fs: Folders, x: int, y: int, t: int)
    requires Edge(fs, x, y) && Reaches(fs, y, t)
    ensures Reaches(fs, x, t)
  {
    var w :| IsWalk(fs, w) && w[0] == y && w[|w| - 1] == t;
    var w' := [x] + w;
    assert forall i :: 1 <= i < |w'| ==> w'[i] == w[i - 1];
    assert IsWalk(fs, w');
  }

  /** ... and at its end by an edge out of it. */
  lemma ReachesExtend(fs: Folders, x: int, u: int, v: int)
    requires Reaches(fs, x, u) && Edge(fs, u, v)
    ensures Reaches(fs, x, v)
  {
    var w :| IsWalk(fs, w) && w[0] == x && w[|w| - 1] == u;
    var w' := w + [v];
    assert forall i :: 0 <= i < |w| ==> w'[i] == w[i];
    assert IsWalk(fs, w');
  }

  /** A walk longer than one step starts with an edge and goes on from its second id. */
  lemma ReachesFirstEdge(fs: Folders, x: int, t: int) returns (y: int)
    requires Reaches(fs, x, t) && x != t
    ensures Edge(fs, x, y) && Reaches(fs, y, t)
  {
    var w :| IsWalk(fs, w) && w[0] == x && w[|w| - 1] == t;
    y := w[1];
    var w' := w[1..];
    assert forall i :: 0 <= i < |w'| ==> w'[i] == w[i + 1];
    assert IsWalk(fs, w');
  }

  // ---------------------------------------------------------------------------
  // Child lists

  /**
   * The ids of the folder references of a child list, in order: the list
   * comprehension of cycle_BFS keeps the parts tagged "F".
   */
  function FolderIds(children: seq<Ref>): (r: seq<int>)
    ensures forall x :: x in r <==> F(x) in children
    decreases |children|
  {
    if |children| == 0 then []
    else
      var rest := FolderIds(children[1..]);
      assert forall x :: F(x) in children <==> children[0] == F(x) || F(x) in children[1..];
      if children[0].F? then [children[0].id] + rest else rest
  }

  /** Two stores with the same rows and child lists, whatever their counters. */
  ghost predicate SameShape(fs: Folders, gs: Folders) {
    fs.Keys == gs.Keys && forall k :: k in fs ==> fs[k].children == gs[k].children
  }

  lemma RankedSameShape(fs: Folders, gs: Folders, rank: map<int, nat>, bound: nat)
    requires Ranked(fs, rank, bound) && SameShape(fs, gs)
    ensures Ranked(gs, rank, bound)
  {
  }

  /** A child list with one more reference at its end, as create and add_folder write it back. */
  function Append(fs: Folders, u: int, c: Ref): (r: Folders)
    requires u in fs
    ensures r.Keys == fs.Keys
    ensures r[u] == fs[u].(children := fs[u].children + [c])
    ensures forall k :: k in fs && k != u ==> r[k] == fs[k]
  {
    fs[u := fs[u].(children := fs[u].children + [c])]
  }
}
