/**
 * The mutators of db_functions.py over one store: the Folders, Files and
 * Users tables become maps that the methods of Store rewrite in place, as
 * the source's set_value_db, INSERT and DELETE statements do. Nothing runs
 * in a transaction, so a failure part-way through leaves the earlier writes
 * in place; every contract below says what the store holds on each way out.
 */
module FolderStore {
  import opened Wrappers
  import opened FolderGraph
  import opened CycleCheck
  import opened ShareCount
  import opened DeletePlan

  /**
   * The folder a user stands in, as create and add_folder read it: the last
   * segment of the user's path. No Users row raises TypeError; an empty path
   * gives int("") (or a failed unpacking), a ValueError.
   */
  function Tip(paths: map<int, seq<int>>, chatId: int): (r: Result<int, GraphError>)
    ensures r.Ok? <==> chatId in paths && |paths[chatId]| > 0
    ensures r.Ok? ==> r.value == paths[chatId][|paths[chatId]| - 1] && r.value in paths[chatId]
    ensures r.Err? ==> r.error == (if chatId in paths then BadPath else Missing)
  {
    if chatId !in paths then Err(Missing)
    else if |paths[chatId]| == 0 then Err(BadPath)
    else Ok(paths[chatId][|paths[chatId]| - 1])
  }

  /**
   * The folder delete unlinks from. delete keeps the last segment's id as
   * text and looks it up without converting it, so an empty path, like a
   * missing user or a missing folder, ends in TypeError.
   */
  function UnlinkTarget(fs: Folders, paths: map<int, seq<int>>, chatId: int): (r: Result<int, GraphError>)
    ensures r.Ok? <==> Tip(paths, chatId).Ok? && Tip(paths, chatId).value in fs
    ensures r.Ok? ==> r.value == Tip(paths, chatId).value
    ensures r.Err? ==> r.error == Missing
  {
    match Tip(paths, chatId)
    case Err(_) => Err(Missing)
    case Ok(tip) => if tip in fs then Ok(tip) else Err(Missing)
  }

  /**
   * What add_folder checks before it writes anything, and the folder it then
   * writes to: the user's tip, provided cycle_BFS from the shared folder
   * meets no id of the user's path (KeyError otherwise) and the tip has a row.
   */
  function LinkTarget(fs: Folders, paths: map<int, seq<int>>, chatId: int, added: Ref,
                      ghost rank: map<int, nat>, ghost bound: nat): (r: Result<int, GraphError>)
    requires Ranked(fs, rank, bound)
    ensures Tip(paths, chatId).Err? ==> r == Err(Tip(paths, chatId).error)
    ensures r.Ok? ==> r.value == Tip(paths, chatId).value && r.value in fs && added.id in fs
    ensures r.Ok? ==> forall t :: t in paths[chatId] ==> !Reaches(fs, added.id, t)
    ensures r == Err(CycleRejected) ==>
      chatId in paths && exists t :: t in paths[chatId] && Reaches(fs, added.id, t)
    ensures r.Err? ==> r.error in {Missing, BadPath, CycleRejected}
  {
    match Tip(paths, chatId)
    case Err(e) => Err(e)
    case Ok(tip) =>
      var search := CycleBfs(fs, [added.id], paths[chatId], rank, bound, 0);
      if search.Err? then Err(search.error)
      else if !search.value then
        CycleBfsComplete(fs, [added.id], paths[chatId], rank, bound, 0);
        Err(CycleRejected)
      else
        assert !StopsAt(fs, [added.id], paths[chatId], 0);
        CycleBfsSound(fs, [added.id], paths[chatId], rank, bound, 0);
        if tip in fs then Ok(tip) else Err(Missing)
  }

  /**
   * list.remove: drop the first occurrence of x, or fail (ValueError) when
   * there is none.
   */
  function RemoveFirst(s: seq<Ref>, x: Ref): (r: Option<seq<Ref>>)
    ensures r.None? <==> x !in s
    ensures r.Some? ==> exists i :: 0 <= i < |s| && s[i] == x && x !in s[..i] && r.value == s[..i] + s[i + 1..]
    decreases |s|
  {
    if |s| == 0 then None
    else if s[0] == x then
      assert s[..0] == [] && s[0 + 1..] == s[1..];
      Some(s[1..])
    else
      var tail := s[1..];
      var rest := RemoveFirst(tail, x);
      if rest.None? then None
      else
        var i :| 0 <= i < |tail| && tail[i] == x && x !in tail[..i] && rest.value == tail[..i] + tail[i + 1..];
        RemovedLater(s, x, i + 1, rest.value);
        Some([s[0]] + rest.value)
  }

  /** An occurrence found in the tail is, in the whole list, one place further on. */
  lemma RemovedLater(s: seq<Ref>, x: Ref, i: int, kept: seq<Ref>)
    requires 1 <= i < |s| && s[0] != x
    requires s[1..][i - 1] == x && x !in s[1..][..i - 1] && kept == s[1..][..i - 1] + s[1..][i..]
    ensures s[i] == x && x !in s[..i] && [s[0]] + kept == s[..i] + s[i + 1..]
  {
    assert s[..i] == [s[0]] + s[1..][..i - 1];
    assert s[i + 1..] == s[1..][i..];
  }

  /** What list.remove leaves was in the list before. */
  lemma KeptChildren(s: seq<Ref>, x: Ref, kept: seq<Ref>)
    requires exists i :: 0 <= i < |s| && s[i] == x && x !in s[..i] && kept == s[..i] + s[i + 1..]
    ensures forall j :: 0 <= j < |kept| ==> kept[j] in s
  {
    var i :| 0 <= i < |s| && s[i] == x && x !in s[..i] && kept == s[..i] + s[i + 1..];
    forall j | 0 <= j < |kept| ensures kept[j] in s {
      if j < i {
        assert kept[j] == s[j];
      } else {
        assert kept[j] == s[j + 1];
      }
    }
  }

  /** The executemany DELETE of a list of ids. */
  function Purge<V>(m: map<int, V>, ids: seq<int>): (r: map<int, V>)
    ensures forall k :: k in r <==> k in m && k !in ids
    ensures forall k :: k in r ==> r[k] == m[k]
  {
    map k | k in m && k !in ids :: m[k]
  }

  /** The roots delete passes to change_cnt_DFS("F", id, -1). */
  function FolderRefs(ids: seq<int>): (r: seq<Ref>)
    ensures |r| == |ids| && forall i :: 0 <= i < |ids| ==> r[i] == F(ids[i])
  {
    seq(|ids|, i requires 0 <= i < |ids| => F(ids[i]))
  }

  /** The ids below x, x included. */
  ghost function Below(fs: Folders, x: int): set<int> {
    set k | k in fs && Reaches(fs, x, k)
  }

  /** Ranks with the ids of s moved up by a constant. */
  ghost function Lift(rank: map<int, nat>, s: set<int>, amount: nat): (r: map<int, nat>)
    ensures r.Keys == rank.Keys
  {
    map k | k in rank :: if k in s then rank[k] + amount else rank[k]
  }

  // ---------------------------------------------------------------------------
  // How each write keeps the graph ranked

  /** A new, empty folder ranks above everything, so it may hang anywhere. */
  lemma RankedNewFolder(fs: Folders, rank: map<int, nat>, bound: nat, tip: int, id: int, f: Folder)
    requires Ranked(fs, rank, bound) && tip in fs && id !in fs && f.children == []
    ensures Ranked(Append(fs, tip, F(id))[id := f], rank[id := bound], bound + 1)
  {
    var gs, ranks := Append(fs, tip, F(id))[id := f], rank[id := bound];
    forall k, i | k in gs && 0 <= i < |gs[k].children| && gs[k].children[i].F? && gs[k].children[i].id in gs
      ensures ranks[gs[k].children[i].id] > ranks[k]
    {
      var y := gs[k].children[i].id;
      if y != id {
        assert k != id;
        if k == tip {
          assert i < |fs[tip].children| && fs[k].children[i] == gs[k].children[i];
        }
      }
    }
  }

  /** Sharing x into tip: lifting everything below x above tip keeps the ranks. */
  lemma RankedLink(fs: Folders, rank: map<int, nat>, bound: nat, tip: int, x: int)
    requires Ranked(fs, rank, bound) && tip in fs && x in fs && !Reaches(fs, x, tip)
    ensures Ranked(Append(fs, tip, F(x)), Lift(rank, Below(fs, x), rank[tip] + 1), bound + rank[tip] + 1)
  {
    var gs := Append(fs, tip, F(x));
    var below := Below(fs, x);
    var lifted := Lift(rank, below, rank[tip] + 1);
    ReachesSelf(fs, x);
    assert x in below && tip !in below;
    forall k, i | k in gs && 0 <= i < |gs[k].children| && gs[k].children[i].F? && gs[k].children[i].id in gs
      ensures lifted[gs[k].children[i].id] > lifted[k]
    {
      var y := gs[k].children[i].id;
      if k == tip && i == |fs[tip].children| {
        assert y == x;
      } else {
        assert fs[k].children[i] == F(y);
        assert Edge(fs, k, y);
        assert rank[y] > rank[k];
        if k in below {
          ReachesExtend(fs, x, k, y);
        }
      }
    }
  }

  /** Dropping children and rows keeps the ranks. */
  lemma RankedUnlink(fs: Folders, rank: map<int, nat>, bound: nat, tip: int, kids: seq<Ref>, gone: seq<int>)
    requires Ranked(fs, rank, bound) && tip in fs
    requires forall j :: 0 <= j < |kids| ==> kids[j] in fs[tip].children
    ensures Ranked(Purge(fs[tip := fs[tip].(children := kids)], gone), rank, bound)
  {
    var gs := Purge(fs[tip := fs[tip].(children := kids)], gone);
    forall k, i | k in gs && 0 <= i < |gs[k].children| && gs[k].children[i].F? && gs[k].children[i].id in gs
      ensures rank[gs[k].children[i].id] > rank[k]
    {
      if k == tip {
        var j :| 0 <= j < |fs[tip].children| && fs[tip].children[j] == kids[i];
      }
    }
  }

  // ---------------------------------------------------------------------------
  // Sharing a folder and then deleting the new link

  /** list.remove of an item appended to a list that did not hold it gives back the list. */
  lemma {:induction false} RemoveAppended(s: seq<Ref>, x: Ref)
    requires x !in s
    ensures RemoveFirst(s + [x], x) == Some(s)
    decreases |s|
  {
    var t := s + [x];
    if |s| == 0 {
      assert t == [x] && t[1..] == [];
    } else {
      assert t[0] == s[0] && t[1..] == s[1..] + [x];
      RemoveAppended(s[1..], x);
      assert [s[0]] + s[1..] == s;
    }
  }

  /**
   * add_folder(chat_id, "F", x) followed by delete(chat_id, "F:x") at the
   * same tip. The new link raised x's counter above 1, so delete_DFS only
   * marks x for decrementing and no row is deleted; the tip is where the
   * link was added; list.remove takes the new reference off again (the very
   * list of before, unless x was already a child of the tip); and since x
   * does not reach the tip, change_cnt_DFS(x, -1) walks exactly the rows
   * the +1 walk did, restoring every counter, even when that walk stopped
   * at a missing row.
   */
  lemma ShareThenUnshare(fs: Folders, paths: map<int, seq<int>>, chatId: int, x: int,
                         rank: map<int, nat>, bound: nat, rank': map<int, nat>, bound': nat)
    requires Ranked(fs, rank, bound)
    requires LinkTarget(fs, paths, chatId, F(x), rank, bound).Ok? && fs[x].count >= 1
    requires Ranked(Append(fs, LinkTarget(fs, paths, chatId, F(x), rank, bound).value, F(x)), rank', bound')
    ensures var tip := LinkTarget(fs, paths, chatId, F(x), rank, bound).value;
      var linked := Append(fs, tip, F(x));
      var visits := Visits(linked, F(x), rank', bound');
      var added := AddCounts(linked, 1, visits.0);
      && Ranked(added, rank', bound')
      && DeleteDfs(added, F(x), true, rank', bound') == Ok(Plan([], [], [x]))
      && UnlinkTarget(added, paths, chatId) == Ok(tip)
      && RemoveFirst(added[tip].children, F(x)).Some?
      && (F(x) !in fs[tip].children ==> RemoveFirst(added[tip].children, F(x)).value == fs[tip].children)
      && var kids := RemoveFirst(added[tip].children, F(x)).value;
         var pruned := Purge(added[tip := added[tip].(children := kids)], []);
         && Ranked(pruned, rank', bound')
         && VisitsAll(pruned, FolderRefs([x]), rank', bound') == visits
         && AddCounts(pruned, -1, visits.0) == fs[tip := fs[tip].(children := kids)]
  {
    var tip := LinkTarget(fs, paths, chatId, F(x), rank, bound).value;
    assert tip in paths[chatId];
    assert !Reaches(fs, x, tip);
    ReachesSelf(fs, x);
    SharedOnlyDecremented(fs, tip, x, rank', bound');
    UnlinkRestores(fs, tip, x, rank, bound, rank', bound');
  }

  /** The new link leaves x shared, so delete_DFS of the link only decrements x. */
  lemma SharedOnlyDecremented(fs: Folders, tip: int, x: int, rank': map<int, nat>, bound': nat)
    requires tip in fs && x in fs && x != tip && fs[x].count >= 1
    requires Ranked(Append(fs, tip, F(x)), rank', bound')
    ensures var linked := Append(fs, tip, F(x));
      var added := AddCounts(linked, 1, Visits(linked, F(x), rank', bound').0);
      && Ranked(added, rank', bound')
      && DeleteDfs(added, F(x), true, rank', bound') == Ok(Plan([], [], [x]))
      && tip in added && added[tip].children == fs[tip].children + [F(x)]
  {
    var linked := Append(fs, tip, F(x));
    var visits := Visits(linked, F(x), rank', bound');
    var added := AddCounts(linked, 1, visits.0);
    RankedSameShape(linked, added, rank', bound');
    assert visits.0 == multiset{x} + VisitsAll(linked, linked[x].children, rank', bound').0;
    assert added[x].count == fs[x].count + visits.0[x] > 1;
  }

  /**
   * Taking the link off again: the child list loses the new reference, and
   * the -1 walk from x, which never reaches the tip, visits what the +1 walk
   * did, so the counters come back.
   */
  lemma UnlinkRestores(fs: Folders, tip: int, x: int, rank: map<int, nat>, bound: nat, rank': map<int, nat>, bound': nat)
    requires Ranked(fs, rank, bound) && tip in fs && x in fs && !Reaches(fs, x, tip)
    requires Ranked(Append(fs, tip, F(x)), rank', bound')
    ensures var linked := Append(fs, tip, F(x));
      var visits := Visits(linked, F(x), rank', bound');
      var added := AddCounts(linked, 1, visits.0);
      && RemoveFirst(added[tip].children, F(x)).Some?
      && (F(x) !in fs[tip].children ==> RemoveFirst(added[tip].children, F(x)).value == fs[tip].children)
      && var kids := RemoveFirst(added[tip].children, F(x)).value;
         var pruned := Purge(added[tip := added[tip].(children := kids)], []);
         && Ranked(pruned, rank', bound')
         && VisitsAll(pruned, FolderRefs([x]), rank', bound') == visits
         && AddCounts(pruned, -1, visits.0) == fs[tip := fs[tip].(children := kids)]
  {
    var linked := Append(fs, tip, F(x));
    var visits := Visits(linked, F(x), rank', bound');
    var added := AddCounts(linked, 1, visits.0);
    RankedSameShape(linked, added, rank', bound');
    UnlinkChildren(fs, added, tip, x);
    var kids := RemoveFirst(added[tip].children, F(x)).value;
    var pruned := Purge(added[tip := added[tip].(children := kids)], []);
    RestoredAfterUnlink(fs, linked, added, pruned, tip, x, kids, rank, bound, rank', bound');
  }

  /** list.remove finds the appended reference; what it keeps was in the list. */
  lemma UnlinkChildren(fs: Folders, added: Folders, tip: int, x: int)
    requires tip in fs && tip in added && added[tip].children == fs[tip].children + [F(x)]
    ensures RemoveFirst(added[tip].children, F(x)).Some?
    ensures F(x) !in fs[tip].children ==> RemoveFirst(added[tip].children, F(x)).value == fs[tip].children
    ensures var kids := RemoveFirst(added[tip].children, F(x)).value;
      forall j :: 0 <= j < |kids| ==> kids[j] in added[tip].children
  {
    assert added[tip].children[|fs[tip].children|] == F(x);
    if F(x) !in fs[tip].children {
      RemoveAppended(fs[tip].children, F(x));
    }
    KeptChildren(added[tip].children, F(x), RemoveFirst(added[tip].children, F(x)).value);
  }

  lemma RestoredAfterUnlink(fs: Folders, linked: Folders, added: Folders, pruned: Folders, tip: int, x: int, kids: seq<Ref>,
                            rank: map<int, nat>, bound: nat, rank': map<int, nat>, bound': nat)
    requires Ranked(fs, rank, bound) && tip in fs && !Reaches(fs, x, tip)
    requires linked == Append(fs, tip, F(x)) && Ranked(linked, rank', bound')
    requires added == AddCounts(linked, 1, Visits(linked, F(x), rank', bound').0) && Ranked(added, rank', bound')
    requires forall j :: 0 <= j < |kids| ==> kids[j] in added[tip].children
    requires pruned == Purge(added[tip := added[tip].(children := kids)], [])
    ensures Ranked(pruned, rank', bound')
    ensures VisitsAll(pruned, FolderRefs([x]), rank', bound') == Visits(linked, F(x), rank', bound')
    ensures AddCounts(pruned, -1, Visits(linked, F(x), rank', bound').0) == fs[tip := fs[tip].(children := kids)]
  {
    var m := Visits(linked, F(x), rank', bound').0;
    RankedUnlink(added, rank', bound', tip, kids, []);
    var back := fs[tip := fs[tip].(children := kids)];
    UnsharedCounts(fs, linked, added, pruned, back, tip, x, kids, m);
    AddCountsInverse(back, 1, m);
    UnlinkVisitsSame(fs, linked, pruned, tip, x, rank, bound, rank', bound');
  }

  /** Away from the tip both stores have the old child lists, so the two walks from x coincide. */
  lemma UnlinkVisitsSame(fs: Folders, linked: Folders, pruned: Folders, tip: int, x: int,
                         rank: map<int, nat>, bound: nat, rank': map<int, nat>, bound': nat)
    requires Ranked(fs, rank, bound) && Ranked(linked, rank', bound') && Ranked(pruned, rank', bound')
    requires !Reaches(fs, x, tip) && linked.Keys == fs.Keys && pruned.Keys == fs.Keys
    requires forall k :: k in fs && k != tip ==> linked[k].children == fs[k].children && pruned[k].children == fs[k].children
    ensures VisitsAll(pruned, FolderRefs([x]), rank', bound') == Visits(linked, F(x), rank', bound')
  {
    forall k | Reaches(fs, x, k) ensures k != tip { }
    VisitsLocal(fs, pruned, F(x), rank, bound, rank', bound');
    VisitsLocal(fs, linked, F(x), rank, bound, rank', bound');
    var visits := Visits(linked, F(x), rank', bound');
    assert FolderRefs([x]) == [F(x)] && [F(x)][1..] == [];
    assert VisitsAll(pruned, [], rank', bound') == (multiset{}, true);
    assert visits.0 + multiset{} == visits.0;
  }

  /** After the link is taken off again, the counters are those of the +1 walk over the old lists. */
  lemma UnsharedCounts(fs: Folders, linked: Folders, added: Folders, pruned: Folders, back: Folders,
                       tip: int, x: int, kids: seq<Ref>, m: multiset<int>)
    requires tip in fs && linked == Append(fs, tip, F(x)) && added == AddCounts(linked, 1, m)
    requires pruned == Purge(added[tip := added[tip].(children := kids)], [])
    requires back == fs[tip := fs[tip].(children := kids)]
    ensures pruned == AddCounts(back, 1, m)
    ensures pruned.Keys == fs.Keys && forall k :: k in fs && k != tip ==> pruned[k].children == fs[k].children
  {
    var want := AddCounts(back, 1, m);
    assert pruned.Keys == want.Keys;
    forall k | k in pruned ensures pruned[k] == want[k] {
      if k == tip {
        assert pruned[k] == fs[tip].(children := kids, count := fs[tip].count + m[tip]);
      }
    }
  }

  class Store {
    /** The Folders table, by row id. */
    var folders: Folders
    /** The Files table, by row id. */
    var files: map<int, FileRecord>
    /** The path column of the Users table, by chat id: the folder ids from the user's root to where they stand. */
    var paths: map<int, seq<int>>
    /** Ranks that keep the folder graph acyclic, so that every traversal ends. */
    ghost var rank: map<int, nat>
    ghost var bound: nat

    ghost predicate Valid()
      reads this
    {
      Ranked(folders, rank, bound)
    }

    /** A store over existing tables, given ranks for their folder graph. */
    constructor (folders0: Folders, files0: map<int, FileRecord>, paths0: map<int, seq<int>>,
                 ghost rank0: map<int, nat>, ghost bound0: nat)
      requires Ranked(folders0, rank0, bound0)
      ensures Valid() && folders == folders0 && files == files0 && paths == paths0
    {
      folders, files, paths := folders0, files0, paths0;
      rank, bound := rank0, bound0;
    }

    /**
     * change_cnt_DFS(type, id, change): add change to the counter of every
     * folder reached from v, each time the walk arrives at it, depth first, stopping at the
     * first reference without a row. Files are not touched.
     */
    method ChangeCount(v: Ref, change: int) returns (r: Result<(), GraphError>)
      requires Valid()
      modifies this
      ensures Valid() && rank == old(rank) && bound == old(bound)
      ensures files == old(files) && paths == old(paths)
      ensures folders == AddCounts(old(folders), change, Visits(old(folders), v, rank, bound).0)
      ensures r.Ok? <==> Visits(old(folders), v, rank, bound).1
      ensures r.Err? ==> r.error == Missing
      decreases Height(folders, rank, bound, v), 1
    {
      if v.D? {
        AddCountsNone(folders, change);
        return Ok(());
      }
      if v.id !in folders {
        AddCountsNone(folders, change);
        return Err(Missing);
      }
      ghost var before := folders;
      var node := folders[v.id];
      folders := folders[v.id := node.(count := node.count + change)];
      ghost var mid := folders;
      OwnThenChildren(before, v.id, change, mid, rank, bound);
      ChildrenLower(before, rank, bound, v.id);
      MaxHeightSameKeys(before, mid, rank, bound, node.children);
      r := ChangeCountAll(node.children, change);
      assert folders == AddCounts(mid, change, VisitsAll(mid, node.children, rank, bound).0);
      assert v == F(v.id);
    }

    /** The for loop of change_cnt_DFS over a child list, and delete's loop over its decrement roots. */
    method ChangeCountAll(refs: seq<Ref>, change: int) returns (r: Result<(), GraphError>)
      requires Valid()
      modifies this
      ensures Valid() && rank == old(rank) && bound == old(bound)
      ensures files == old(files) && paths == old(paths)
      ensures folders == AddCounts(old(folders), change, VisitsAll(old(folders), refs, rank, bound).0)
      ensures r.Ok? <==> VisitsAll(old(folders), refs, rank, bound).1
      ensures r.Err? ==> r.error == Missing
      decreases MaxHeight(folders, rank, bound, refs) + 1, 0
    {
      ghost var start := folders;
      AddCountsNone(start, change);
      assert refs[..0] == [];
      var i := 0;
      while i < |refs|
        invariant 0 <= i <= |refs|
        invariant Valid() && rank == old(rank) && bound == old(bound)
        invariant files == old(files) && paths == old(paths)
        invariant SameShape(start, folders)
        invariant VisitsAll(start, refs[..i], rank, bound).1
        invariant folders == AddCounts(start, change, VisitsAll(start, refs[..i], rank, bound).0)
      {
        ghost var mid := folders;
        assert Height(mid, rank, bound, refs[i]) == Height(start, rank, bound, refs[i]);
        var res := ChangeCount(refs[i], change);
        VisitsSameShape(start, mid, refs[i], rank, bound);
        VisitsAllSnoc(start, refs, i, rank, bound);
        AddCountsCompose(start, change, VisitsAll(start, refs[..i], rank, bound).0, Visits(start, refs[i], rank, bound).0);
        if res.Err? {
          VisitsAllStops(start, refs, i + 1, rank, bound);
          return res;
        }
        i := i + 1;
      }
      assert refs[..i] == refs;
      r := Ok(());
    }

    /**
     * create(chat_id, lvl, name, ...): insert a folder (lvl "fold") or a
     * file row under the id the database hands out, and append its
     * reference to the child list of the folder the user stands in. A new
     * folder copies that folder's counter.
     */
    method Create(chatId: int, isFolder: bool, name: string, privateMode: int,
                  fileId: string, fileType: string, newId: int) returns (r: Result<int, GraphError>)
      requires Valid()
      requires isFolder ==> newId !in folders
      requires !isFolder ==> newId !in files
      modifies this
      ensures Valid() && paths == old(paths)
      ensures Tip(paths, chatId).Err? ==> r == Err(Tip(paths, chatId).error)
      ensures Tip(paths, chatId).Ok? ==> (r.Ok? <==> Tip(paths, chatId).value in old(folders))
      ensures r.Err? ==> r.error in {Missing, BadPath} && folders == old(folders) && files == old(files)
      ensures r.Ok? ==> r.value == newId && Tip(paths, chatId).Ok?
      ensures r.Ok? && isFolder ==>
        var tip := Tip(paths, chatId).value;
        tip in old(folders) && files == old(files) &&
        folders == Append(old(folders), tip, F(newId))[newId := Folder(name, chatId, privateMode, old(folders)[tip].count, [])]
      ensures r.Ok? && !isFolder ==>
        var tip := Tip(paths, chatId).value;
        tip in old(folders) && folders == Append(old(folders), tip, D(newId)) &&
        files == old(files)[newId := FileRecord(fileId, name, fileType)]
    {
      var target := Tip(paths, chatId);
      if target.Err? {
        return Err(target.error);
      }
      var tip := target.value;
      if tip !in folders {
        return Err(Missing);
      }
      if isFolder {
        var count := folders[tip].count;
        RankedNewFolder(folders, rank, bound, tip, newId, Folder(name, chatId, privateMode, count, []));
        folders := Append(folders, tip, F(newId))[newId := Folder(name, chatId, privateMode, count, [])];
        rank, bound := rank[newId := bound], bound + 1;
      } else {
        files := files[newId := FileRecord(fileId, name, fileType)];
        folders := Append(folders, tip, D(newId));
      }
      r := Ok(newId);
    }

    /**
     * add_folder(chat_id, type, id): share an existing folder into the one
     * the user stands in. Refused (KeyError) before any write when the
     * shared folder reaches the user's path; otherwise "F:<id>" is appended
     * to the tip's children and every counter below the shared reference is
     * raised by one.
     */
    method AddFolder(chatId: int, added: Ref) returns (r: Result<(), GraphError>)
      requires Valid()
      modifies this
      ensures Valid() && files == old(files) && paths == old(paths)
      ensures var target := LinkTarget(old(folders), paths, chatId, added, old(rank), old(bound));
        target.Err? ==> r == Err(target.error) && folders == old(folders)
      ensures var target := LinkTarget(old(folders), paths, chatId, added, old(rank), old(bound));
        target.Ok? ==>
          var linked := Append(old(folders), target.value, F(added.id));
          && Ranked(linked, rank, bound)
          && folders == AddCounts(linked, 1, Visits(linked, added, rank, bound).0)
          && (r.Ok? <==> Visits(linked, added, rank, bound).1)
          && (r.Err? ==> r.error == Missing)
    {
      var target := LinkTarget(folders, paths, chatId, added, rank, bound);
      if target.Err? {
        return Err(target.error);
      }
      var tip := target.value;
      RankedLink(folders, rank, bound, tip, added.id);
      ghost var below := Below(folders, added.id);
      ghost var shift := rank[tip] + 1;
      folders := Append(folders, tip, F(added.id));
      rank, bound := Lift(rank, below, shift), bound + shift;
      r := ChangeCount(added, 1);
    }

    /**
     * delete(chat_id, "T:<id>"): classify what lies below the reference,
     * remove its first occurrence from the tip's children, delete the
     * classified folder and file rows, then lower by one every counter below
     * each shared folder that was only decremented.
     */
    method Delete(chatId: int, vertex: Ref) returns (r: Result<(), GraphError>)
      requires Valid()
      modifies this
      ensures Valid() && paths == old(paths) && rank == old(rank) && bound == old(bound)
      ensures DeleteDfs(old(folders), vertex, true, rank, bound).Err? ==>
        r == Err(Missing) && folders == old(folders) && files == old(files)
      ensures DeleteDfs(old(folders), vertex, true, rank, bound).Ok? && UnlinkTarget(old(folders), paths, chatId).Err? ==>
        r == Err(Missing) && folders == old(folders) && files == old(files)
      ensures (DeleteDfs(old(folders), vertex, true, rank, bound).Ok? && UnlinkTarget(old(folders), paths, chatId).Ok?
               && vertex !in old(folders)[UnlinkTarget(old(folders), paths, chatId).value].children) ==>
        r == Err(NotAChild) && folders == old(folders) && files == old(files)
      ensures (DeleteDfs(old(folders), vertex, true, rank, bound).Ok? && UnlinkTarget(old(folders), paths, chatId).Ok?
               && vertex in old(folders)[UnlinkTarget(old(folders), paths, chatId).value].children) ==>
        var plan := DeleteDfs(old(folders), vertex, true, rank, bound).value;
        var tip := UnlinkTarget(old(folders), paths, chatId).value;
        var kids := RemoveFirst(old(folders)[tip].children, vertex).value;
        var pruned := Purge(old(folders)[tip := old(folders)[tip].(children := kids)], plan.folders);
        && Ranked(pruned, rank, bound)
        && files == Purge(old(files), plan.files)
        && folders == AddCounts(pruned, -1, VisitsAll(pruned, FolderRefs(plan.decrement), rank, bound).0)
        && (r.Ok? <==> VisitsAll(pruned, FolderRefs(plan.decrement), rank, bound).1)
        && (r.Err? ==> r.error == Missing)
    {
      var plan := DeleteDfs(folders, vertex, true, rank, bound);
      if plan.Err? {
        return Err(plan.error);
      }
      var target := UnlinkTarget(folders, paths, chatId);
      if target.Err? {
        return Err(target.error);
      }
      var tip := target.value;
      var kids := RemoveFirst(folders[tip].children, vertex);
      if kids.None? {
        return Err(NotAChild);
      }
      KeptChildren(folders[tip].children, vertex, kids.value);
      RankedUnlink(folders, rank, bound, tip, kids.value, plan.value.folders);
      folders := Purge(folders[tip := folders[tip].(children := kids.value)], plan.value.folders);
      files := Purge(files, plan.value.files);
      ghost var pruned := folders;
      r := ChangeCountAll(FolderRefs(plan.value.decrement), -1);
      assert folders == AddCounts(pruned, -1, VisitsAll(pruned, FolderRefs(plan.value.decrement), rank, bound).0);
    }
  }

  /**
   * A user shares folder x into the folder they stand in and then deletes
   * that link again: every table is as it was before. The two store
   * operations are run as they are; ShareThenUnshare is why they cancel.
   */
  method ShareThenDelete(s: Store, chatId: int, x: int) returns (shared: Result<(), GraphError>, removed: Result<(), GraphError>)
    requires s.Valid() && LinkTarget(s.folders, s.paths, chatId, F(x), s.rank, s.bound).Ok? && s.folders[x].count >= 1
    requires F(x) !in s.folders[LinkTarget(s.folders, s.paths, chatId, F(x), s.rank, s.bound).value].children
    modifies s
    ensures s.Valid() && removed.Ok? == shared.Ok?
    ensures s.folders == old(s.folders) && s.files == old(s.files) && s.paths == old(s.paths)
  {
    ghost var fs, rank, bound := s.folders, s.rank, s.bound;
    ghost var tip := LinkTarget(fs, s.paths, chatId, F(x), rank, bound).value;
    assert fs[tip := fs[tip].(children := fs[tip].children)] == fs;
    assert Purge(s.files, []) == s.files;
    shared := s.AddFolder(chatId, F(x));
    ShareThenUnshare(fs, s.paths, chatId, x, rank, bound, s.rank, s.bound);
    ghost var added := s.folders;
    assert F(x) in added[tip].children;
    removed := s.Delete(chatId, F(x));
  }
}
