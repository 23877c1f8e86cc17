/**
 * cycle_BFS of db_functions.py: before a folder is shared into the folder a
 * user is standing in, walk the folders below it layer by layer and refuse
 * if any of them is on the user's current path.
 */
module CycleCheck {
  import opened Wrappers
  import opened FolderGraph

  /** Scanning stops at position i: its id is on the path, or it has no row. */
  ghost predicate StopsAt(fs: Folders, layer: seq<int>, pathIds: seq<int>, i: int) {
    0 <= i < |layer| && (layer[i] in pathIds || layer[i] !in fs)
      && forall j :: 0 <= j < i ==> layer[j] !in pathIds && layer[j] in fs
  }

  /**
   * The for loop of cycle_BFS over one layer: the first id on the path makes
   * it return False (Ok(None) here), the first id without a row raises
   * TypeError, and otherwise the folder children of the whole layer, in
   * order, form the next layer.
   */
  function ScanLayer(fs: Folders, layer: seq<int>, pathIds: seq<int>): (r: Result<Option<seq<int>>, GraphError>)
    ensures r == Ok(None) <==> exists i :: StopsAt(fs, layer, pathIds, i) && layer[i] in pathIds
    ensures r.Err? <==> exists i :: StopsAt(fs, layer, pathIds, i) && layer[i] !in pathIds
    ensures r.Err? ==> r.error == Missing
    ensures r.Ok? && r.value.Some? ==> forall i :: 0 <= i < |layer| ==> layer[i] in fs && layer[i] !in pathIds
    ensures r.Ok? && r.value.Some? ==>
      forall x :: x in r.value.value <==> exists i :: 0 <= i < |layer| && Edge(fs, layer[i], x)
    decreases |layer|
  {
    if |layer| == 0 then Ok(Some([]))
    else if layer[0] in pathIds then
      assert StopsAt(fs, layer, pathIds, 0);
      Ok(None)
    else if layer[0] !in fs then
      assert StopsAt(fs, layer, pathIds, 0);
      Err(Missing)
    else
      var tail := layer[1..];
      var rest := ScanLayer(fs, tail, pathIds);
      ShiftStops(fs, layer, pathIds);
      if rest.Ok? && rest.value.Some? then
        assert forall i :: 1 <= i < |layer| ==> layer[i] == tail[i - 1];
        Ok(Some(FolderIds(fs[layer[0]].children) + rest.value.value))
      else rest
  }

  /** Past a first id that neither is on the path nor lacks a row, stops move one place. */
  lemma ShiftStops(fs: Folders, layer: seq<int>, pathIds: seq<int>)
    requires |layer| > 0 && layer[0] !in pathIds && layer[0] in fs
    ensures forall i :: StopsAt(fs, layer, pathIds, i) <==> i >= 1 && StopsAt(fs, layer[1..], pathIds, i - 1)
  {
    var tail := layer[1..];
    forall i ensures StopsAt(fs, layer, pathIds, i) <==> i >= 1 && StopsAt(fs, tail, pathIds, i - 1) {
      if 1 <= i < |layer| {
        assert layer[i] == tail[i - 1];
        assert forall j :: 1 <= j < i ==> layer[j] == tail[j - 1];
      }
    }
  }

  /** Every stored id of the layer has rank at least depth. */
  ghost predicate AtDepth(fs: Folders, rank: map<int, nat>, layer: seq<int>, depth: nat)
    requires fs.Keys <= rank.Keys
  {
    forall i :: 0 <= i < |layer| && layer[i] in fs ==> rank[layer[i]] >= depth
  }

  /** The next layer lies one rank deeper than the layer it came from. */
  lemma NextLayerDeeper(fs: Folders, rank: map<int, nat>, bound: nat, layer: seq<int>, pathIds: seq<int>, depth: nat)
    requires Ranked(fs, rank, bound) && AtDepth(fs, rank, layer, depth)
    requires ScanLayer(fs, layer, pathIds).Ok? && ScanLayer(fs, layer, pathIds).value.Some?
    ensures AtDepth(fs, rank, ScanLayer(fs, layer, pathIds).value.value, depth + 1)
  {
    var next := ScanLayer(fs, layer, pathIds).value.value;
    forall k | 0 <= k < |next| && next[k] in fs ensures rank[next[k]] >= depth + 1 {
      var x := next[k];
      assert x in next;
      var i :| 0 <= i < |layer| && Edge(fs, layer[i], x);
      var j :| 0 <= j < |fs[layer[i]].children| && fs[layer[i]].children[j] == F(x);
    }
  }

  /**
   * cycle_BFS(vertices_id, path_id): Ok(true) when the search runs out of
   * folders without meeting the path, Ok(false) when some layer holds a path
   * id, Err(Missing) when a folder of a layer has no row. The ghost depth
   * bounds the ranks of the current layer from below.
   */
  function CycleBfs(fs: Folders, frontier: seq<int>, pathIds: seq<int>,
                    ghost rank: map<int, nat>, ghost bound: nat, ghost depth: nat): (r: Result<bool, GraphError>)
    requires Ranked(fs, rank, bound) && AtDepth(fs, rank, frontier, depth)
    ensures |frontier| == 0 ==> r == Ok(true)
    ensures (exists i :: StopsAt(fs, frontier, pathIds, i) && frontier[i] in pathIds) ==> r == Ok(false)
    ensures (exists i :: StopsAt(fs, frontier, pathIds, i) && frontier[i] !in pathIds) ==> r == Err(Missing)
    ensures r.Err? ==> r.error == Missing
    decreases bound - depth
  {
    if |frontier| == 0 then Ok(true)
    else
      match ScanLayer(fs, frontier, pathIds)
      case Err(e) => Err(e)
      case Ok(None) => Ok(false)
      case Ok(Some(next)) =>
        RankBelowBound(fs, rank, bound, frontier[0]);
        assert depth <= rank[frontier[0]] < bound;
        NextLayerDeeper(fs, rank, bound, frontier, pathIds, depth);
        CycleBfs(fs, next, pathIds, rank, bound, depth + 1)
  }

  /** When cycle_BFS answers True, no folder below the start reaches a path id. */
  lemma {:induction false} CycleBfsSound(fs: Folders, frontier: seq<int>, pathIds: seq<int>,
                                         rank: map<int, nat>, bound: nat, depth: nat)
    requires Ranked(fs, rank, bound) && AtDepth(fs, rank, frontier, depth)
    requires CycleBfs(fs, frontier, pathIds, rank, bound, depth) == Ok(true)
    ensures forall x, t :: x in frontier && t in pathIds ==> !Reaches(fs, x, t)
    decreases bound - depth
  {
    if |frontier| > 0 {
      var next := ScanLayer(fs, frontier, pathIds).value.value;
      RankBelowBound(fs, rank, bound, frontier[0]);
      assert depth <= rank[frontier[0]] < bound;
      NextLayerDeeper(fs, rank, bound, frontier, pathIds, depth);
      CycleBfsSound(fs, next, pathIds, rank, bound, depth + 1);
      forall x, t | x in frontier && t in pathIds ensures !Reaches(fs, x, t) {
        if Reaches(fs, x, t) {
          var i :| 0 <= i < |frontier| && frontier[i] == x;
          assert x !in pathIds;
          var y := ReachesFirstEdge(fs, x, t);
          assert false;
        }
      }
    }
  }

  /** When cycle_BFS answers False, some folder at or below the start is a path id. */
  lemma {:induction false} CycleBfsComplete(fs: Folders, frontier: seq<int>, pathIds: seq<int>,
                                            rank: map<int, nat>, bound: nat, depth: nat)
    requires Ranked(fs, rank, bound) && AtDepth(fs, rank, frontier, depth)
    requires CycleBfs(fs, frontier, pathIds, rank, bound, depth) == Ok(false)
    ensures exists x, t :: x in frontier && t in pathIds && Reaches(fs, x, t)
    decreases bound - depth
  {
    var scan := ScanLayer(fs, frontier, pathIds);
    if scan == Ok(None) {
      var i :| StopsAt(fs, frontier, pathIds, i) && frontier[i] in pathIds;
      ReachesSelf(fs, frontier[i]);
    } else {
      var next := scan.value.value;
      RankBelowBound(fs, rank, bound, frontier[0]);
      assert depth <= rank[frontier[0]] < bound;
      NextLayerDeeper(fs, rank, bound, frontier, pathIds, depth);
      CycleBfsComplete(fs, next, pathIds, rank, bound, depth + 1);
      var y, t :| y in next && t in pathIds && Reaches(fs, y, t);
      var i :| 0 <= i < |frontier| && Edge(fs, frontier[i], y);
      ReachesStep(fs, frontier[i], y, t);
    }
  }

  /** No stored folder refers to a folder that has no row. */
  ghost predicate Closed(fs: Folders) {
    forall u, v :: Edge(fs, u, v) ==> v in fs
  }

  /**
   * In a store without stale folder references, cycle_BFS from stored folders
   * never raises, and answers True exactly when no path id can be reached.
   */
  lemma {:induction false} CycleBfsDecides(fs: Folders, frontier: seq<int>, pathIds: seq<int>,
                                           rank: map<int, nat>, bound: nat, depth: nat)
    requires Ranked(fs, rank, bound) && AtDepth(fs, rank, frontier, depth)
    requires Closed(fs) && forall i :: 0 <= i < |frontier| ==> frontier[i] in fs
    ensures CycleBfs(fs, frontier, pathIds, rank, bound, depth).Ok?
    ensures CycleBfs(fs, frontier, pathIds, rank, bound, depth).value
        <==> forall x, t :: x in frontier && t in pathIds ==> !Reaches(fs, x, t)
    decreases bound - depth
  {
    var scan := ScanLayer(fs, frontier, pathIds);
    if |frontier| > 0 && scan.Ok? && scan.value.Some? {
      var next := scan.value.value;
      RankBelowBound(fs, rank, bound, frontier[0]);
      assert depth <= rank[frontier[0]] < bound;
      NextLayerDeeper(fs, rank, bound, frontier, pathIds, depth);
      forall k | 0 <= k < |next| ensures next[k] in fs {
        assert next[k] in next;
        var i :| 0 <= i < |frontier| && Edge(fs, frontier[i], next[k]);
      }
      CycleBfsDecides(fs, next, pathIds, rank, bound, depth + 1);
    }
    var r := CycleBfs(fs, frontier, pathIds, rank, bound, depth);
    if r == Ok(true) {
      CycleBfsSound(fs, frontier, pathIds, rank, bound, depth);
    } else if r == Ok(false) {
      CycleBfsComplete(fs, frontier, pathIds, rank, bound, depth);
    }
  }
}
