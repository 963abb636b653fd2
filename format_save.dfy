/**
 * Saving a scene graph: the default maximum size, the scan for a node that exceeds
 * it, and the choice between refusing, merging everything into one node, splitting
 * into chunk-sized nodes, or handing the graph to the codec's writer unchanged.
 */
module FormatSave {
  import opened Wrappers
  import opened Regions
  import opened Scenes
  import opened VolumeSplitting

  /** The maximum volume size of a format that has none. */
  const DEFAULT_MAX_SIZE: Vec3 := Vec3(-1, -1, -1)

  /** `Format::maxSize()`: no format-wide limit unless a format overrides it. */
  function BaseMaxSize(): (r: Vec3)
    ensures !AllPositive(r)
    ensures r.x < 0 && r.y < 0 && r.z < 0
  {
    DEFAULT_MAX_SIZE
  }

  /** A split is needed when the limit is positive on every axis and some node exceeds it on some axis. */
  predicate NeedsSplit(maxSize: Vec3, nodes: seq<Node>) {
    AllPositive(maxSize) && exists k :: 0 <= k < |nodes| && !FitsWithin(NodeRegion(nodes[k]), maxSize)
  }

  /** The node that holds the merge of the whole graph. */
  function MergedNode(nodes: seq<Node>, c: Collaborators): Node {
    NewModelNode(c.merge(nodes).0, c.merge(nodes).1)
  }

  /**
   * The node sequence handed to the codec's writer, or None when the writer is not
   * called: a graph that needs splitting cannot be saved as a single volume.
   */
  function GraphToSave(nodes: seq<Node>, maxSize: Vec3, singleVolume: bool, c: Collaborators, stop: nat -> bool): (r: Option<seq<Node>>)
    ensures r.None? <==> NeedsSplit(maxSize, nodes) && singleVolume
  {
    if NeedsSplit(maxSize, nodes) && singleVolume then None
    else if singleVolume then Some([MergedNode(nodes, c)])
    else if NeedsSplit(maxSize, nodes) then Some(SplitAll(nodes[..FirstStop(stop, 0, |nodes|)], maxSize, false, c))
    else Some(nodes)
  }

  /**
   * Saves `graph` with a format whose `maxSize()` is `maxSize`.  `saved` is the node
   * sequence of the graph the writer receives (None when it is not called) and `ok`
   * is the writer's verdict, false when the save is refused.
   */
  method Save(graph: SceneGraph, maxSize: Vec3, singleVolume: bool, c: Collaborators, stop: nat -> bool,
              saveGroups: seq<Node> -> bool)
    returns (ok: bool, saved: Option<seq<Node>>)
    ensures saved == GraphToSave(graph.nodes, maxSize, singleVolume, c, stop)
    ensures ok <==> saved.Some? && saveGroups(saved.value)
  {
    var nodes := graph.nodes;
    var needsSplit := false;
    if maxSize.x > 0 && maxSize.y > 0 && maxSize.z > 0 {
      var i := 0;
      while i < |nodes|
        invariant 0 <= i <= |nodes|
        invariant forall k :: 0 <= k < i ==> FitsWithin(NodeRegion(nodes[k]), maxSize)
      {
        if !FitsWithin(NodeRegion(nodes[i]), maxSize) {
          needsSplit := true;
          break;
        }
        i := i + 1;
      }
    }
    assert needsSplit == NeedsSplit(maxSize, nodes);

    if needsSplit && singleVolume {
      return false, None;
    }
    if singleVolume {
      var merged := c.merge(nodes);
      var mergedGraph := new SceneGraph();
      mergedGraph.Emplace(NewModelNode(merged.0, merged.1));
      assert mergedGraph.nodes == [MergedNode(nodes, c)];
      saved := Some(mergedGraph.nodes);
      ok := saveGroups(mergedGraph.nodes);
      return;
    }
    if needsSplit {
      var newGraph := new SceneGraph();
      SplitVolumes(graph, newGraph, maxSize, false, c, stop);
      assert newGraph.nodes == SplitAll(nodes[..FirstStop(stop, 0, |nodes|)], maxSize, false, c);
      saved := Some(newGraph.nodes);
      ok := saveGroups(newGraph.nodes);
      return;
    }
    saved := Some(nodes);
    ok := saveGroups(nodes);
  }

  /** A format without a size limit never splits: the graph is saved as it is, or merged. */
  lemma DefaultMaxSizeNeverSplits(nodes: seq<Node>, singleVolume: bool, c: Collaborators, stop: nat -> bool)
    ensures !NeedsSplit(BaseMaxSize(), nodes)
    ensures GraphToSave(nodes, BaseMaxSize(), singleVolume, c, stop)
         == if singleVolume then Some([MergedNode(nodes, c)]) else Some(nodes)
  {
  }

  /**
   * When no split is needed (every node fits, or the limit is not positive on every
   * axis), a multi-volume format hands over the graph unchanged and a single-volume one its merge.
   */
  lemma UnsplitGraphSavedAsIs(nodes: seq<Node>, maxSize: Vec3, singleVolume: bool, c: Collaborators, stop: nat -> bool)
    requires !NeedsSplit(maxSize, nodes)
    ensures GraphToSave(nodes, maxSize, singleVolume, c, stop)
         == if singleVolume then Some([MergedNode(nodes, c)]) else Some(nodes)
  {
  }

  /**
   * A single-volume format (when saving is not refused) hands the writer exactly one
   * node, holding the merged volume and palette of the whole graph.
   */
  lemma {:induction false} SingleVolumeSavesOneNode(nodes: seq<Node>, maxSize: Vec3, c: Collaborators, stop: nat -> bool)
    requires !NeedsSplit(maxSize, nodes)
    ensures GraphToSave(nodes, maxSize, true, c, stop).Some?
    ensures |GraphToSave(nodes, maxSize, true, c, stop).value| == 1
    ensures GraphToSave(nodes, maxSize, true, c, stop).value[0].volume == c.merge(nodes).0
    ensures GraphToSave(nodes, maxSize, true, c, stop).value[0].palette == c.merge(nodes).1
  {
  }

  /**
   * A multi-volume format that needs a split hands the writer the uncropped split of
   * the nodes walked before the first stop request: node by node, invalid ones dropped,
   * fitting ones copied, the others cut into sub-volumes.  The split of the first k
   * nodes comes first, in order, whenever none of the polls before them asked to stop.
   */
  lemma SplitSavesWalkedNodes(nodes: seq<Node>, maxSize: Vec3, c: Collaborators, stop: nat -> bool)
    requires NeedsSplit(maxSize, nodes)
    ensures GraphToSave(nodes, maxSize, false, c, stop) == Some(SplitAll(nodes[..FirstStop(stop, 0, |nodes|)], maxSize, false, c))
    ensures forall k :: 0 <= k <= |nodes| && (forall j :: 0 <= j < k ==> !stop(j)) ==>
      SplitAll(nodes[..k], maxSize, false, c) <= GraphToSave(nodes, maxSize, false, c, stop).value
  {
    var n := FirstStop(stop, 0, |nodes|);
    FirstStopIsFirst(stop, 0, |nodes|);
    forall k | 0 <= k <= |nodes| && (forall j :: 0 <= j < k ==> !stop(j))
      ensures SplitAll(nodes[..k], maxSize, false, c) <= SplitAll(nodes[..n], maxSize, false, c)
    {
      SplitPrefix(nodes[..n], k, maxSize, c);
      assert nodes[..n][..k] == nodes[..k];
    }
  }

  /** The split of a prefix of the nodes is a prefix of the split of all of them. */
  lemma SplitPrefix(nodes: seq<Node>, k: nat, maxSize: Vec3, c: Collaborators)
    requires k <= |nodes|
    ensures SplitAll(nodes[..k], maxSize, false, c) <= SplitAll(nodes, maxSize, false, c)
  {
    assert nodes == nodes[..k] + nodes[k..];
    SplitAllAppend(nodes[..k], nodes[k..], maxSize, false, c);
  }

  /**
   * Given a splitter that honours the positive size it is asked for and copies that keep their
   * region, every node a multi-volume format hands to the writer fits the limit.
   */
  lemma SavedGraphFits(nodes: seq<Node>, maxSize: Vec3, c: Collaborators, stop: nat -> bool)
    requires AllPositive(maxSize)
    requires SplitterRespectsSize(c) && CopyKeepsRegion(c)
    ensures GraphToSave(nodes, maxSize, false, c, stop).Some?
    ensures forall k :: 0 <= k < |GraphToSave(nodes, maxSize, false, c, stop).value| ==>
      FitsWithin(NodeRegion(GraphToSave(nodes, maxSize, false, c, stop).value[k]), maxSize)
  {
    if NeedsSplit(maxSize, nodes) {
      SplitOutputFits(nodes[..FirstStop(stop, 0, |nodes|)], maxSize, false, c);
    }
  }

  /** Two unit nodes side by side, at x = 0 and x = 1. */
  const UNIT: Vec3 := Vec3(1, 1, 1)
  const LEFT_CUBE: Node := NewModelNode(Volume(Region(Vec3(0, 0, 0), Vec3(0, 0, 0)), map[]), EMPTY_PALETTE)
  const RIGHT_CUBE: Node := NewModelNode(Volume(Region(Vec3(1, 0, 0), Vec3(1, 0, 0)), map[]), EMPTY_PALETTE)

  /**
   * The size check looks at each node on its own, not at the merged result: two unit
   * nodes whose union spans two voxels are merged and saved by a single-volume format
   * whose limit is one voxel.
   */
  lemma SaveIgnoresMergedSize(c: Collaborators, stop: nat -> bool)
    ensures !FitsWithin(Region(LEFT_CUBE.volume.region.lower, RIGHT_CUBE.volume.region.upper), UNIT)
    ensures GraphToSave([LEFT_CUBE, RIGHT_CUBE], UNIT, true, c, stop) == Some([MergedNode([LEFT_CUBE, RIGHT_CUBE], c)])
  {
    var nodes := [LEFT_CUBE, RIGHT_CUBE];
    assert NodeRegion(nodes[0]) == Region(Vec3(0, 0, 0), Vec3(0, 0, 0));
    assert NodeRegion(nodes[1]) == Region(Vec3(1, 0, 0), Vec3(1, 0, 0));
    assert !NeedsSplit(UNIT, nodes);
  }
}
