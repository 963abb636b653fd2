/**
 * Splitting a scene graph so that every volume fits a format's maximum size.  The
 * source graph is walked node by node: a stop request ends the walk, a node with
 * an invalid region is skipped, a node that fits is copied whole, and any other
 * node becomes one new node per sub-volume of the splitter (each cropped on
 * request).  The new nodes are appended to the destination graph.
 */
module VolumeSplitting {
  import opened Regions
  import opened Scenes

  /** The node made for one sub-volume: the source node's attributes without its volume, then the sub-volume. */
  function SubVolumeNode(n: Node, v: Volume, crop: bool, c: Collaborators): Node {
    c.copyNode(n, false).(volume := if crop then c.cropVolume(v) else v)
  }

  function SubVolumeNodes(n: Node, vs: seq<Volume>, crop: bool, c: Collaborators): seq<Node> {
    seq(|vs|, i requires 0 <= i < |vs| => SubVolumeNode(n, vs[i], crop, c))
  }

  /** The nodes one source node adds to the destination graph. */
  function SplitNode(n: Node, maxSize: Vec3, crop: bool, c: Collaborators): seq<Node> {
    if !IsValid(NodeRegion(n)) then []
    else if FitsWithin(NodeRegion(n), maxSize) then [c.copyNode(n, true)]
    else SubVolumeNodes(n, c.splitVolume(n.volume, maxSize), crop, c)
  }

  /** The nodes a whole walk over `nodes` adds, in walking order. */
  function SplitAll(nodes: seq<Node>, maxSize: Vec3, crop: bool, c: Collaborators): seq<Node> {
    if nodes == [] then []
    else SplitAll(nodes[..|nodes| - 1], maxSize, crop, c) + SplitNode(nodes[|nodes| - 1], maxSize, crop, c)
  }

  /** The first poll, at or after `from`, that asks the walk over n nodes to stop; n when none does. */
  function FirstStop(stop: nat -> bool, from: nat, n: nat): (k: nat)
    requires from <= n
    ensures from <= k <= n
    decreases n - from
  {
    if from == n then n
    else if stop(from) then from
    else FirstStop(stop, from + 1, n)
  }

  /** No poll before FirstStop asks to stop, and the poll at FirstStop does (unless the walk ran to the end). */
  lemma {:induction false} FirstStopIsFirst(stop: nat -> bool, from: nat, n: nat)
    requires from <= n
    ensures forall j :: from <= j < FirstStop(stop, from, n) ==> !stop(j)
    ensures FirstStop(stop, from, n) < n ==> stop(FirstStop(stop, from, n))
    decreases n - from
  {
    if from < n && !stop(from) {
      FirstStopIsFirst(stop, from + 1, n);
    }
  }

  /**
   * Appends the split form of `src` to `dest`.  Poll `i` of `stop` is the stop request
   * seen before node `i`; the nodes from the first request on are not walked.
   */
  method SplitVolumes(src: SceneGraph, dest: SceneGraph, maxSize: Vec3, crop: bool, c: Collaborators, stop: nat -> bool)
    requires src != dest
    modifies dest
    ensures src.nodes == old(src.nodes)
    ensures dest.nodes == old(dest.nodes) + SplitAll(src.nodes[..FirstStop(stop, 0, |src.nodes|)], maxSize, crop, c)
    ensures dest.transformUpdates == old(dest.transformUpdates)
  {
    ghost var start := dest.nodes;
    var nodes := src.nodes;
    ghost var last := FirstStop(stop, 0, |nodes|);
    var i := 0;
    while i < |nodes| && !stop(i)
      invariant 0 <= i <= |nodes|
      invariant FirstStop(stop, i, |nodes|) == last
      invariant dest.nodes == start + SplitAll(nodes[..i], maxSize, crop, c)
      invariant dest.transformUpdates == old(dest.transformUpdates)
    {
      WalkOneMore(nodes, i, maxSize, crop, c);
      AppendAssoc(start, SplitAll(nodes[..i], maxSize, crop, c), SplitNode(nodes[i], maxSize, crop, c));
      EmplaceSplitNode(dest, nodes[i], maxSize, crop, c);
      i := i + 1;
    }
  }

  lemma AppendAssoc<T>(a: seq<T>, b: seq<T>, d: seq<T>)
    ensures (a + b) + d == a + (b + d)
  {
  }

  /** The body of the walk for one node: skip it, copy it whole, or append its split parts. */
  method EmplaceSplitNode(dest: SceneGraph, node: Node, maxSize: Vec3, crop: bool, c: Collaborators)
    modifies dest
    ensures dest.nodes == old(dest.nodes) + SplitNode(node, maxSize, crop, c)
    ensures dest.transformUpdates == old(dest.transformUpdates)
  {
    var region := NodeRegion(node);
    if !IsValid(region) {
      return;
    }
    if FitsWithin(region, maxSize) {
      dest.Emplace(c.copyNode(node, true));
      return;
    }
    var rawVolumes := c.splitVolume(node.volume, maxSize);
    EmplaceSubVolumes(dest, node, rawVolumes, crop, c);
  }

  /** The inner loop of the walk: one new node per sub-volume, cropped on request, appended in order. */
  method EmplaceSubVolumes(dest: SceneGraph, node: Node, rawVolumes: seq<Volume>, crop: bool, c: Collaborators)
    modifies dest
    ensures dest.nodes == old(dest.nodes) + SubVolumeNodes(node, rawVolumes, crop, c)
    ensures dest.transformUpdates == old(dest.transformUpdates)
  {
    var j := 0;
    while j < |rawVolumes|
      invariant 0 <= j <= |rawVolumes|
      invariant dest.nodes == old(dest.nodes) + SubVolumeNodes(node, rawVolumes[..j], crop, c)
      invariant dest.transformUpdates == old(dest.transformUpdates)
    {
      var v := rawVolumes[j];
      if crop {
        v := c.cropVolume(v);
      }
      var newNode := c.copyNode(node, false);
      newNode := newNode.(volume := v);
      SubVolumeNodesOneMore(node, rawVolumes, j, crop, c);
      dest.Emplace(newNode);
      j := j + 1;
    }
    assert rawVolumes[..j] == rawVolumes;
  }

  lemma SubVolumeNodesOneMore(n: Node, vs: seq<Volume>, j: nat, crop: bool, c: Collaborators)
    requires j < |vs|
    ensures SubVolumeNodes(n, vs[..j + 1], crop, c)
         == SubVolumeNodes(n, vs[..j], crop, c) + [c.copyNode(n, false).(volume := if crop then c.cropVolume(vs[j]) else vs[j])]
  {
  }

  lemma WalkOneMore(nodes: seq<Node>, i: nat, maxSize: Vec3, crop: bool, c: Collaborators)
    requires i < |nodes|
    ensures SplitAll(nodes[..i + 1], maxSize, crop, c) == SplitAll(nodes[..i], maxSize, crop, c) + SplitNode(nodes[i], maxSize, crop, c)
  {
    assert nodes[..i + 1][..i] == nodes[..i];
  }

  // ---------------------------------------------------------------------------
  // What the walk produces

  /** The walk over a concatenation is the walk over each part in turn. */
  lemma {:induction false} SplitAllAppend(a: seq<Node>, b: seq<Node>, maxSize: Vec3, crop: bool, c: Collaborators)
    ensures SplitAll(a + b, maxSize, crop, c) == SplitAll(a, maxSize, crop, c) + SplitAll(b, maxSize, crop, c)
    decreases |b|
  {
    if b == [] {
      assert a + b == a;
    } else {
      var b' := b[..|b| - 1];
      assert (a + b)[..|a + b| - 1] == a + b';
      SplitAllAppend(a, b', maxSize, crop, c);
      AppendAssoc(SplitAll(a, maxSize, crop, c), SplitAll(b', maxSize, crop, c), SplitNode(b[|b| - 1], maxSize, crop, c));
    }
  }

  /**
   * Node by node: node `i` contributes nothing when its region is invalid, exactly
   * one copy (with its volume) when it fits, and one node per sub-volume otherwise,
   * placed between the contributions of the nodes before and after it.
   */
  lemma NodeByNode(nodes: seq<Node>, i: nat, maxSize: Vec3, crop: bool, c: Collaborators)
    requires i < |nodes|
    ensures SplitAll(nodes, maxSize, crop, c)
         == SplitAll(nodes[..i], maxSize, crop, c) + SplitNode(nodes[i], maxSize, crop, c) + SplitAll(nodes[i + 1..], maxSize, crop, c)
    ensures !IsValid(NodeRegion(nodes[i])) ==> SplitNode(nodes[i], maxSize, crop, c) == []
    ensures IsValid(NodeRegion(nodes[i])) && FitsWithin(NodeRegion(nodes[i]), maxSize) ==>
      SplitNode(nodes[i], maxSize, crop, c) == [c.copyNode(nodes[i], true)]
    ensures IsValid(NodeRegion(nodes[i])) && !FitsWithin(NodeRegion(nodes[i]), maxSize) ==>
      |SplitNode(nodes[i], maxSize, crop, c)| == |c.splitVolume(nodes[i].volume, maxSize)|
  {
    assert nodes == nodes[..i] + [nodes[i]] + nodes[i + 1..];
    SplitAllAppend(nodes[..i] + [nodes[i]], nodes[i + 1..], maxSize, crop, c);
    SplitAllAppend(nodes[..i], [nodes[i]], maxSize, crop, c);
    assert SplitAll([nodes[i]], maxSize, crop, c) == SplitNode(nodes[i], maxSize, crop, c);
  }

  function ValidNodes(nodes: seq<Node>): (r: seq<Node>)
    ensures forall k :: 0 <= k < |r| ==> IsValid(NodeRegion(r[k]))
  {
    if nodes == [] then []
    else ValidNodes(nodes[..|nodes| - 1]) + (if IsValid(NodeRegion(nodes[|nodes| - 1])) then [nodes[|nodes| - 1]] else [])
  }

  /** Nodes with an invalid region add nothing: the walk sees only the valid ones. */
  lemma {:induction false} InvalidNodesIgnored(nodes: seq<Node>, maxSize: Vec3, crop: bool, c: Collaborators)
    ensures SplitAll(nodes, maxSize, crop, c) == SplitAll(ValidNodes(nodes), maxSize, crop, c)
    decreases |nodes|
  {
    if nodes != [] {
      var init, last := nodes[..|nodes| - 1], nodes[|nodes| - 1];
      InvalidNodesIgnored(init, maxSize, crop, c);
      if IsValid(NodeRegion(last)) {
        SplitAllAppend(ValidNodes(init), [last], maxSize, crop, c);
        assert SplitAll([last], maxSize, crop, c) == SplitNode(last, maxSize, crop, c);
      } else {
        assert ValidNodes(nodes) == ValidNodes(init);
      }
    }
  }

  /** When every node is valid and fits, the walk copies the graph one for one, in order. */
  lemma {:induction false} FittingGraphCopied(nodes: seq<Node>, maxSize: Vec3, crop: bool, c: Collaborators)
    requires forall k :: 0 <= k < |nodes| ==> IsValid(NodeRegion(nodes[k])) && FitsWithin(NodeRegion(nodes[k]), maxSize)
    ensures |SplitAll(nodes, maxSize, crop, c)| == |nodes|
    ensures forall k :: 0 <= k < |nodes| ==> SplitAll(nodes, maxSize, crop, c)[k] == c.copyNode(nodes[k], true)
    decreases |nodes|
  {
    if nodes != [] {
      FittingGraphCopied(nodes[..|nodes| - 1], maxSize, crop, c);
    }
  }

  /**
   * Given a positive maximum size, a splitter that honours it, a copy that keeps the
   * region and (when cropping) a crop that never grows a volume, every node the
   * walk produces fits the maximum size.
   */
  lemma {:induction false} SplitOutputFits(nodes: seq<Node>, maxSize: Vec3, crop: bool, c: Collaborators)
    requires AllPositive(maxSize)
    requires SplitterRespectsSize(c) && CopyKeepsRegion(c)
    requires crop ==> CropShrinks(c)
    ensures forall k :: 0 <= k < |SplitAll(nodes, maxSize, crop, c)| ==> FitsWithin(NodeRegion(SplitAll(nodes, maxSize, crop, c)[k]), maxSize)
    decreases |nodes|
  {
    if nodes != [] {
      var last := nodes[|nodes| - 1];
      SplitOutputFits(nodes[..|nodes| - 1], maxSize, crop, c);
      NodeOutputFits(last, maxSize, crop, c);
    }
  }

  lemma NodeOutputFits(n: Node, maxSize: Vec3, crop: bool, c: Collaborators)
    requires AllPositive(maxSize)
    requires SplitterRespectsSize(c) && CopyKeepsRegion(c)
    requires crop ==> CropShrinks(c)
    ensures forall k :: 0 <= k < |SplitNode(n, maxSize, crop, c)| ==> FitsWithin(NodeRegion(SplitNode(n, maxSize, crop, c)[k]), maxSize)
  {
    if IsValid(NodeRegion(n)) && !FitsWithin(NodeRegion(n), maxSize) {
      var vs := c.splitVolume(n.volume, maxSize);
      forall k | 0 <= k < |vs|
        ensures FitsWithin(NodeRegion(SubVolumeNode(n, vs[k], crop, c)), maxSize)
      {
        assert FitsWithin(vs[k].region, maxSize);
        if crop {
          assert AllLessEqual(Dimensions(c.cropVolume(vs[k]).region), Dimensions(vs[k].region));
        }
      }
    }
  }
}
