/**
 * The scene graph as the format layer sees it: an ordered sequence of nodes, each
 * owning a volume (with its region), a name, a palette and string properties.
 * The operations the format layer borrows from the scene-graph and volume code
 * (splitting, cropping, copying, merging) are given as function values, so that
 * every statement below holds for whatever those operations do.
 */
module Scenes {
  import opened Regions

  type Rgba = bv32

  datatype Palette = Palette(colors: seq<Rgba>) {
    function Size(): nat {
      |colors|
    }
  }

  const EMPTY_PALETTE: Palette := Palette([])

  /** A voxel buffer: the region of valid coordinates and the colour index of each set voxel. */
  datatype Volume = Volume(region: Region, voxels: map<Vec3, nat>)

  datatype Node = Node(name: string, volume: Volume, palette: Palette, properties: map<string, string>)

  function NodeRegion(n: Node): Region {
    n.volume.region
  }

  /** A freshly created model node holding only the given volume and palette. */
  function NewModelNode(v: Volume, p: Palette): Node {
    Node("", v, p, map[])
  }

  /** The scene-graph and volume operations the format layer calls but does not define. */
  datatype Collaborators = Collaborators(
    /** Cuts a volume into sub-volumes of at most the given size. */
    splitVolume: (Volume, Vec3) -> seq<Volume>,
    /** Shrinks a volume to the bounding box of its set voxels. */
    cropVolume: Volume -> Volume,
    /** Copies a node's attributes, and its volume when the flag is set. */
    copyNode: (Node, bool) -> Node,
    /** Merges all nodes into one volume and one palette. */
    merge: seq<Node> -> (Volume, Palette))

  /** Asked for a size that is positive on every axis, the splitter returns only sub-volumes that fit it. */
  ghost predicate SplitterRespectsSize(c: Collaborators) {
    forall v: Volume, m: Vec3, i: int :: AllPositive(m) && 0 <= i < |c.splitVolume(v, m)| ==> FitsWithin(c.splitVolume(v, m)[i].region, m)
  }

  /** Cropping never makes a volume larger on any axis. */
  ghost predicate CropShrinks(c: Collaborators) {
    forall v: Volume :: AllLessEqual(Dimensions(c.cropVolume(v).region), Dimensions(v.region))
  }

  /** A copy made with its volume has the region of the original. */
  ghost predicate CopyKeepsRegion(c: Collaborators) {
    forall n: Node :: NodeRegion(c.copyNode(n, true)) == NodeRegion(n)
  }

  /** A scene graph that operations fill in place: nodes are appended, transforms recomputed. */
  class SceneGraph {
    var nodes: seq<Node>
    /** How many times the world transforms of the nodes were recomputed. */
    var transformUpdates: nat

    constructor ()
      ensures nodes == [] && transformUpdates == 0
    {
      nodes := [];
      transformUpdates := 0;
    }

    method Emplace(node: Node)
      modifies this
      ensures nodes == old(nodes) + [node]
      ensures transformUpdates == old(transformUpdates)
    {
      nodes := nodes + [node];
    }

    /** The nodes a codec's reader adds, in the order it adds them. */
    method EmplaceAll(added: seq<Node>)
      modifies this
      ensures nodes == old(nodes) + added
      ensures transformUpdates == old(transformUpdates)
    {
      nodes := nodes + added;
    }

    method UpdateTransforms()
      modifies this
      ensures nodes == old(nodes)
      ensures transformUpdates == old(transformUpdates) + 1
    {
      transformUpdates := transformUpdates + 1;
    }
  }
}
