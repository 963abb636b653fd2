# Voxel format layer: save/load orchestration and format descriptions

This project models the format-agnostic part of a voxel engine's file-format layer
and proves properties of it:

- saving a scene graph: the default maximum volume size, the scan for a node that
  exceeds the format's limit, refusing a split on a single-volume format, merging
  into one node, splitting into chunk-sized nodes, or handing the graph to the
  codec's writer unchanged;
- splitting the nodes of one scene graph into another, node by node, with a
  cooperative stop signal;
- aligning a region's corners to chunk cells with the mask `coord & ~(size - 1)`,
  which is exact on two's-complement integers and leaves both final corners in the
  32-bit range (the sum it passes through on the way to the upper corner does not, in
  the top cell of the range);
- the emptiness test of one chunk-sized block;
- loading: the palette probe of RGBA formats, with the stream cursor saved and
  restored around it, and the palette formats whose reader fills a palette;
- the property lookups with defaults, the thumbnail hook and the base screenshot;
- the format-description value type: validity, the asymmetric equality operator,
  extension matching by lower-cased containment, the extension bound and the flag bits,
  and the emptiness of a file description.

Files:

| file | module | content |
|---|---|---|
| wrappers.dfy | Wrappers | the Option datatype |
| bits.dfy | Bits | two's-complement `&` and `~` on unbounded integers, powers of two, the rounding lemma |
| regions.dfy | Regions | vectors, regions, validity, dimensions, "fits within" |
| scene_graph.dfy | Scenes | palettes, volumes, nodes, the collaborators, and the SceneGraph class |
| chunk_alignment.dfy | ChunkAlignment | `calcMinsMaxs` and `isEmptyBlock` |
| volume_splitting.dfy | VolumeSplitting | `splitVolumes` and its specification |
| format_save.dfy | FormatSave | `maxSize` and `save` |
| format_load.dfy | FormatLoad | the read stream, `loadPalette` (both versions) and `loadGroups` (both versions) |
| format_properties.dfy | FormatProperties | `stringProperty`, `boolProperty`, `createThumbnail` and `loadScreenshot` |
| format_description.dfy | FormatDescriptions | `FormatDescription`, `FileDescription` |

Modelling choices:

- A scene graph is a `SceneGraph` object. It holds a sequence of nodes and a count
  of how often its transforms were recomputed.
- A node has a name, a volume (its region and voxels), a palette and string properties.
- The scene-graph and volume operations that these files only call are fields of the
  `Collaborators` value: `splitVolume`, `cropVolume`, `copyNode` and `merge`.
- `voxelutil::isEmpty`, the codec readers and writers, `toBool` and the thumbnail
  creator are function parameters.
- Every statement holds for any such function. Where a statement needs one of them to
  behave (a splitter that honours the positive size it is asked for, say), that behaviour is a
  precondition, stated as a predicate.
- The application's stop request is an oracle `stop: nat -> bool`. Poll `i` is the
  one made before node `i`.
- The configuration switches and the
  format's `maxSize()` are parameters.
  - `singleVolume` stands for the boolean value of the merge setting (Format.cpp:145).
  - `createPalette` stands for whatever `core::Var::get(cfg::VoxelCreatePalette)` yields
    when used as a condition (Format.cpp:225). Unlike line 145, this read does not call
    `boolVal()`, so it may test whether the variable exists rather than its value. Var.h
    is not part of this model, and every statement here holds for either reading.
- A read stream is a `ReadStream` object holding its cursor. A reader is a function of
  the position it starts at and of the palette it is handed by reference. It reports
  the palette as it leaves it and where it leaves the cursor.
- Coordinates are unbounded integers. `BitAnd` and `BitNot` are the two's-complement
  operators: on values that fit 32 bits they agree with C++'s `&` and `~` on `int`.
  The 32-bit range is proved separately. Both final corners of `calcMinsMaxs` are
  32-bit values. The upper corner is evaluated from the left, `((upper & ~(m - 1)) + m) - 1`,
  and its partial sum overflows exactly when `upper >= 2^31 - m`; see `ChunkAlignment.TopCellSumInInt32`.

Region.h, SceneGraph.h, SceneGraphNode.h, VolumeSplitter.h and VolumeCropper.h are not
part of this model. These definitions follow how the code uses them:

- a region is valid when lower ≤ upper on every axis;
- a region spans `upper - lower + 1` voxels on an axis;
- a node's region is its volume's region.

`save` checks each node against the limit on its own. It never checks the merged
result. So a single-volume format whose limit is one voxel merges and saves two unit
nodes whose union spans two voxels. The model follows the code here (see
`FormatSave.SaveIgnoresMergedSize`).

## Model

| member | source | states |
|---|---|---|
| Bits.MaskRoundsDown | src/modules/voxelformat/Format.cpp:111-118 | for a power of two m, `x & ~(m - 1)` is m times the floor of x / m, negative x included |
| Bits.PowerOfTwoDivides | src/modules/voxelformat/Format.cpp:111-118 | a power of two divides every larger one (used to keep masked corners inside 32 bits) |
| ChunkAlignment.AlignDownIsFloor | src/modules/voxelformat/Format.cpp:111-113 | the masked coordinate is a multiple of m, at most x, and more than x - m |
| ChunkAlignment.AxisCovers | src/modules/voxelformat/Format.cpp:109-118 | on one axis, `mins` is a multiple of m with mins ≤ lower < mins + m, and `maxs + 1` is a multiple of m with maxs - m < upper ≤ maxs |
| ChunkAlignment.AlignDown | src/modules/voxelformat/Format.cpp:111-118 | the mask `x & ~(m - 1)` as the two's-complement operators on all integers, agreeing with C++ `int` on 32-bit values; its properties are AlignDownIsFloor's |
| ChunkAlignment.AxisInInt32 | src/modules/voxelformat/Format.cpp:109-118 | with 32-bit corners and a power of two up to 2^30, the final `mins` and `maxs` values stay in the 32-bit range |
| ChunkAlignment.TopCellSumInInt32 | src/modules/voxelformat/Format.cpp:116-118 | the partial sum `(upper & ~(m - 1)) + m` is a 32-bit value exactly when upper < 2^31 - m |
| ChunkAlignment.TopCellOverflowExample | src/modules/voxelformat/Format.cpp:116 | for upper = INT32_MAX and m = 16 the partial sum is 2^31, outside the 32-bit range |
| ChunkAlignment.CalcMinsMaxs | src/modules/voxelformat/Format.cpp:109-123 | on every power-of-two axis, the out-parameters are the enclosing cell's corners, and `mins` is m times floor(lower / m); on 32-bit input both final corners are 32-bit values |
| ChunkAlignment.AlignmentExample | src/modules/voxelformat/Format.cpp:111-113 | lower corner (5, 20, -3) with cells of 16 gives mins (0, 16, -16) |
| ChunkAlignment.NonPowerOfTwoMisaligns | src/modules/voxelformat/Format.cpp:111 | with a cell size of 3 the mask leaves 5 unchanged, which is not a multiple of 3: the power-of-two requirement is necessary |
| ChunkAlignment.BlockRegion | src/modules/voxelformat/Format.cpp:105 | the block has lower corner (x, y, z) and exactly maxSize voxels on each axis, and is valid when maxSize is positive |
| ChunkAlignment.IsEmptyBlock | src/modules/voxelformat/Format.cpp:104-107 | asks the emptiness test about the one region anchored at (x, y, z) with dimensions maxSize |
| Scenes.SceneGraph.Emplace | src/modules/voxelformat/Format.cpp:83 | appends one node at the end; nothing else changes |
| Scenes.SceneGraph.EmplaceAll | src/modules/voxelformat/Format.cpp:131 | appends the nodes a reader adds, in order; the transform count is unchanged |
| Scenes.SceneGraph.UpdateTransforms | src/modules/voxelformat/Format.cpp:200 | records one transform update; the nodes are unchanged |
| VolumeSplitting.SplitNode | src/modules/voxelformat/Format.cpp:75-100 | one node's output: nothing for an invalid region, its copy with volume when it fits, otherwise one copied node per sub-volume (cropped on request); its properties are NodeByNode's |
| VolumeSplitting.SplitAll | src/modules/voxelformat/Format.cpp:71-101 | the outputs of the nodes concatenated in order; its properties are SplitAllAppend's, InvalidNodesIgnored's, FittingGraphCopied's and SplitOutputFits' |
| VolumeSplitting.FirstStop | src/modules/voxelformat/Format.cpp:71-74 | the index of the poll that ends the walk over n nodes, between `from` and n |
| VolumeSplitting.FirstStopIsFirst | src/modules/voxelformat/Format.cpp:71-74 | no poll before FirstStop asks to stop, and the poll at FirstStop does unless the walk ran to the end |
| VolumeSplitting.SplitVolumes | src/modules/voxelformat/Format.cpp:69-102 | the destination gains exactly the split of the source nodes before the first stop request, in order; the source and the transform count are unchanged |
| VolumeSplitting.EmplaceSplitNode | src/modules/voxelformat/Format.cpp:75-100 | one node's contribution: nothing for an invalid region, one copy with its volume when it fits, otherwise one node per sub-volume |
| VolumeSplitting.EmplaceSubVolumes | src/modules/voxelformat/Format.cpp:90-100 | appends one copied node per sub-volume, in the splitter's order, with the volume cropped when asked |
| VolumeSplitting.SplitAllAppend | src/modules/voxelformat/Format.cpp:71-101 | the walk over a concatenation is the walk over each part in turn |
| VolumeSplitting.NodeByNode | src/modules/voxelformat/Format.cpp:75-100 | node i contributes between the nodes before and after it: nothing if invalid, exactly one copy if it fits, as many nodes as sub-volumes otherwise |
| VolumeSplitting.InvalidNodesIgnored | src/modules/voxelformat/Format.cpp:76-79 | removing the nodes with an invalid region does not change the result |
| VolumeSplitting.FittingGraphCopied | src/modules/voxelformat/Format.cpp:80-86 | when every node is valid and fits, the result is a one-for-one copy of the graph, in order |
| VolumeSplitting.SplitOutputFits | src/modules/voxelformat/Format.cpp:80-100 | under a limit positive on every axis, given a splitter that respects positive sizes, region-keeping copies and (when cropping) a shrinking crop, every produced node fits maxSize |
| FormatSave.BaseMaxSize | src/modules/voxelformat/Format.cpp:140-142 | the default limit is negative on every axis, so not positive |
| FormatSave.NeedsSplit | src/modules/voxelformat/Format.cpp:149-162 | the limit is positive on all three axes and some node's dimensions exceed it on at least one axis; Save's scan loop is proved to compute it |
| FormatSave.GraphToSave | src/modules/voxelformat/Format.cpp:148-185 | the writer is skipped exactly when a split is needed on a single-volume format |
| FormatSave.Save | src/modules/voxelformat/Format.cpp:148-185 | the scan decides "needs split" exactly when the limit is positive and some node exceeds it on some axis; the writer receives the graph GraphToSave names, and the result is its verdict, or false when refused |
| FormatSave.DefaultMaxSizeNeverSplits | src/modules/voxelformat/Format.cpp:140-162 | with the default limit no split is ever needed: the graph is saved unchanged, or merged on a single-volume format |
| FormatSave.UnsplitGraphSavedAsIs | src/modules/voxelformat/Format.cpp:148-184 | whenever no split is needed (every node fits, or the limit is not positive on every axis), a multi-volume format saves the original graph and a single-volume one its merge |
| FormatSave.SingleVolumeSavesOneNode | src/modules/voxelformat/Format.cpp:169-177 | without a needed split, a single-volume format hands the writer exactly one node holding the merged volume and palette |
| FormatSave.SplitSavesWalkedNodes | src/modules/voxelformat/Format.cpp:179-183 | a needed split on a multi-volume format hands the writer the uncropped split result; the split of the first k nodes is a prefix of what the writer receives whenever no poll before them asked to stop |
| FormatSave.SplitPrefix | src/modules/voxelformat/Format.cpp:71-101 | the split of a prefix of the nodes is a prefix of the split of all of them |
| FormatSave.SavedGraphFits | src/modules/voxelformat/Format.cpp:148-185 | under a positive limit, a splitter that respects positive sizes and region-keeping copy, every node a multi-volume format hands the writer fits the limit |
| FormatSave.SaveIgnoresMergedSize | src/modules/voxelformat/Format.cpp:150-164 | two unit nodes whose union spans two voxels are merged and saved on a single-volume format with a one-voxel limit |
| FormatLoad.ReadStream.Seek | src/modules/voxelformat/Format.cpp:231 | the cursor is at the given position |
| FormatLoad.BaseLoadPalette | src/modules/voxelformat/Format.cpp:125-127 | the base probe reports 0 colours, leaves the palette alone and reads nothing |
| FormatLoad.PaletteFormatProbe | src/modules/voxelformat/Format.cpp:129-133 | starting from the caller's palette, the reported count is positive exactly when the palette the reader leaves has some colour, whatever the reader's verdict |
| FormatLoad.PaletteFormatLoadPalette | src/modules/voxelformat/Format.cpp:129-133 | hands the caller's palette to the reader and returns the palette the reader leaves and its size; the cursor is where the reader left it |
| FormatLoad.UntouchedPaletteCounted | src/modules/voxelformat/Format.cpp:129-132 | a reader that leaves the caller's palette alone makes the count that palette's size |
| FormatLoad.SelectedPalette | src/modules/voxelformat/Format.cpp:224-234 | the default palette whenever creation is off or the probe reported 0, and the probe's palette when creation is on and the probe reported colours |
| FormatLoad.RgbaLoadGroups | src/modules/voxelformat/Format.cpp:223-240 | the reader starts at the entry position whatever the probe did, with the selected palette; the result is the reader's verdict; the transforms are updated exactly once on success and never on failure |
| FormatLoad.BaseProbeSelectsDefault | src/modules/voxelformat/Format.cpp:125-127 | with the base probe, the default palette is always used |
| FormatLoad.PaletteLoadGroups | src/modules/voxelformat/Format.cpp:195-202 | the reader gets a fresh, empty palette; the result is the reader's verdict; the transforms are updated once on success and never on failure |
| FormatProperties.StringProperty | src/modules/voxelformat/Format.cpp:30-38 | the default when the node is missing or lacks the key, else the stored value |
| FormatProperties.BoolProperty | src/modules/voxelformat/Format.cpp:40-48 | the default when the node is missing or lacks the key, else the stored value parsed |
| FormatProperties.BoolPropertyIsParsedString | src/modules/voxelformat/Format.cpp:30-48 | the boolean lookup is the string lookup parsed, on the nodes that hold the key |
| FormatProperties.FallbackAgrees | src/modules/voxelformat/Format.cpp:30-38 | the string lookup returns each of two different defaults exactly when the node lacks the property |
| FormatProperties.CreateThumbnail | src/modules/voxelformat/Format.cpp:60-66 | no image without a creator, else the creator's image for the graph |
| FormatProperties.BaseLoadScreenshot | src/modules/voxelformat/Format.cpp:135-138 | no image, for every file |
| FormatDescriptions.FlagsAreDistinctBits | src/modules/io/FormatDescription.h:17-22 | each flag is a single bit, and no two flags share a bit |
| FormatDescriptions.ExtensionsBounded | src/modules/io/FormatDescription.h:14-15 | a description holds at most 8 extensions |
| FormatDescriptions.ToLower | src/modules/io/FormatDescription.h:51-52 | same length, no upper-case letter, each character lower-cased |
| FormatDescriptions.ToLowerIdempotent | src/modules/io/FormatDescription.h:51-52 | lower-casing twice is lower-casing once |
| FormatDescriptions.ContainsExtension | src/modules/io/FormatDescription.h:50 | true exactly when the extension is in the list |
| FormatDescriptions.MatchesExtension | src/modules/io/FormatDescription.h:26 | true exactly when the lower-cased argument is one of the stored extensions |
| FormatDescriptions.CaseVariantsMatch | src/modules/io/FormatDescription.h:49-54 | with lower-case extensions stored, every case variant of a stored extension matches |
| FormatDescriptions.UpperCaseExtensionNeverMatched | src/modules/io/FormatDescription.h:26 | a stored extension that breaks the lower-case rule is never matched |
| FormatDescriptions.Valid | src/modules/io/FormatDescription.h:30-32 | `valid()`: the name is non-empty |
| FormatDescriptions.ValidIffNamed | src/modules/io/FormatDescription.h:30-32 | valid exactly when the name is non-empty; the empty description is invalid and ALL_SUPPORTED valid |
| FormatDescriptions.Equals | src/modules/io/FormatDescription.h:35-43 | `operator==` with `a` on the left; its properties are the Equals lemmas below |
| FormatDescriptions.EqualsByName | src/modules/io/FormatDescription.h:35-43 | for two named descriptions, equality is name equality (and so symmetric) |
| FormatDescriptions.EqualsWithoutExtensions | src/modules/io/FormatDescription.h:36-39 | with an unnamed side, a right-hand side without extensions equals nothing |
| FormatDescriptions.EqualsByFirstExtension | src/modules/io/FormatDescription.h:36-40 | with an unnamed side, equality is whether the left side matches the right side's first extension |
| FormatDescriptions.EqualsNotSymmetric | src/modules/io/FormatDescription.h:35-43 | an unnamed "vox" entry is not equal to Qubicle (qb, vox), yet Qubicle is equal to it |
| FormatDescriptions.EqualsIgnoresLaterExtensions | src/modules/io/FormatDescription.h:40 | a matching second extension on the right-hand side does not make the two equal |
| FormatDescriptions.EqualsReflexivity | src/modules/io/FormatDescription.h:35-43 | equality holds on a valid description, or a well-formed one with an extension; it fails on an unnamed one without extensions |
| FormatDescriptions.AllSupportedEquality | src/modules/io/FormatDescription.h:74 | nothing unnamed equals ALL_SUPPORTED; a named description equals it exactly when named "All supported" |
| FormatDescriptions.Empty | src/modules/io/FormatDescription.h:65-67 | `FileDescription::empty()`: the name is empty |
| FormatDescriptions.EmptyIgnoresFormat | src/modules/io/FormatDescription.h:65-67 | a file description is empty exactly when its name is empty, whatever its format |

## Left out

- `floatProperty` (Format.cpp:50-58): it parses a float, and floating point is not modelled.
- `flattenRGB` and the constructor that reads the flatten factor (Format.cpp:211-221): they forward to a colour routine that is not part of this model.
- `Format::load` (Format.cpp:187-189): it only forwards to `loadGroups`.
- `PaletteFormat::save` (Format.cpp:204-209): its palette reduction is an empty TODO, so it forwards to `save` unchanged.
- `stopExecution` and `singleVolume` (Format.cpp:144-146, 191-193): they read the application and the configuration. They are parameters here. Both calls to `singleVolume()` in `save` read the same value.
- The declared-only members of FormatDescription.h (`operator<`, `wildCard`, the pattern functions, `FileDescription::set/clear`): their bodies are not part of this model.
- `isA` is an optional, uninterpreted magic-byte predicate.
- FormatDescriptions.MatchesExtension: its body is not part of this model. It follows its documentation, and lower-casing covers the ASCII letters only.
- ChunkAlignment.CalcMinsMaxs: computes in unbounded integers. It states the range of the final corners only. In the top cell of the 32-bit range, the source's partial sum `(upper & ~(m - 1)) + m` overflows, which C++ leaves undefined (ChunkAlignment.TopCellSumInInt32 states exactly when).
- Logging, image pointers, `reserve`, and the ownership and `delete` of volumes (Format.cpp:70, 93-98) are not modelled.
- The node hierarchy, node types and ids are not modelled. Neither is the bounded capacity of the merged graph (Format.cpp:171).
- FormatLoad.RgbaLoadGroups: the palette probe's effect on the stream is modelled as a position only, not as bytes read.
- The write stream, file names and load/save contexts are passed through unchanged in the source. They do not appear in the model.
