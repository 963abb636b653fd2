/**
 * Loading a scene graph: the palette probe that RGBA formats run before decoding,
 * with the stream cursor saved and restored around it, and the palette formats whose
 * reader fills a palette as it adds nodes.  The codec readers are given as functions
 * of the cursor position they start at (the stream's contents being fixed) and of the palette they are handed.
 */
module FormatLoad {
  import opened Scenes

  /** A seekable read stream; the format layer only reads and moves its cursor. */
  class ReadStream {
    var pos: int

    constructor (start: int)
      ensures pos == start
    {
      pos := start;
    }

    method Seek(p: int)
      modifies this
      ensures pos == p
    {
      pos := p;
    }
  }

  /** What a palette probe reports: the colour count it returns, the palette it filled in, where it left the cursor. */
  datatype PaletteProbe = PaletteProbe(count: nat, palette: Palette, endPos: int)

  /** What an RGBA reader reports: success, the nodes it added to the graph, where it left the cursor. */
  datatype Decoded = Decoded(ok: bool, nodes: seq<Node>, endPos: int)

  /** What a palette reader reports: as Decoded, plus the palette it filled in. */
  datatype PaletteDecoded = PaletteDecoded(ok: bool, nodes: seq<Node>, palette: Palette, endPos: int)

  /** `Format::loadPalette`: reads nothing, leaves the given palette alone and reports no colour. */
  function BaseLoadPalette(pos: int, palette: Palette): (r: PaletteProbe)
    ensures r.count == 0
    ensures r.palette == palette && r.endPos == pos
  {
    PaletteProbe(0, palette, pos)
  }

  /**
   * What `PaletteFormat::loadPalette` reports when the caller's palette is `palette` and
   * the reader starts at `pos`: the palette as the reader left it (filled in, or the
   * caller's untouched) and its size, whether or not the reader succeeded.
   */
  function PaletteFormatProbe(loadGroupsPalette: (int, Palette) -> PaletteDecoded, pos: int, palette: Palette): (r: PaletteProbe)
    ensures r.count > 0 <==> r.palette.colors != []
    ensures r.palette == loadGroupsPalette(pos, palette).palette
  {
    var d := loadGroupsPalette(pos, palette);
    PaletteProbe(d.palette.Size(), d.palette, d.endPos)
  }

  /**
   * `PaletteFormat::loadPalette`: runs the format's reader on the caller's palette and a
   * scratch graph that is then dropped, and reports the size of the palette afterwards.
   */
  method PaletteFormatLoadPalette(stream: ReadStream, palette: Palette, loadGroupsPalette: (int, Palette) -> PaletteDecoded)
    returns (count: nat, filled: Palette)
    modifies stream
    ensures PaletteProbe(count, filled, stream.pos) == PaletteFormatProbe(loadGroupsPalette, old(stream.pos), palette)
  {
    var sceneGraph := new SceneGraph();
    var r := loadGroupsPalette(stream.pos, palette);
    sceneGraph.EmplaceAll(r.nodes);
    stream.Seek(r.endPos);
    filled := r.palette;
    count := filled.Size();
  }

  /** A reader that leaves the caller's palette alone makes the count that palette's size, and the cursor where the reader left it. */
  lemma UntouchedPaletteCounted(loadGroupsPalette: (int, Palette) -> PaletteDecoded, pos: int, palette: Palette)
    requires loadGroupsPalette(pos, palette).palette == palette
    ensures PaletteFormatProbe(loadGroupsPalette, pos, palette).count == |palette.colors|
    ensures PaletteFormatProbe(loadGroupsPalette, pos, palette).endPos == loadGroupsPalette(pos, palette).endPos
  {
  }

  /** The palette an RGBA reader decodes against: the probe's when creation is on and it found colours, else the default. */
  function SelectedPalette(createPalette: bool, probe: PaletteProbe, defaultPalette: Palette): (r: Palette)
    ensures !createPalette || probe.count == 0 ==> r == defaultPalette
    ensures createPalette && probe.count > 0 ==> r == probe.palette
  {
    if createPalette && probe.count > 0 then probe.palette else defaultPalette
  }

  /**
   * `RGBAFormat::loadGroups`.  With palette creation on, the cursor is saved, the
   * format's palette probe runs, and the cursor is restored; the default palette
   * replaces a probe that found no colour.  The reader then starts at the entry
   * position (`decodedAt`) with that palette (`usedPalette`); the transforms are
   * recomputed only when it succeeds.
   */
  method RgbaLoadGroups(stream: ReadStream, graph: SceneGraph, createPalette: bool, defaultPalette: Palette,
                        loadPalette: (int, Palette) -> PaletteProbe, loadGroupsRgba: (int, Palette) -> Decoded)
    returns (ok: bool, decodedAt: int, usedPalette: Palette)
    modifies stream, graph
    ensures decodedAt == old(stream.pos)
    ensures usedPalette == SelectedPalette(createPalette, loadPalette(old(stream.pos), EMPTY_PALETTE), defaultPalette)
    ensures ok == loadGroupsRgba(decodedAt, usedPalette).ok
    ensures stream.pos == loadGroupsRgba(decodedAt, usedPalette).endPos
    ensures graph.nodes == old(graph.nodes) + loadGroupsRgba(decodedAt, usedPalette).nodes
    ensures graph.transformUpdates == old(graph.transformUpdates) + (if ok then 1 else 0)
  {
    var palette := EMPTY_PALETTE;
    if createPalette {
      var resetToPos := stream.pos;
      var probe := loadPalette(stream.pos, palette);
      stream.Seek(probe.endPos);
      palette := probe.palette;
      if probe.count <= 0 {
        palette := defaultPalette;
      }
      stream.Seek(resetToPos);
    } else {
      palette := defaultPalette;
    }
    decodedAt, usedPalette := stream.pos, palette;
    var r := loadGroupsRgba(stream.pos, palette);
    graph.EmplaceAll(r.nodes);
    stream.Seek(r.endPos);
    if !r.ok {
      return false, decodedAt, usedPalette;
    }
    graph.UpdateTransforms();
    ok := true;
  }

  /** A format that keeps the base palette probe always decodes against the default palette. */
  lemma BaseProbeSelectsDefault(createPalette: bool, pos: int, defaultPalette: Palette)
    ensures SelectedPalette(createPalette, BaseLoadPalette(pos, EMPTY_PALETTE), defaultPalette) == defaultPalette
  {
  }

  /**
   * `PaletteFormat::loadGroups`: runs the reader with a fresh, empty palette; on success the
   * transforms are recomputed, on failure nothing more happens and false is returned.
   */
  method PaletteLoadGroups(stream: ReadStream, graph: SceneGraph, loadGroupsPalette: (int, Palette) -> PaletteDecoded)
    returns (ok: bool)
    modifies stream, graph
    ensures ok == loadGroupsPalette(old(stream.pos), EMPTY_PALETTE).ok
    ensures stream.pos == loadGroupsPalette(old(stream.pos), EMPTY_PALETTE).endPos
    ensures graph.nodes == old(graph.nodes) + loadGroupsPalette(old(stream.pos), EMPTY_PALETTE).nodes
    ensures graph.transformUpdates == old(graph.transformUpdates) + (if ok then 1 else 0)
  {
    var palette := EMPTY_PALETTE;
    var r := loadGroupsPalette(stream.pos, palette);
    graph.EmplaceAll(r.nodes);
    stream.Seek(r.endPos);
    if !r.ok {
      return false;
    }
    graph.UpdateTransforms();
    ok := true;
  }
}
