/**
 * The small lookups of the format layer that fall back to a default: node properties,
 * the thumbnail hook and the embedded screenshot of a format that has none.  A missing
 * node or image is None.
 */
module FormatProperties {
  import opened Wrappers
  import opened Scenes

  /** The property `name` of the node, or `defaultVal` when there is no node or it lacks the key. */
  function StringProperty(node: Option<Node>, name: string, defaultVal: string): (r: string)
    ensures node.None? || name !in node.value.properties ==> r == defaultVal
    ensures node.Some? && name in node.value.properties ==> r == node.value.properties[name]
  {
    match node
    case None => defaultVal
    case Some(n) => if name in n.properties then n.properties[name] else defaultVal
  }

  /** A node holds the property when it exists and has the key. */
  predicate HasProperty(node: Option<Node>, name: string) {
    node.Some? && name in node.value.properties
  }

  /** The property read as a boolean by `toBool`, or `defaultVal` when there is no node or it lacks the key. */
  function BoolProperty(node: Option<Node>, name: string, defaultVal: bool, toBool: string -> bool): (r: bool)
    ensures !HasProperty(node, name) ==> r == defaultVal
    ensures HasProperty(node, name) ==> r == toBool(node.value.properties[name])
  {
    if node.None? then defaultVal
    else if name !in node.value.properties then defaultVal
    else toBool(node.value.properties[name])
  }

  /** A boolean property is its string property parsed, whatever string default that lookup is given. */
  lemma BoolPropertyIsParsedString(node: Option<Node>, name: string, defaultVal: bool, toBool: string -> bool, anyDefault: string)
    ensures BoolProperty(node, name, defaultVal, toBool)
         == if HasProperty(node, name) then toBool(StringProperty(node, name, anyDefault)) else defaultVal
  {
  }

  /** Both lookups agree on which nodes fall back: the string one returns its default exactly when the boolean one does, for every default. */
  lemma FallbackAgrees(node: Option<Node>, name: string, s1: string, s2: string)
    requires s1 != s2
    ensures StringProperty(node, name, s1) == s1 && StringProperty(node, name, s2) == s2 <==> !HasProperty(node, name)
  {
  }

  /** The thumbnail of the scene from `creator`, or no image when no creator is given. */
  function CreateThumbnail<Context, Image>(nodes: seq<Node>, creator: Option<(seq<Node>, Context) -> Option<Image>>, ctx: Context)
    : (r: Option<Image>)
    ensures creator.None? ==> r.None?
    ensures creator.Some? ==> r == creator.value(nodes, ctx)
  {
    if creator.None? then None else creator.value(nodes, ctx)
  }

  /** `Format::loadScreenshot`: a format without embedded screenshots returns no image, whatever the file. */
  function BaseLoadScreenshot<Image>(filename: string, pos: int): (r: Option<Image>)
    ensures r.None?
  {
    None
  }
}
