/**
 * The description of a file format: a display name, a bounded list of lower-case
 * file extensions, an optional magic-byte check and a flag mask.  An empty name
 * marks an invalid (sentinel) description, and equality falls back to comparing
 * extensions when a name is missing.
 */
module FormatDescriptions {
  import opened Wrappers

  /** Capacity of the fixed-size extension vector. */
  const MAX_FORMATDESCRIPTION_EXTENSIONS: nat := 8

  /** The extension vector never holds more than its capacity. */
  type Extensions = s: seq<string> | |s| <= MAX_FORMATDESCRIPTION_EXTENSIONS

  const FORMAT_FLAG_ALL: bv32 := 1 << 0
  const FORMAT_FLAG_GROUP: bv32 := 1 << 1
  const VOX_FORMAT_FLAG_SCREENSHOT_EMBEDDED: bv32 := 1 << 8
  const VOX_FORMAT_FLAG_PALETTE_EMBEDDED: bv32 := 1 << 9
  const VOX_FORMAT_FLAG_MESH: bv32 := 1 << 10

  const FLAGS: seq<bv32> := [FORMAT_FLAG_ALL, FORMAT_FLAG_GROUP, VOX_FORMAT_FLAG_SCREENSHOT_EMBEDDED,
                             VOX_FORMAT_FLAG_PALETTE_EMBEDDED, VOX_FORMAT_FLAG_MESH]

  /** Checks a 32-bit magic value read from the start of a file. */
  type MagicCheck = bv32 -> bool

  datatype FormatDescription = FormatDescription(
    name: string,
    exts: Extensions,
    isA: Option<MagicCheck>,
    flags: bv32)

  /** A default-constructed description: no name, no extensions, no magic check, no flags. */
  const EMPTY_DESCRIPTION: FormatDescription := FormatDescription("", [], None, 0)

  /** The "all supported" entry of file dialogs. */
  const ALL_SUPPORTED: FormatDescription := FormatDescription("All supported", [], None, FORMAT_FLAG_ALL)

  predicate SingleBit(f: bv32) {
    f != 0 && f & (f - 1) == 0
  }

  lemma FlagsAreDistinctBits()
    ensures forall i :: 0 <= i < |FLAGS| ==> SingleBit(FLAGS[i])
    ensures forall i, j :: 0 <= i < j < |FLAGS| ==> FLAGS[i] & FLAGS[j] == 0
  {
  }

  lemma ExtensionsBounded(d: FormatDescription)
    ensures |d.exts| <= 8
  {
  }

  // ---------------------------------------------------------------------------
  // Lower-casing (ASCII letters only, as a byte-wise lower-casing does)

  predicate IsUpperChar(c: char) {
    'A' <= c <= 'Z'
  }

  function ToLowerChar(c: char): (r: char)
    ensures !IsUpperChar(r)
    ensures IsUpperChar(c) ==> r as int == c as int + 32
    ensures !IsUpperChar(c) ==> r == c
  {
    if IsUpperChar(c) then (c as int + 32) as char else c
  }

  predicate IsLowerCase(s: string) {
    forall i :: 0 <= i < |s| ==> !IsUpperChar(s[i])
  }

  function ToLower(s: string): (r: string)
    ensures |r| == |s|
    ensures IsLowerCase(r)
    ensures forall i :: 0 <= i < |s| ==> r[i] == ToLowerChar(s[i])
  {
    if s == [] then [] else [ToLowerChar(s[0])] + ToLower(s[1..])
  }

  /** Lower-casing leaves an already lower-case string as it is. */
  lemma {:induction false} LowerCaseFixed(s: string)
    requires IsLowerCase(s)
    ensures ToLower(s) == s
  {
    if s != [] {
      LowerCaseFixed(s[1..]);
    }
  }

  lemma ToLowerIdempotent(s: string)
    ensures ToLower(ToLower(s)) == ToLower(s)
  {
    LowerCaseFixed(ToLower(s));
  }

  /** Two strings that differ only in the case of their letters. */
  predicate CaseVariants(a: string, b: string) {
    ToLower(a) == ToLower(b)
  }

  // ---------------------------------------------------------------------------
  // The description itself

  /** Every stored extension is lower case, as the field's documentation demands. */
  predicate WellFormed(d: FormatDescription) {
    forall i :: 0 <= i < |d.exts| ==> IsLowerCase(d.exts[i])
  }

  predicate Valid(d: FormatDescription) {
    d.name != ""
  }

  function ContainsExtension(exts: seq<string>, ext: string): (r: bool)
    ensures r <==> ext in exts
  {
    if exts == [] then false else exts[0] == ext || ContainsExtension(exts[1..], ext)
  }

  /** Compares the lower-case form of the argument with each stored extension. */
  function MatchesExtension(d: FormatDescription, fileExt: string): (r: bool)
    ensures r <==> ToLower(fileExt) in d.exts
  {
    ContainsExtension(d.exts, ToLower(fileExt))
  }

  /** The description's equality operator (note: `a` is the left-hand side). */
  predicate Equals(a: FormatDescription, rhs: FormatDescription) {
    if a.name == "" || rhs.name == "" then
      if rhs.exts == [] then false else MatchesExtension(a, rhs.exts[0])
    else
      a.name == rhs.name
  }

  /** Any case variant of a stored extension matches a well-formed description. */
  lemma CaseVariantsMatch(d: FormatDescription, ext: string, fileExt: string)
    requires WellFormed(d) && ext in d.exts
    requires CaseVariants(fileExt, ext)
    ensures MatchesExtension(d, fileExt)
  {
    LowerCaseFixed(ext);
  }

  /** A stored extension with an upper-case letter is never matched, not even by itself. */
  lemma UpperCaseExtensionNeverMatched(d: FormatDescription, i: nat, fileExt: string)
    requires i < |d.exts| && !IsLowerCase(d.exts[i])
    ensures ToLower(fileExt) != d.exts[i]
  {
  }

  lemma ValidIffNamed(d: FormatDescription)
    ensures Valid(d) <==> |d.name| > 0
    ensures !Valid(EMPTY_DESCRIPTION) && Valid(ALL_SUPPORTED)
  {
  }

  /** Two valid descriptions are equal exactly when their names are. */
  lemma EqualsByName(a: FormatDescription, b: FormatDescription)
    requires Valid(a) && Valid(b)
    ensures Equals(a, b) <==> a.name == b.name
    ensures Equals(a, b) <==> Equals(b, a)
  {
  }

  /** Without a name on either side, a right-hand side without extensions equals nothing. */
  lemma EqualsWithoutExtensions(a: FormatDescription, rhs: FormatDescription)
    requires !Valid(a) || !Valid(rhs)
    requires rhs.exts == []
    ensures !Equals(a, rhs)
  {
  }

  /** Without a name on either side, only the first extension of the right-hand side is compared. */
  lemma EqualsByFirstExtension(a: FormatDescription, rhs: FormatDescription)
    requires !Valid(a) || !Valid(rhs)
    requires rhs.exts != []
    ensures Equals(a, rhs) <==> ToLower(rhs.exts[0]) in a.exts
  {
  }

  /** The bare "vox" entry that a file name yields, and a format with two extensions. */
  const UNNAMED_VOX: FormatDescription := FormatDescription("", ["vox"], None, 0)
  const QUBICLE: FormatDescription := FormatDescription("Qubicle", ["qb", "vox"], None, 0)

  /** The equality is not symmetric. */
  lemma EqualsNotSymmetric()
    ensures !Equals(UNNAMED_VOX, QUBICLE) && Equals(QUBICLE, UNNAMED_VOX)
    ensures exists a: FormatDescription, b: FormatDescription :: Equals(a, b) != Equals(b, a)
  {
    LowerCaseFixed("qb");
    LowerCaseFixed("vox");
    assert "qb" !in UNNAMED_VOX.exts;
  }

  /** A right-hand side whose second extension matches still compares unequal. */
  lemma EqualsIgnoresLaterExtensions()
    ensures MatchesExtension(UNNAMED_VOX, QUBICLE.exts[1])
    ensures !Equals(UNNAMED_VOX, QUBICLE)
  {
    LowerCaseFixed("qb");
    LowerCaseFixed("vox");
    assert "qb" !in UNNAMED_VOX.exts;
  }

  /**
   * A description equals itself when it is valid, or when it is well formed and has
   * an extension; an unnamed description without extensions equals not even itself.
   */
  lemma EqualsReflexivity(d: FormatDescription)
    ensures Valid(d) ==> Equals(d, d)
    ensures WellFormed(d) && d.exts != [] ==> Equals(d, d)
    ensures !Valid(d) && d.exts == [] ==> !Equals(d, d)
  {
    if WellFormed(d) && d.exts != [] {
      LowerCaseFixed(d.exts[0]);
    }
  }

  /** Nothing unnamed equals the "all supported" entry, which has no extensions. */
  lemma AllSupportedEquality(a: FormatDescription)
    ensures !Valid(a) ==> !Equals(a, ALL_SUPPORTED)
    ensures Valid(a) ==> (Equals(a, ALL_SUPPORTED) <==> a.name == "All supported")
    ensures ALL_SUPPORTED.flags & FORMAT_FLAG_ALL != 0
  {
  }

  // ---------------------------------------------------------------------------
  // File description: a chosen file name and its format

  datatype FileDescription = FileDescription(name: string, desc: FormatDescription)

  const EMPTY_FILE_DESCRIPTION: FileDescription := FileDescription("", EMPTY_DESCRIPTION)

  predicate Empty(f: FileDescription) {
    f.name == ""
  }

  /** Emptiness looks only at the file name, never at the format. */
  lemma EmptyIgnoresFormat(f: FileDescription, d: FormatDescription)
    ensures Empty(f) <==> |f.name| == 0
    ensures Empty(f) <==> Empty(f.(desc := d))
    ensures Empty(EMPTY_FILE_DESCRIPTION) && !Valid(EMPTY_FILE_DESCRIPTION.desc)
  {
  }
}
