/** The machine profiles: screen size, glyph-sheet geometry and the two
    byte mappings from a matched character to character RAM and colour RAM.
    The embedded sheet images are named but their pixel data is not part of
    this model; a converter receives them already decoded. */
module Profiles {
  import opened Common
  import opened Layout

  /** A matched character: the charset it comes from and its code there. */
  datatype Character = Character(charset: nat, code: byte)

  datatype MachineProfile = MachineProfile(
    identifier: string,
    lines: nat,
    columns: nat,
    characterRamMapping: Character -> byte,
    colorRamMapping: Option<Character -> byte>,
    definition: GlyphLayout,
    charsets: seq<string>)

  /** Every profile stores the character code itself in character RAM. */
  function CodeOnly(c: Character): byte { c.code }

  const C64Profile := MachineProfile(
    "c64", 25, 40,
    CodeOnly,
    Some(_ => 0x01),
    GlyphLayout(RowInLowNibble, 8, 8, 0, 0, 0, 0),
    ["c64/C64_Petscii_Charts.png"])

  const Kc87Profile := MachineProfile(
    "kc87", 24, 40,
    CodeOnly,
    Some(_ => 0x70),
    GlyphLayout(ColumnInLowNibble, 8, 8, 1, 1, 1, 1),
    ["kc87/charset_inverted.png"])

  /** Sharp MZ: the colour byte also selects the charset (bit 7). */
  const SharpMzProfile := MachineProfile(
    "sharpmz", 25, 40,
    CodeOnly,
    Some((c: Character) => if c.charset == 0 then 0x07 else 0x87),
    GlyphLayout(RowInLowNibble, 8, 8, 2, 3, 2, 3),
    ["sharpmz/charset.png", "sharpmz/charset_extended.png"])

  const Z1013Profile := MachineProfile(
    "z1013", 32, 32,
    CodeOnly,
    None,
    GlyphLayout(ColumnInLowNibble, 8, 8, 1, 1, 1, 1),
    ["z1013/zg_1013_orig_inverted.png"])

  /** The registry, in lookup order. */
  const AvailableProfiles: seq<MachineProfile> := [C64Profile, Kc87Profile, SharpMzProfile, Z1013Profile]

  function Identifiers(ps: seq<MachineProfile>): (ids: seq<string>)
    ensures |ids| == |ps|
    ensures forall i :: 0 <= i < |ps| ==> ids[i] == ps[i].identifier
  {
    seq(|ps|, i requires 0 <= i < |ps| => ps[i].identifier)
  }

  /** `join(sep)`: the strings with `sep` between neighbours. */
  function Join(ss: seq<string>, sep: string): string
  {
    if |ss| == 0 then ""
    else if |ss| == 1 then ss[0]
    else ss[0] + sep + Join(ss[1..], sep)
  }

  /** The registry holds c64, kc87, sharpmz and z1013 in this order, no
      identifier twice. */
  lemma AvailableIdentifiers()
    ensures Identifiers(AvailableProfiles) == ["c64", "kc87", "sharpmz", "z1013"]
    ensures forall i, j :: 0 <= i < j < |AvailableProfiles| ==>
      AvailableProfiles[i].identifier != AvailableProfiles[j].identifier
  {
  }

  /** The registry lists as "c64, kc87, sharpmz, z1013". */
  lemma IdentifierListing()
    ensures Join(Identifiers(AvailableProfiles), ", ") == "c64, kc87, sharpmz, z1013"
  {
    var ids := Identifiers(AvailableProfiles);
    AvailableIdentifiers();
    var tail := ["kc87", "sharpmz", "z1013"];
    assert ids[1..] == tail;
    assert tail[1..] == ["sharpmz", "z1013"];
    assert tail[1..][1..] == ["z1013"];
    var last := Join(["z1013"], ", ");
    assert last == "z1013";
    var two := Join(["sharpmz", "z1013"], ", ");
    assert two == "sharpmz" + ", " + last;
    var three := Join(tail, ", ");
    assert three == "kc87" + ", " + two;
    assert Join(ids, ", ") == "c64" + ", " + three;
  }

  /** Position of the first profile named `id`, as the lookup loop finds it. */
  function FindProfile(ps: seq<MachineProfile>, id: string): (r: Option<nat>)
    ensures r.Some? ==> r.value < |ps| && ps[r.value].identifier == id
    ensures r.Some? ==> forall j :: 0 <= j < r.value ==> ps[j].identifier != id
    ensures r.None? <==> forall j :: 0 <= j < |ps| ==> ps[j].identifier != id
  {
    if |ps| == 0 then None
    else if ps[0].identifier == id then Some(0)
    else
      match FindProfile(ps[1..], id)
      case None => None
      case Some(i) => Some(i + 1)
  }

  /** Mappings and geometry of every registered profile. */
  lemma ProfileFacts(c: Character)
    ensures forall p :: p in AvailableProfiles ==> p.characterRamMapping(c) == c.code
    ensures forall p :: p in AvailableProfiles ==>
      p.definition.charWidth == 8 && p.definition.charHeight == 8
    ensures C64Profile.colorRamMapping.Some? && C64Profile.colorRamMapping.value(c) == 0x01
    ensures Kc87Profile.colorRamMapping.Some? && Kc87Profile.colorRamMapping.value(c) == 0x70
    ensures SharpMzProfile.colorRamMapping.Some?
    ensures SharpMzProfile.colorRamMapping.value(c) == if c.charset == 0 then 0x07 else 0x87
    ensures Z1013Profile.colorRamMapping.None?
    ensures (C64Profile.lines, C64Profile.columns) == (25, 40)
    ensures (Kc87Profile.lines, Kc87Profile.columns) == (24, 40)
    ensures (SharpMzProfile.lines, SharpMzProfile.columns) == (25, 40)
    ensures (Z1013Profile.lines, Z1013Profile.columns) == (32, 32)
    ensures forall p :: p in AvailableProfiles ==> (|p.charsets| == 2 <==> p.identifier == "sharpmz")
    ensures forall p :: p in AvailableProfiles ==> 1 <= |p.charsets| <= 2
  {
  }
}
