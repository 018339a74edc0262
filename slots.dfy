/**
 * The texture-type switch of the importer: which material property of the
 * Standard shader a texture is attached to, chosen by the exact (case
 * sensitive) texture-type text of its file name.
 */
module SlotTable {
  import opened Wrappers
  import opened Classifier

  /** The texture slots of the Standard shader that the importer fills. */
  datatype Slot = MainTex | MetallicGlossMap | BumpMap | ParallaxMap | OcclusionMap | EmissionMap

  /** The shader property name each slot is set through. */
  function PropertyName(slot: Slot): (name: string) {
    match slot
    case MainTex => "_MainTex"
    case MetallicGlossMap => "_MetallicGlossMap"
    case BumpMap => "_BumpMap"
    case ParallaxMap => "_ParallaxMap"
    case OcclusionMap => "_OcclusionMap"
    case EmissionMap => "_EmissionMap"
  }

  /** Different slots are set through different properties. */
  lemma PropertyNameInjective(a: Slot, b: Slot)
    ensures PropertyName(a) == PropertyName(b) <==> a == b
  {
    if a != b {
      assert PropertyName(a)[1] != PropertyName(b)[1] || PropertyName(a)[2] != PropertyName(b)[2] ||
             |PropertyName(a)| != |PropertyName(b)|;
    }
  }

  /** The switch: the slot a texture type selects, or None for the default branch. */
  function SlotFor(textureType: string): (r: Option<Slot>)
    ensures r.Some? ==> 1 <= |textureType| <= 2
  {
    if textureType == "d" || textureType == "c" || textureType == "a" then Some(MainTex)
    else if textureType == "s" || textureType == "m" then Some(MetallicGlossMap)
    else if textureType == "b" || textureType == "n" then Some(BumpMap)
    else if textureType == "h" then Some(ParallaxMap)
    else if textureType == "ao" then Some(OcclusionMap)
    else if textureType == "e" then Some(EmissionMap)
    else None
  }

  /** The suffixes that select each slot, as a table. */
  function Suffixes(slot: Slot): (r: set<string>) {
    match slot
    case MainTex => {"d", "c", "a"}
    case MetallicGlossMap => {"s", "m"}
    case BumpMap => {"b", "n"}
    case ParallaxMap => {"h"}
    case OcclusionMap => {"ao"}
    case EmissionMap => {"e"}
  }

  /** Every suffix the switch knows. */
  function KnownSuffixes(): (r: set<string>)
    ensures forall slot :: Suffixes(slot) <= r
  {
    {"d", "c", "a", "s", "m", "b", "n", "h", "ao", "e"}
  }

  /** The switch selects a slot exactly for the suffixes the table lists for it. */
  lemma SlotForTable(textureType: string, slot: Slot)
    ensures SlotFor(textureType) == Some(slot) <==> textureType in Suffixes(slot)
  {
  }

  /** The default branch is taken exactly for the suffixes the table does not list. */
  lemma SlotForUnknown(textureType: string)
    ensures SlotFor(textureType) == None <==> textureType !in KnownSuffixes()
  {
  }

  /** The table assigns each suffix to one slot only. */
  lemma SuffixesDisjoint(a: Slot, b: Slot)
    requires a != b
    ensures Suffixes(a) !! Suffixes(b)
  {
    forall t | t in Suffixes(a) ensures t !in Suffixes(b) {
      SlotForTable(t, a);
      SlotForTable(t, b);
    }
  }

  /** Matching is case sensitive: the upper-cased form of a known suffix is unknown. */
  lemma UpperCaseUnknown(textureType: string)
    requires SlotFor(textureType).Some?
    ensures SlotFor(ToUpper(textureType)) == None
  {
    var u := ToUpper(textureType);
    ToUpperAt(textureType, 0);
    assert 'a' <= textureType[0] <= 'z';
  }
}
