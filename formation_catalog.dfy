/**
 * The catalog of formation templates: eight named layouts of eleven slots each, with the
 * default positions in percent of the field (defence low, attack high).
 */
module FormationCatalog {
  import opened Wrappers
  import opened Players
  import opened FormationSlots

  /** The keys of the catalog. */
  datatype ModuleName = M3142 | M3421 | M442 | M433 | M4231 | M4321 | M352 | M532

  /** The catalog's keys in the order the module picker lists them. */
  function ModuleKeys(): (keys: seq<ModuleName>)
    ensures |keys| == 8
    ensures forall i, j :: 0 <= i < j < |keys| ==> keys[i] != keys[j]
  {
    [M3142, M3421, M442, M433, M4231, M4321, M352, M532]
  }

  /** Every template appears among the keys. */
  lemma ModuleKeysComplete(m: ModuleName)
    ensures m in ModuleKeys()
  {
    match m
    case M3142 => assert ModuleKeys()[0] == m;
    case M3421 => assert ModuleKeys()[1] == m;
    case M442 => assert ModuleKeys()[2] == m;
    case M433 => assert ModuleKeys()[3] == m;
    case M4231 => assert ModuleKeys()[4] == m;
    case M4321 => assert ModuleKeys()[5] == m;
    case M352 => assert ModuleKeys()[6] == m;
    case M532 => assert ModuleKeys()[7] == m;
  }

  /** The key as the app writes it, e.g. "4-4-2"; also the suffix of the storage key. */
  function Name(m: ModuleName): string
  {
    match m
    case M3142 => "3-1-4-2"
    case M3421 => "3-4-2-1"
    case M442 => "4-4-2"
    case M433 => "4-3-3"
    case M4231 => "4-2-3-1"
    case M4321 => "4-3-2-1"
    case M352 => "3-5-2"
    case M532 => "5-3-2"
  }

  /** The template a name stands for; None for a name that is not in the catalog. */
  function Lookup(name: string): (m: Option<ModuleName>)
    ensures m.Some? ==> Name(m.value) == name
  {
    if name == "3-1-4-2" then Some(M3142)
    else if name == "3-4-2-1" then Some(M3421)
    else if name == "4-4-2" then Some(M442)
    else if name == "4-3-3" then Some(M433)
    else if name == "4-2-3-1" then Some(M4231)
    else if name == "4-3-2-1" then Some(M4321)
    else if name == "3-5-2" then Some(M352)
    else if name == "5-3-2" then Some(M532)
    else None
  }

  /** Looking a template up by its own name finds it. */
  lemma LookupOwnName(m: ModuleName)
    ensures Lookup(Name(m)) == Some(m)
  {
    match m
    case M3142 =>
    case M3421 =>
    case M442 =>
    case M433 =>
    case M4231 =>
    case M4321 =>
    case M352 =>
    case M532 =>
  }

  /** Looking a template up by its own name finds it, and only a catalog name finds anything. */
  lemma LookupName(m: ModuleName, name: string)
    ensures Lookup(Name(m)) == Some(m)
    ensures Lookup(name).Some? <==> exists k: ModuleName :: Name(k) == name
  {
    LookupOwnName(m);
    if Lookup(name).Some? {
      assert Name(Lookup(name).value) == name;
    } else if exists k: ModuleName :: Name(k) == name {
      var k: ModuleName :| Name(k) == name;
      LookupOwnName(k);
      assert false;
    }
  }

  /** The default layout of a template: eleven vacant slots with distinct ids, all on the field. */
  function Template(m: ModuleName): (t: seq<Slot>)
    ensures |t| == 11
    ensures DistinctSlotIds(t)
    ensures Vacant(t)
    ensures OnField(t)
  {
    match m
    case M3142 => Layout3142Ids(); Layout3142()
    case M3421 => Layout3421Ids(); Layout3421()
    case M442 => Layout442Ids(); Layout442()
    case M433 => Layout433Ids(); Layout433()
    case M4231 => Layout4231Ids(); Layout4231()
    case M4321 => Layout4321Ids(); Layout4321()
    case M352 => Layout352Ids(); Layout352()
    case M532 => Layout532Ids(); Layout532()
  }

  /** The "3-1-4-2" layout. */
  function Layout3142(): (t: seq<Slot>)
    ensures |t| == 11 && Vacant(t) && OnField(t)
  {
    [
      Slot("GK", Portiere, 50.0, 92.0, None),
      Slot("DF1", Difensore, 20.0, 74.0, None),
      Slot("DF2", Difensore, 50.0, 74.0, None),
      Slot("DF3", Difensore, 80.0, 74.0, None),
      Slot("MF1", Centrocampista, 50.0, 62.0, None),
      Slot("MF2", Centrocampista, 22.0, 50.0, None),
      Slot("MF5", Centrocampista, 40.0, 50.0, None),
      Slot("MF3", Centrocampista, 60.0, 50.0, None),
      Slot("MF4", Centrocampista, 78.0, 50.0, None),
      Slot("FW1", Attaccante, 35.0, 22.0, None),
      Slot("FW2", Attaccante, 65.0, 22.0, None)
    ]
  }

  /** The slot ids of the "3-1-4-2" layout are distinct. */
  lemma Layout3142Ids()
    ensures DistinctSlotIds(Layout3142())
  {
  }

  /** The "3-4-2-1" layout. */
  function Layout3421(): (t: seq<Slot>)
    ensures |t| == 11 && Vacant(t) && OnField(t)
  {
    [
      Slot("GK", Portiere, 50.0, 92.0, None),
      Slot("DF1", Difensore, 20.0, 74.0, None),
      Slot("DF2", Difensore, 50.0, 74.0, None),
      Slot("DF3", Difensore, 80.0, 74.0, None),
      Slot("MF1", Centrocampista, 20.0, 56.0, None),
      Slot("MF2", Centrocampista, 40.0, 56.0, None),
      Slot("MF3", Centrocampista, 60.0, 56.0, None),
      Slot("MF4", Centrocampista, 80.0, 56.0, None),
      Slot("TQ1", Centrocampista, 38.0, 36.0, None),
      Slot("TQ2", Centrocampista, 62.0, 36.0, None),
      Slot("PC", Attaccante, 50.0, 18.0, None)
    ]
  }

  /** The slot ids of the "3-4-2-1" layout are distinct. */
  lemma Layout3421Ids()
    ensures DistinctSlotIds(Layout3421())
  {
  }

  /** The "4-4-2" layout. */
  function Layout442(): (t: seq<Slot>)
    ensures |t| == 11 && Vacant(t) && OnField(t)
  {
    [
      Slot("GK", Portiere, 50.0, 92.0, None),
      Slot("DL", Difensore, 12.0, 74.0, None),
      Slot("DC1", Difensore, 36.0, 74.0, None),
      Slot("DC2", Difensore, 64.0, 74.0, None),
      Slot("DR", Difensore, 88.0, 74.0, None),
      Slot("ML", Centrocampista, 18.0, 54.0, None),
      Slot("MC1", Centrocampista, 40.0, 54.0, None),
      Slot("MC2", Centrocampista, 60.0, 54.0, None),
      Slot("MR", Centrocampista, 82.0, 54.0, None),
      Slot("F1", Attaccante, 42.0, 22.0, None),
      Slot("F2", Attaccante, 58.0, 22.0, None)
    ]
  }

  /** The slot ids of the "4-4-2" layout are distinct. */
  lemma Layout442Ids()
    ensures DistinctSlotIds(Layout442())
  {
  }

  /** The "4-3-3" layout. */
  function Layout433(): (t: seq<Slot>)
    ensures |t| == 11 && Vacant(t) && OnField(t)
  {
    [
      Slot("GK", Portiere, 50.0, 92.0, None),
      Slot("DL", Difensore, 12.0, 74.0, None),
      Slot("DC1", Difensore, 36.0, 74.0, None),
      Slot("DC2", Difensore, 64.0, 74.0, None),
      Slot("DR", Difensore, 88.0, 74.0, None),
      Slot("MC", Centrocampista, 50.0, 58.0, None),
      Slot("MS", Centrocampista, 32.0, 56.0, None),
      Slot("MD", Centrocampista, 68.0, 56.0, None),
      Slot("AS", Attaccante, 24.0, 26.0, None),
      Slot("PC", Attaccante, 50.0, 18.0, None),
      Slot("AD", Attaccante, 76.0, 26.0, None)
    ]
  }

  /** The slot ids of the "4-3-3" layout are distinct. */
  lemma Layout433Ids()
    ensures DistinctSlotIds(Layout433())
  {
  }

  /** The "4-2-3-1" layout. */
  function Layout4231(): (t: seq<Slot>)
    ensures |t| == 11 && Vacant(t) && OnField(t)
  {
    [
      Slot("GK", Portiere, 50.0, 92.0, None),
      Slot("DL", Difensore, 12.0, 74.0, None),
      Slot("DC1", Difensore, 36.0, 74.0, None),
      Slot("DC2", Difensore, 64.0, 74.0, None),
      Slot("DR", Difensore, 88.0, 74.0, None),
      Slot("MDM1", Centrocampista, 38.0, 62.0, None),
      Slot("MDM2", Centrocampista, 62.0, 62.0, None),
      Slot("TQ1", Centrocampista, 30.0, 40.0, None),
      Slot("TQ2", Centrocampista, 50.0, 38.0, None),
      Slot("TQ3", Centrocampista, 70.0, 40.0, None),
      Slot("PC", Attaccante, 50.0, 18.0, None)
    ]
  }

  /** The slot ids of the "4-2-3-1" layout are distinct. */
  lemma Layout4231Ids()
    ensures DistinctSlotIds(Layout4231())
  {
  }

  /** The "4-3-2-1" layout. */
  function Layout4321(): (t: seq<Slot>)
    ensures |t| == 11 && Vacant(t) && OnField(t)
  {
    [
      Slot("GK", Portiere, 50.0, 92.0, None),
      Slot("DL", Difensore, 12.0, 74.0, None),
      Slot("DC1", Difensore, 36.0, 74.0, None),
      Slot("DC2", Difensore, 64.0, 74.0, None),
      Slot("DR", Difensore, 88.0, 74.0, None),
      Slot("MC1", Centrocampista, 35.0, 58.0, None),
      Slot("REG", Centrocampista, 50.0, 58.0, None),
      Slot("MC2", Centrocampista, 65.0, 58.0, None),
      Slot("TQ1", Centrocampista, 42.0, 38.0, None),
      Slot("TQ2", Centrocampista, 57.0, 38.0, None),
      Slot("PC", Attaccante, 50.0, 18.0, None)
    ]
  }

  /** The slot ids of the "4-3-2-1" layout are distinct. */
  lemma Layout4321Ids()
    ensures DistinctSlotIds(Layout4321())
  {
  }

  /** The "3-5-2" layout. */
  function Layout352(): (t: seq<Slot>)
    ensures |t| == 11 && Vacant(t) && OnField(t)
  {
    [
      Slot("GK", Portiere, 50.0, 92.0, None),
      Slot("DF1", Difensore, 20.0, 74.0, None),
      Slot("DF2", Difensore, 50.0, 74.0, None),
      Slot("DF3", Difensore, 80.0, 74.0, None),
      Slot("ES", Centrocampista, 16.0, 56.0, None),
      Slot("MC1", Centrocampista, 36.0, 58.0, None),
      Slot("REG", Centrocampista, 50.0, 60.0, None),
      Slot("MC2", Centrocampista, 64.0, 58.0, None),
      Slot("ED", Centrocampista, 84.0, 56.0, None),
      Slot("AT1", Attaccante, 42.0, 22.0, None),
      Slot("AT2", Attaccante, 58.0, 22.0, None)
    ]
  }

  /** The slot ids of the "3-5-2" layout are distinct. */
  lemma Layout352Ids()
    ensures DistinctSlotIds(Layout352())
  {
  }

  /** The "5-3-2" layout. */
  function Layout532(): (t: seq<Slot>)
    ensures |t| == 11 && Vacant(t) && OnField(t)
  {
    [
      Slot("GK", Portiere, 50.0, 92.0, None),
      Slot("DL", Difensore, 8.0, 74.0, None),
      Slot("DC1", Difensore, 28.0, 74.0, None),
      Slot("LDC", Difensore, 50.0, 76.0, None),
      Slot("DC2", Difensore, 72.0, 74.0, None),
      Slot("DR", Difensore, 92.0, 74.0, None),
      Slot("MC1", Centrocampista, 36.0, 56.0, None),
      Slot("REG", Centrocampista, 50.0, 58.0, None),
      Slot("MC2", Centrocampista, 64.0, 56.0, None),
      Slot("AT1", Attaccante, 42.0, 22.0, None),
      Slot("AT2", Attaccante, 58.0, 22.0, None)
    ]
  }

  /** The slot ids of the "5-3-2" layout are distinct. */
  lemma Layout532Ids()
    ensures DistinctSlotIds(Layout532())
  {
  }
}
