/** The item record of the DLCQuest world: the `Group` tags, the
    classification enumeration and the frozen `ItemData` record with its
    derived multiworld code and its group query. */
module Items {
  import opened Wrappers

  /** Added to every local item id to give the id the multiworld sees. */
  const Offset: int := 120000

  /** The category tags an item can carry. */
  datatype Group = DLC | DLCQuest | Freemium | Item

  /** The member name under which `Group[...]` finds a tag. */
  function GroupName(g: Group): string
  {
    match g
    case DLC => "DLC"
    case DLCQuest => "DLCQuest"
    case Freemium => "Freemium"
    case Item => "Item"
  }

  /** `Group[s]`: the tag whose member name is exactly `s`, if there is one. */
  function GroupNamed(s: string): (r: Option<Group>)
    ensures forall g :: r == Some(g) <==> s == GroupName(g)
  {
    if s == "DLC" then Some(DLC)
    else if s == "DLCQuest" then Some(DLCQuest)
    else if s == "Freemium" then Some(Freemium)
    else if s == "Item" then Some(Item)
    else None
  }

  /** How an item counts for the generator's completion logic. The enumeration
      belongs to the multiworld core; its members are taken as given. */
  datatype ItemClassification =
    | Filler
    | Progression
    | Useful
    | Trap
    | SkipBalancing
    | ProgressionSkipBalancing

  /** The member name under which `ItemClassification[...]` finds a member. */
  function ClassificationName(c: ItemClassification): string
  {
    match c
    case Filler => "filler"
    case Progression => "progression"
    case Useful => "useful"
    case Trap => "trap"
    case SkipBalancing => "skip_balancing"
    case ProgressionSkipBalancing => "progression_skip_balancing"
  }

  /** `ItemClassification[s]`: the member named exactly `s`, if there is one. */
  function ClassificationNamed(s: string): (r: Option<ItemClassification>)
    ensures forall c :: r == Some(c) <==> s == ClassificationName(c)
  {
    if s == "filler" then Some(Filler)
    else if s == "progression" then Some(Progression)
    else if s == "useful" then Some(Useful)
    else if s == "trap" then Some(Trap)
    else if s == "skip_balancing" then Some(SkipBalancing)
    else if s == "progression_skip_balancing" then Some(ProgressionSkipBalancing)
    else None
  }

  /** One catalogue entry. The record is frozen, and `groups` is a set. */
  datatype ItemData = ItemData(
    codeWithoutOffset: Option<int>,
    name: string,
    classification: ItemClassification,
    groups: set<Group>)

  /** The dataclass constructor followed by `__post_init__`: the group
      collection the caller passes, duplicates and all, becomes a set, and
      every other field is stored as given. Without groups the record has
      none. */
  function MakeItemData(id: Option<int>, name: string, classification: ItemClassification,
                        groups: seq<Group> := []): (r: ItemData)
    ensures r.codeWithoutOffset == id && r.name == name && r.classification == classification
    ensures forall g :: g in r.groups <==> g in groups
  {
    ItemData(id, name, classification, set g | g in groups)
  }

  ghost predicate Distinct(s: seq<Group>)
  {
    forall i, j :: 0 <= i < j < |s| ==> s[i] != s[j]
  }

  /** Normalising the groups collapses duplicates: the set is never larger
      than the collection passed in, and it is exactly as large when the
      collection had no duplicate. */
  lemma {:induction false} MakeItemDataCollapsesDuplicates(id: Option<int>, name: string,
                                                           classification: ItemClassification,
                                                           groups: seq<Group>)
    ensures |MakeItemData(id, name, classification, groups).groups| <= |groups|
    ensures |MakeItemData(id, name, classification, groups).groups| == |groups| <==> Distinct(groups)
  {
    ElementsSize(groups);
  }

  lemma {:induction false} ElementsSize(s: seq<Group>)
    ensures |set g | g in s| <= |s|
    ensures |set g | g in s| == |s| <==> Distinct(s)
  {
    if s != [] {
      var init, last := s[..|s| - 1], s[|s| - 1];
      ElementsSize(init);
      assert s == init + [last];
      assert (set g | g in s) == (set g | g in init) + {last};
      if last in init {
        var k :| 0 <= k < |init| && init[k] == last;
        assert s[k] == s[|s| - 1];
      } else {
        assert Distinct(s) <==> Distinct(init);
      }
    }
  }

  /** The `code` property: the multiworld id, present exactly when the local
      id is, and then the local id moved up by the offset. */
  function Code(item: ItemData): (c: Option<int>)
    ensures c.None? <==> item.codeWithoutOffset.None?
    ensures c.Some? ==> c.value - Offset == item.codeWithoutOffset.value
  {
    if item.codeWithoutOffset.Some? then Some(Offset + item.codeWithoutOffset.value) else None
  }

  /** Items whose local ids differ get different multiworld codes, and a
      non-negative local id never yields a code below the offset. */
  lemma CodeSeparatesItems(a: ItemData, b: ItemData)
    requires a.codeWithoutOffset.Some? && b.codeWithoutOffset.Some?
    requires a.codeWithoutOffset != b.codeWithoutOffset
    ensures Code(a) != Code(b)
    ensures a.codeWithoutOffset.value >= 0 ==> Code(a).value >= Offset
  {
  }

  /** `has_any_group(*group)`: true exactly when one of the candidate tags is
      among the item's groups, so never for an empty candidate list. */
  function HasAnyGroup(item: ItemData, candidates: seq<Group>): (b: bool)
    ensures b <==> exists g :: g in candidates && g in item.groups
    ensures candidates == [] ==> !b
  {
    var common := (set g | g in candidates) * item.groups;
    assert forall g :: g in candidates && g in item.groups ==> g in common;
    if common == {} then false else HasMember(common); true
  }

  lemma HasMember(s: set<Group>)
    requires s != {}
    ensures exists g :: g in s
  {
    var g :| g in s;
  }
}
