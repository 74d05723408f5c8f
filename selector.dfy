/** `create_items`: turn the groups the campaign option selects into item
    handles through the world's factory, DLCQuest items first and Freemium
    items second. */
module Selector {
  import opened Wrappers
  import opened Items

  /** The campaign option. Every value other than the three named ones
      selects nothing. */
  datatype Campaign = Basic | LiveFreemiumOrDie | Both | Other

  /** A direct `items_by_group[...]` index on a group with no key. */
  datatype LookupError = KeyError(key: Group)

  /** The factory applied to each item, in order. */
  function Handles<H>(factory: ItemData -> H, items: seq<ItemData>): (r: seq<H>)
    ensures |r| == |items| && forall i :: 0 <= i < |items| ==> r[i] == factory(items[i])
  {
    seq(|items|, i requires 0 <= i < |items| => factory(items[i]))
  }

  /** `create_items(world, options)`, with `world.create_item` as `factory`.
      `calls` lists the items handed to the factory, in the order of the
      calls; on success the result holds the factory's results in that order.
      The DLCQuest list is read for `Basic` and `Both`, the Freemium list for
      `LiveFreemiumOrDie` and `Both`, and a group with no key is a KeyError,
      raised after the calls already made. */
  method CreateItems<H>(itemsByGroup: map<Group, seq<ItemData>>, campaign: Campaign, factory: ItemData -> H)
    returns (r: Result<seq<H>, LookupError>, calls: seq<ItemData>)
    ensures r.Ok? ==> r.value == Handles(factory, calls)
    ensures campaign == Basic ==>
              if DLCQuest in itemsByGroup then r.Ok? && calls == itemsByGroup[DLCQuest]
              else r == Err(KeyError(DLCQuest)) && calls == []
    ensures campaign == LiveFreemiumOrDie ==>
              if Freemium in itemsByGroup then r.Ok? && calls == itemsByGroup[Freemium]
              else r == Err(KeyError(Freemium)) && calls == []
    ensures campaign == Both ==>
              if DLCQuest !in itemsByGroup then r == Err(KeyError(DLCQuest)) && calls == []
              else if Freemium !in itemsByGroup then r == Err(KeyError(Freemium)) && calls == itemsByGroup[DLCQuest]
              else r.Ok? && calls == itemsByGroup[DLCQuest] + itemsByGroup[Freemium]
    ensures campaign == Other ==> r == Ok([]) && calls == []
  {
    var created: seq<H> := [];
    calls := [];
    if campaign == Basic || campaign == Both {
      if DLCQuest !in itemsByGroup {
        return Err(KeyError(DLCQuest)), calls;
      }
      var items := itemsByGroup[DLCQuest];
      var i := 0;
      while i < |items|
        invariant 0 <= i <= |items|
        invariant calls == items[..i]
        invariant created == Handles(factory, calls)
      {
        created := created + [factory(items[i])];
        calls := calls + [items[i]];
        i := i + 1;
      }
      assert items[..|items|] == items;
    }
    if campaign == LiveFreemiumOrDie || campaign == Both {
      if Freemium !in itemsByGroup {
        return Err(KeyError(Freemium)), calls;
      }
      var items := itemsByGroup[Freemium];
      ghost var earlier := calls;
      var i := 0;
      while i < |items|
        invariant 0 <= i <= |items|
        invariant calls == earlier + items[..i]
        invariant created == Handles(factory, calls)
      {
        created := created + [factory(items[i])];
        calls := calls + [items[i]];
        i := i + 1;
      }
      assert items[..|items|] == items;
    }
    return Ok(created), calls;
  }
}
