/** What importing the items module does, as one explicit step: load the
    catalogue, then fill the empty name table and the empty group index. */
module Setup {
  import opened Wrappers
  import opened Items
  import opened Loader
  import opened Indexes

  /** `all_items`, `item_table` and `items_by_group` after loading. */
  datatype Catalogue = Catalogue(
    allItems: seq<ItemData>,
    itemTable: map<string, ItemData>,
    itemsByGroup: map<Group, seq<ItemData>>)

  /** Module initialisation: `load_item_csv()`, then `initialize_item_table()`
      and `initialize_groups()` on the empty dictionaries. It fails exactly
      when some row does not decode, with the first such row's error. On
      success the catalogue is the decoded rows in order, every name finds
      the last item carrying it, and every group some item carries finds its
      members in catalogue order, while no other group has a key. */
  method Initialize(rows: seq<Row>) returns (r: Result<Catalogue, LoadError>)
    ensures r.Ok? <==> forall i :: 0 <= i < |rows| ==> DecodeRow(rows[i]).Ok?
    ensures r.Err? ==> exists k :: 0 <= k < |rows| && DecodeRow(rows[k]) == Err(r.error) &&
                                   forall j :: 0 <= j < k ==> DecodeRow(rows[j]).Ok?
    ensures r.Ok? ==> var c := r.value;
                      && |c.allItems| == |rows|
                      && (forall i :: 0 <= i < |rows| ==> DecodeRow(rows[i]) == Ok(c.allItems[i]))
                      && c.itemTable.Keys == Names(c.allItems)
                      && (forall i :: 0 <= i < |c.allItems| && LastNamed(c.allItems, i) ==>
                                       c.itemTable[c.allItems[i].name] == c.allItems[i])
                      && c.itemsByGroup.Keys == Carried(c.allItems)
                      && forall g :: g in c.itemsByGroup ==> c.itemsByGroup[g] == Members(c.allItems, g)
  {
    var loaded := LoadItemCsv(rows);
    if loaded.Err? {
      return Err(loaded.error);
    }
    var all := loaded.value;
    var itemTable := InitializeItemTable(map[], all);
    ItemTableKeys(map[], all);
    forall i | 0 <= i < |all| && LastNamed(all, i)
      ensures itemTable[all[i].name] == all[i]
    {
      ItemTableLastWins(map[], all, i);
    }
    var itemsByGroup := InitializeGroups(map[], all);
    return Ok(Catalogue(all, itemTable, itemsByGroup));
  }
}
