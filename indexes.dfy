/** The two indexes built from the loaded catalogue: `item_table`, from an
    item's name to the item, and `items_by_group`, from a group to the items
    that carry it in catalogue order. */
module Indexes {
  import opened Items

  /** The names occurring in the catalogue. */
  ghost function Names(all: seq<ItemData>): set<string>
  {
    set i | 0 <= i < |all| :: all[i].name
  }

  /** No item after position `i` has the name of the item at `i`. */
  ghost predicate LastNamed(all: seq<ItemData>, i: int)
    requires 0 <= i < |all|
  {
    forall j :: i < j < |all| ==> all[j].name != all[i].name
  }

  /** `initialize_item_table`: `table.update({item.name: item for item in all})`,
      the dictionary comprehension assigning the items one after another. */
  function InitializeItemTable(table: map<string, ItemData>, all: seq<ItemData>): map<string, ItemData>
    decreases |all|
  {
    if all == [] then table
    else InitializeItemTable(table, all[..|all| - 1])[all[|all| - 1].name := all[|all| - 1]]
  }

  lemma NamesSnoc(all: seq<ItemData>)
    requires all != []
    ensures Names(all) == Names(all[..|all| - 1]) + {all[|all| - 1].name}
  {
    var init := all[..|all| - 1];
    assert forall i :: 0 <= i < |init| ==> init[i] == all[i];
  }

  /** The table's keys are its old keys together with the catalogue's names. */
  lemma {:induction false} ItemTableKeys(table: map<string, ItemData>, all: seq<ItemData>)
    ensures InitializeItemTable(table, all).Keys == table.Keys + Names(all)
    decreases |all|
  {
    if all != [] {
      ItemTableKeys(table, all[..|all| - 1]);
      NamesSnoc(all);
    }
  }

  /** An old entry whose name no catalogue item carries is kept. */
  lemma {:induction false} ItemTableKeepsOthers(table: map<string, ItemData>, all: seq<ItemData>, n: string)
    requires n in table
    requires forall i :: 0 <= i < |all| ==> all[i].name != n
    ensures n in InitializeItemTable(table, all)
    ensures InitializeItemTable(table, all)[n] == table[n]
    decreases |all|
  {
    ItemTableKeys(table, all);
    if all != [] {
      var init := all[..|all| - 1];
      assert forall i :: 0 <= i < |init| ==> init[i] == all[i];
      ItemTableKeepsOthers(table, init, n);
      assert all[|all| - 1].name != n;
    }
  }

  /** Later entries win: a name maps to the last catalogue item carrying it. */
  lemma {:induction false} ItemTableLastWins(table: map<string, ItemData>, all: seq<ItemData>, i: int)
    requires 0 <= i < |all| && LastNamed(all, i)
    ensures all[i].name in InitializeItemTable(table, all)
    ensures InitializeItemTable(table, all)[all[i].name] == all[i]
    decreases |all|
  {
    if i < |all| - 1 {
      var init := all[..|all| - 1];
      assert init[i] == all[i];
      assert all[i].name != all[|all| - 1].name;
      assert LastNamed(init, i);
      ItemTableLastWins(table, init, i);
    }
  }

  /** When no two catalogue items share a name, the table built from an
      empty dictionary has one entry per item and finds every item under its
      name. */
  lemma {:induction false} DistinctNamesTable(all: seq<ItemData>)
    requires forall i, j :: 0 <= i < j < |all| ==> all[i].name != all[j].name
    ensures |InitializeItemTable(map[], all)| == |all|
    ensures forall i :: 0 <= i < |all| ==>
              all[i].name in InitializeItemTable(map[], all) && InitializeItemTable(map[], all)[all[i].name] == all[i]
  {
    ItemTableKeys(map[], all);
    NamesSize(all);
    forall i | 0 <= i < |all|
      ensures all[i].name in InitializeItemTable(map[], all)
      ensures InitializeItemTable(map[], all)[all[i].name] == all[i]
    {
      ItemTableLastWins(map[], all, i);
    }
  }

  lemma {:induction false} NamesSize(all: seq<ItemData>)
    requires forall i, j :: 0 <= i < j < |all| ==> all[i].name != all[j].name
    ensures |Names(all)| == |all|
    decreases |all|
  {
    if all != [] {
      var init, last := all[..|all| - 1], all[|all| - 1];
      assert forall i :: 0 <= i < |init| ==> init[i] == all[i];
      NamesSize(init);
      NamesSnoc(all);
      assert last.name !in Names(init);
    }
  }

  // ---------------------------------------------------------------------
  // Items by group

  /** The catalogue items that carry `g`, in catalogue order. */
  function Members(all: seq<ItemData>, g: Group): seq<ItemData>
    decreases |all|
  {
    if all == [] then []
    else Members(all[..|all| - 1], g) + (if g in all[|all| - 1].groups then [all[|all| - 1]] else [])
  }

  /** The groups some catalogue item carries. */
  function Carried(all: seq<ItemData>): set<Group>
    decreases |all|
  {
    if all == [] then {} else Carried(all[..|all| - 1]) + all[|all| - 1].groups
  }

  /** Selecting the members of a group keeps catalogue order: the members of
      a concatenation are the members of the first part followed by those of
      the second. */
  lemma {:induction false} MembersConcat(a: seq<ItemData>, b: seq<ItemData>, g: Group)
    ensures Members(a + b, g) == Members(a, g) + Members(b, g)
    decreases |b|
  {
    if b == [] {
      assert a + b == a;
    } else {
      var init := b[..|b| - 1];
      MembersConcat(a, init, g);
      assert (a + b)[..|a + b| - 1] == a + init;
      assert (a + b)[|a + b| - 1] == b[|b| - 1];
    }
  }

  /** Each item occurs in the list of every group it carries exactly as many
      times as it occurs in the catalogue, and in no other list. */
  lemma {:induction false} MembersCount(all: seq<ItemData>, g: Group, x: ItemData)
    ensures multiset(Members(all, g))[x] == if g in x.groups then multiset(all)[x] else 0
    ensures x in Members(all, g) <==> x in all && g in x.groups
    decreases |all|
  {
    if all != [] {
      var init, last := all[..|all| - 1], all[|all| - 1];
      MembersCount(init, g, x);
      assert all == init + [last];
      assert multiset(all) == multiset(init) + multiset{last};
    }
  }

  /** A group has members exactly when some item carries it. */
  lemma {:induction false} MembersNonEmpty(all: seq<ItemData>, g: Group)
    ensures Members(all, g) != [] <==> g in Carried(all)
    ensures g in Carried(all) <==> exists i :: 0 <= i < |all| && g in all[i].groups
    decreases |all|
  {
    if all != [] {
      var init, last := all[..|all| - 1], all[|all| - 1];
      MembersNonEmpty(init, g);
      assert forall i :: 0 <= i < |init| ==> init[i] == all[i];
      if g in last.groups {
        assert g in all[|all| - 1].groups;
      }
    }
  }

  /** The list already stored under `g`, or none. */
  function Existing(itemsByGroup: map<Group, seq<ItemData>>, g: Group): seq<ItemData>
  {
    if g in itemsByGroup then itemsByGroup[g] else []
  }

  /** The inner loop of `initialize_groups` for one item: for each of its
      groups, in whatever order the set yields them, fetch the group's list
      (a new empty list when the group has no key yet), append the item and
      store the list back. */
  method AddToGroups(itemsByGroup: map<Group, seq<ItemData>>, item: ItemData)
    returns (r: map<Group, seq<ItemData>>)
    ensures r.Keys == itemsByGroup.Keys + item.groups
    ensures forall g :: g in r ==> r[g] == Existing(itemsByGroup, g) + (if g in item.groups then [item] else [])
  {
    r := itemsByGroup;
    var pending := item.groups;
    ghost var done: set<Group> := {};
    while pending != {}
      invariant pending + done == item.groups && pending !! done
      invariant r.Keys == itemsByGroup.Keys + done
      invariant forall g :: g in r ==> r[g] == Existing(itemsByGroup, g) + (if g in done then [item] else [])
      decreases pending
    {
      var group :| group in pending;
      var itemGroup := if group in r then r[group] else [];
      itemGroup := itemGroup + [item];
      r := r[group := itemGroup];
      pending := pending - {group};
      done := done + {group};
    }
  }

  /** `initialize_groups`. Afterwards the keys are the old keys and the groups
      some item carries, so a group nobody carries gets no key; and each list
      is its old contents followed by the group's members in catalogue order. */
  method InitializeGroups(itemsByGroup: map<Group, seq<ItemData>>, all: seq<ItemData>)
    returns (r: map<Group, seq<ItemData>>)
    ensures r.Keys == itemsByGroup.Keys + Carried(all)
    ensures forall g :: g in r ==> r[g] == Existing(itemsByGroup, g) + Members(all, g)
  {
    r := itemsByGroup;
    var i := 0;
    ghost var seen: seq<ItemData> := [];
    while i < |all|
      invariant 0 <= i <= |all| && seen == all[..i]
      invariant r.Keys == itemsByGroup.Keys + Carried(seen)
      invariant forall g :: g in r ==> r[g] == Existing(itemsByGroup, g) + Members(seen, g)
    {
      ghost var before := r;
      r := AddToGroups(r, all[i]);
      GroupsStep(itemsByGroup, seen, all[i], before, r);
      seen := seen + [all[i]];
      i := i + 1;
    }
    assert seen == all;
  }

  /** One pass of the outer loop of `initialize_groups` extends the
      invariant from the items seen so far to one item more. */
  lemma GroupsStep(itemsByGroup: map<Group, seq<ItemData>>, seen: seq<ItemData>, item: ItemData,
                   before: map<Group, seq<ItemData>>, after: map<Group, seq<ItemData>>)
    requires before.Keys == itemsByGroup.Keys + Carried(seen)
    requires forall g :: g in before ==> before[g] == Existing(itemsByGroup, g) + Members(seen, g)
    requires after.Keys == before.Keys + item.groups
    requires forall g :: g in after ==> after[g] == Existing(before, g) + (if g in item.groups then [item] else [])
    ensures after.Keys == itemsByGroup.Keys + Carried(seen + [item])
    ensures forall g :: g in after ==> after[g] == Existing(itemsByGroup, g) + Members(seen + [item], g)
  {
    SnocStep(seen, item);
    var carried := Carried(seen);
    assert after.Keys == itemsByGroup.Keys + (carried + item.groups);
    forall g | g in after
      ensures after[g] == Existing(itemsByGroup, g) + Members(seen + [item], g)
    {
      GroupStepAt(itemsByGroup, seen, item, before, after, g);
    }
  }

  lemma GroupStepAt(itemsByGroup: map<Group, seq<ItemData>>, seen: seq<ItemData>, item: ItemData,
                    before: map<Group, seq<ItemData>>, after: map<Group, seq<ItemData>>, g: Group)
    requires g in after
    requires g in before <==> g in itemsByGroup || g in Carried(seen)
    requires g in before ==> before[g] == Existing(itemsByGroup, g) + Members(seen, g)
    requires after[g] == Existing(before, g) + (if g in item.groups then [item] else [])
    requires Members(seen + [item], g) == Members(seen, g) + (if g in item.groups then [item] else [])
    ensures after[g] == Existing(itemsByGroup, g) + Members(seen + [item], g)
  {
    if g !in before {
      MembersNonEmpty(seen, g);
    }
  }

  lemma SnocStep(seen: seq<ItemData>, item: ItemData)
    ensures Carried(seen + [item]) == Carried(seen) + item.groups
    ensures forall g :: Members(seen + [item], g) == Members(seen, g) + (if g in item.groups then [item] else [])
  {
    assert (seen + [item])[..|seen|] == seen;
  }
}
