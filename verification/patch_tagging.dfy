/**
 * Step 4 of aws_patch_iam_definition.py (lines 164-196): every SDK method
 * mapping item marked `undocumented` names an action `service:Method`; each
 * entry of that prefix lacking a privilege of that name gets a placeholder
 * privilege, and its privileges are re-sorted by name.
 */
module PatchTagging {
  import opened Basics
  import opened Strings
  import opened IamDefinition
  import opened PatchMerge

  /** An item of `sdk_method_iam_mappings`: its action and whether it has the `undocumented` key. */
  datatype MappingItem = MappingItem(action: string, undocumented: bool)

  /**
   * The privilege added for an undocumented method. The Bedrock test on
   * line 180 compares the item (a dict) with strings and never holds, so the
   * access level is always "Unknown".
   */
  function Placeholder(name: string): Privilege {
    Privilege(name, "Unknown", "", [ResourceType("", [], [])])
  }

  /** `split(":")[1]` on line 168 raises unless an undocumented action contains ':'. */
  predicate WellFormed(item: MappingItem) {
    item.undocumented ==> ':' in item.action
  }

  predicate AllWellFormed(mappings: seq<seq<MappingItem>>) {
    forall k, t :: 0 <= k < |mappings| && 0 <= t < |mappings[k]| ==> WellFormed(mappings[k][t])
  }

  /** The privileges of a matching entry after one undocumented method. */
  function WithUndocumented(ps: seq<Privilege>, name: string): (r: seq<Privilege>)
    ensures HasPrivilege(r, name)
    ensures HasPrivilege(ps, name) ==> r == ps
    ensures !HasPrivilege(ps, name) ==>
      multiset(r) == multiset(ps) + multiset{Placeholder(name)} && SortedBy(r, PrivilegeName)
  {
    if HasPrivilege(ps, name) then ps
    else
      var r := SortBy(ps + [Placeholder(name)], PrivilegeName);
      SortBySorted(ps + [Placeholder(name)], PrivilegeName);
      assert Placeholder(name) in multiset(r);
      var k :| 0 <= k < |r| && r[k] == Placeholder(name);
      r
  }

  function TaggedEntry(s: Service, service: string, name: string): Service {
    if s.prefix == service then s.(privileges := WithUndocumented(s.privileges, name)) else s
  }

  /** The catalogue after one mapping item. */
  function TagItem(catalogue: seq<Service>, item: MappingItem): (r: seq<Service>)
    requires WellFormed(item)
    ensures |r| == |catalogue|
    ensures forall i :: 0 <= i < |r| ==> r[i].prefix == catalogue[i].prefix
  {
    if !item.undocumented then catalogue
    else
      var service := Head(item.action, ':');
      var name := Second(item.action, ':');
      seq(|catalogue|, i requires 0 <= i < |catalogue| => TaggedEntry(catalogue[i], service, name))
  }

  /** The items of one mapping list, in order. */
  function TagItems(catalogue: seq<Service>, items: seq<MappingItem>): (r: seq<Service>)
    requires forall t :: 0 <= t < |items| ==> WellFormed(items[t])
    ensures |r| == |catalogue|
    ensures forall i :: 0 <= i < |r| ==> r[i].prefix == catalogue[i].prefix
  {
    if items == [] then catalogue
    else TagItem(TagItems(catalogue, items[..|items| - 1]), items[|items| - 1])
  }

  /** Every mapping list, in order (the outer `for k, v in ...items()`). */
  function TagMappings(catalogue: seq<Service>, mappings: seq<seq<MappingItem>>): (r: seq<Service>)
    requires AllWellFormed(mappings)
    ensures |r| == |catalogue|
    ensures forall i :: 0 <= i < |r| ==> r[i].prefix == catalogue[i].prefix
  {
    if mappings == [] then catalogue
    else TagItems(TagMappings(catalogue, mappings[..|mappings| - 1]), mappings[|mappings| - 1])
  }

  /** Only entries whose prefix is the action's service change, and only their privileges. */
  predicate Grows(before: Service, after: Service) {
    after.prefix == before.prefix && after.serviceName == before.serviceName &&
    after.conditions == before.conditions && after.resources == before.resources &&
    multiset(before.privileges) <= multiset(after.privileges)
  }

  /**
   * What one item does to entry `i`: a documented item or another prefix
   * leaves it as it is; otherwise the entry then has the method, and a
   * placeholder is added, with the privileges sorted by name, exactly when
   * the method was missing.
   */
  lemma TagItemEntry(catalogue: seq<Service>, item: MappingItem, i: nat)
    requires WellFormed(item) && i < |catalogue|
    ensures var r := TagItem(catalogue, item)[i];
      Grows(catalogue[i], r) &&
      (!item.undocumented || catalogue[i].prefix != Head(item.action, ':') ==> r == catalogue[i]) &&
      (item.undocumented && catalogue[i].prefix == Head(item.action, ':') ==>
        var name := Second(item.action, ':');
        HasPrivilege(r.privileges, name) &&
        (HasPrivilege(catalogue[i].privileges, name) ==> r == catalogue[i]) &&
        (!HasPrivilege(catalogue[i].privileges, name) ==>
          multiset(r.privileges) == multiset(catalogue[i].privileges) + multiset{Placeholder(name)} &&
          SortedBy(r.privileges, PrivilegeName)))
  {
  }

  lemma GrowsKeepsNames(before: Service, after: Service, name: string)
    requires Grows(before, after) && HasPrivilege(before.privileges, name)
    ensures HasPrivilege(after.privileges, name)
  {
    var k :| 0 <= k < |before.privileges| && before.privileges[k].privilege == name;
    assert before.privileges[k] in multiset(after.privileges);
    var m :| 0 <= m < |after.privileges| && after.privileges[m] == before.privileges[k];
  }

  lemma GrowsTransitive(a: Service, b: Service, c: Service)
    requires Grows(a, b) && Grows(b, c)
    ensures Grows(a, c)
  {
  }

  /** Tagging only adds privileges; prefixes, names, conditions and resources stay. */
  lemma {:induction false} TagItemsGrow(catalogue: seq<Service>, items: seq<MappingItem>, i: nat)
    requires forall t :: 0 <= t < |items| ==> WellFormed(items[t])
    requires i < |catalogue|
    ensures Grows(catalogue[i], TagItems(catalogue, items)[i])
    decreases |items|
  {
    if items != [] {
      var before := TagItems(catalogue, items[..|items| - 1]);
      TagItemsGrow(catalogue, items[..|items| - 1], i);
      TagItemEntry(before, items[|items| - 1], i);
      GrowsTransitive(catalogue[i], before[i], TagItems(catalogue, items)[i]);
    }
  }

  lemma {:induction false} TagMappingsGrow(catalogue: seq<Service>, mappings: seq<seq<MappingItem>>, i: nat)
    requires AllWellFormed(mappings) && i < |catalogue|
    ensures Grows(catalogue[i], TagMappings(catalogue, mappings)[i])
    decreases |mappings|
  {
    if mappings != [] {
      var before := TagMappings(catalogue, mappings[..|mappings| - 1]);
      TagMappingsGrow(catalogue, mappings[..|mappings| - 1], i);
      TagItemsGrow(before, mappings[|mappings| - 1], i);
      GrowsTransitive(catalogue[i], before[i], TagMappings(catalogue, mappings)[i]);
    }
  }

  /** Tagging keeps the prefixes, hence their order and uniqueness. */
  lemma TagMappingsPrefixes(catalogue: seq<Service>, mappings: seq<seq<MappingItem>>)
    requires AllWellFormed(mappings)
    ensures Prefixes(TagMappings(catalogue, mappings)) == Prefixes(catalogue)
  {
    forall i | 0 <= i < |catalogue|
      ensures TagMappings(catalogue, mappings)[i].prefix == catalogue[i].prefix
    {
      TagMappingsGrow(catalogue, mappings, i);
    }
  }

  /**
   * Afterwards every entry has a privilege for every undocumented method of
   * its prefix, whichever list and position the item came from.
   */
  lemma {:induction false} TagItemsCover(catalogue: seq<Service>, items: seq<MappingItem>, t: nat, i: nat)
    requires forall u :: 0 <= u < |items| ==> WellFormed(items[u])
    requires t < |items| && i < |catalogue|
    requires items[t].undocumented && catalogue[i].prefix == Head(items[t].action, ':')
    ensures HasPrivilege(TagItems(catalogue, items)[i].privileges, Second(items[t].action, ':'))
    decreases |items|
  {
    var last := |items| - 1;
    var init := items[..last];
    var name := Second(items[t].action, ':');
    var before := TagItems(catalogue, init);
    var after := TagItems(catalogue, items)[i];
    assert after == TagItem(before, items[last])[i];
    TagItemsGrow(catalogue, init, i);
    if t < last {
      assert init[t] == items[t];
      TagItemsCover(catalogue, init, t, i);
      TagItemGrows(before, items[last], i);
      GrowsKeepsNames(before[i], after, name);
    } else {
      assert t == last && before[i].prefix == catalogue[i].prefix;
      TagItemCovers(before, items[t], i);
    }
  }

  lemma TagItemGrows(catalogue: seq<Service>, item: MappingItem, i: nat)
    requires WellFormed(item) && i < |catalogue|
    ensures Grows(catalogue[i], TagItem(catalogue, item)[i])
  {
    TagItemEntry(catalogue, item, i);
  }

  lemma TagItemCovers(catalogue: seq<Service>, item: MappingItem, i: nat)
    requires WellFormed(item) && i < |catalogue|
    requires item.undocumented && catalogue[i].prefix == Head(item.action, ':')
    ensures HasPrivilege(TagItem(catalogue, item)[i].privileges, Second(item.action, ':'))
  {
    TagItemEntry(catalogue, item, i);
  }

  lemma {:induction false} TagMappingsCover(catalogue: seq<Service>, mappings: seq<seq<MappingItem>>, k: nat, t: nat, i: nat)
    requires AllWellFormed(mappings)
    requires k < |mappings| && t < |mappings[k]| && i < |catalogue|
    requires mappings[k][t].undocumented && catalogue[i].prefix == Head(mappings[k][t].action, ':')
    ensures HasPrivilege(TagMappings(catalogue, mappings)[i].privileges, Second(mappings[k][t].action, ':'))
    decreases |mappings|
  {
    var last := |mappings| - 1;
    var before := TagMappings(catalogue, mappings[..last]);
    TagMappingsGrow(catalogue, mappings[..last], i);
    if k < last {
      TagMappingsCover(catalogue, mappings[..last], k, t, i);
      TagItemsGrow(before, mappings[last], i);
      GrowsKeepsNames(before[i], TagMappings(catalogue, mappings)[i], Second(mappings[k][t].action, ':'));
    } else {
      TagItemsCover(before, mappings[last], t, i);
    }
  }

  /** Repeating an item changes nothing. */
  lemma TagItemIdempotent(catalogue: seq<Service>, item: MappingItem)
    requires WellFormed(item)
    ensures TagItem(TagItem(catalogue, item), item) == TagItem(catalogue, item)
  {
    var r := TagItem(catalogue, item);
    forall i | 0 <= i < |catalogue| ensures TagItem(r, item)[i] == r[i] {
      TagItemEntry(catalogue, item, i);
      TagItemEntry(r, item, i);
    }
  }

  // ---------------------------------------------------------------------
  // The loops
  // ---------------------------------------------------------------------

  /** The `for priv in ...` scan that sets `skip`, then the append and sort. */
  method AddUndocumented(ps: seq<Privilege>, name: string) returns (r: seq<Privilege>)
    ensures r == WithUndocumented(ps, name)
  {
    var skip := false;
    for k := 0 to |ps|
      invariant skip <==> exists z :: 0 <= z < k && ps[z].privilege == name
    {
      if ps[k].privilege == name {
        skip := true;
      }
    }
    r := ps;
    if !skip {
      r := r + [Placeholder(name)];
      r := SortBy(r, PrivilegeName);  // list.sort(key=lambda x: x['privilege'])
    }
  }

  /** The body for one mapping item: split the action, then visit every entry. */
  method TagMappingItem(catalogue: seq<Service>, item: MappingItem) returns (r: seq<Service>)
    requires WellFormed(item)
    ensures r == TagItem(catalogue, item)
  {
    r := catalogue;
    if item.undocumented {
      var service := Head(item.action, ':');
      var name := Second(item.action, ':');
      for i := 0 to |r|
        invariant |r| == |catalogue|
        invariant forall z :: 0 <= z < i ==> r[z] == TaggedEntry(catalogue[z], service, name)
        invariant forall z :: i <= z < |r| ==> r[z] == catalogue[z]
      {
        if r[i].prefix == service {
          var ps := AddUndocumented(r[i].privileges, name);
          r := r[i := r[i].(privileges := ps)];
        }
      }
    }
  }

  /** The two outer loops over `sdk_method_iam_mappings`. */
  method TagUndocumented(catalogue: seq<Service>, mappings: seq<seq<MappingItem>>) returns (r: seq<Service>)
    requires AllWellFormed(mappings)
    ensures r == TagMappings(catalogue, mappings)
  {
    r := catalogue;
    for k := 0 to |mappings|
      invariant r == TagMappings(catalogue, mappings[..k])
    {
      assert mappings[..k + 1][..k] == mappings[..k];
      var items := mappings[k];
      ghost var start := r;
      for t := 0 to |items|
        invariant r == TagItems(start, items[..t])
      {
        assert items[..t + 1][..t] == items[..t];
        r := TagMappingItem(r, items[t]);
      }
      assert items[..|items|] == items;
    }
    assert mappings[..|mappings|] == mappings;
  }
}
