/**
 * Step 6 of aws_patch_iam_definition.py (lines 212-214): the condition keys
 * of every resource of every entry are sorted in place.
 */
module PatchConditionKeys {
  import opened Strings
  import opened IamDefinition

  function SortedKeys(r: Resource): Resource {
    r.(conditionKeys := SortStrings(r.conditionKeys))
  }

  function SortedKeysEntry(s: Service): Service {
    s.(resources := seq(|s.resources|, j requires 0 <= j < |s.resources| => SortedKeys(s.resources[j])))
  }

  function SortAllKeys(catalogue: seq<Service>): (r: seq<Service>)
    ensures |r| == |catalogue|
    ensures forall i :: 0 <= i < |r| ==>
      r[i].prefix == catalogue[i].prefix && r[i].privileges == catalogue[i].privileges
  {
    seq(|catalogue|, i requires 0 <= i < |catalogue| => SortedKeysEntry(catalogue[i]))
  }

  /** Afterwards every resource's keys are sorted and are the same keys; nothing else changes. */
  lemma SortAllKeysSorted(catalogue: seq<Service>, i: nat, j: nat)
    requires i < |catalogue| && j < |catalogue[i].resources|
    ensures var r := SortAllKeys(catalogue);
      var before := catalogue[i].resources[j];
      var after := r[i].resources[j];
      r[i].prefix == catalogue[i].prefix && r[i].serviceName == catalogue[i].serviceName &&
      r[i].conditions == catalogue[i].conditions && r[i].privileges == catalogue[i].privileges &&
      |r[i].resources| == |catalogue[i].resources| &&
      after.resource == before.resource && after.arn == before.arn &&
      multiset(after.conditionKeys) == multiset(before.conditionKeys) &&
      forall a, b :: 0 <= a < b < |after.conditionKeys| ==> !Less(after.conditionKeys[b], after.conditionKeys[a])
  {
  }

  lemma SortedKeysEntryIdempotent(s: Service)
    ensures SortedKeysEntry(SortedKeysEntry(s)) == SortedKeysEntry(s)
  {
    var once := SortedKeysEntry(s);
    forall j | 0 <= j < |once.resources| ensures SortedKeys(once.resources[j]) == once.resources[j] {
      SortStringsIdempotent(s.resources[j].conditionKeys);
    }
  }

  /** Sorting the keys a second time changes nothing. */
  lemma SortAllKeysIdempotent(catalogue: seq<Service>)
    ensures SortAllKeys(SortAllKeys(catalogue)) == SortAllKeys(catalogue)
  {
    forall i | 0 <= i < |catalogue| ensures SortedKeysEntry(SortAllKeys(catalogue)[i]) == SortAllKeys(catalogue)[i] {
      SortedKeysEntryIdempotent(catalogue[i]);
    }
  }

  /** Sorting keeps the prefixes. */
  lemma SortAllKeysPrefixes(catalogue: seq<Service>)
    ensures Prefixes(SortAllKeys(catalogue)) == Prefixes(catalogue)
  {
  }

  /** The nested `for i` / `for j` loops calling `.sort()`. */
  method SortConditionKeys(catalogue: seq<Service>) returns (r: seq<Service>)
    ensures r == SortAllKeys(catalogue)
  {
    r := catalogue;
    for i := 0 to |r|
      invariant |r| == |catalogue|
      invariant forall z :: 0 <= z < i ==> r[z] == SortedKeysEntry(catalogue[z])
      invariant forall z :: i <= z < |r| ==> r[z] == catalogue[z]
    {
      var rs := r[i].resources;
      for j := 0 to |rs|
        invariant |rs| == |catalogue[i].resources|
        invariant forall z :: 0 <= z < j ==> rs[z] == SortedKeys(catalogue[i].resources[z])
        invariant forall z :: j <= z < |rs| ==> rs[z] == catalogue[i].resources[z]
      {
        rs := rs[j := rs[j].(conditionKeys := SortStrings(rs[j].conditionKeys))];
      }
      r := r[i := r[i].(resources := rs)];
    }
  }
}
