/**
 * aws_patch_iam_definition.py as a whole: the six patch steps in the order
 * the script runs them, on the catalogue loaded from iam_definition.json.
 */
module PatchPipeline {
  import opened Basics
  import opened Strings
  import opened IamDefinition
  import opened PatchMerge
  import opened PatchRoots
  import opened PatchDuplicates
  import opened PatchRenames
  import opened PatchTagging
  import opened PatchOverrides
  import opened PatchConditionKeys

  /** The catalogue as the tagging step leaves it (the input of the overrides). */
  function Tagged(catalogue: seq<Service>, mappings: seq<seq<MappingItem>>): seq<Service>
    requires MergeReady(WithRoots(catalogue, UndocumentedRoots)) && AllWellFormed(mappings)
  {
    TagMappings(RenameAll(MergeAll(WithRoots(catalogue, UndocumentedRoots))), mappings)
  }

  /** What the script needs of its inputs to run to the end without an exception. */
  predicate PatchReady(catalogue: seq<Service>, mappings: seq<seq<MappingItem>>, overrides: seq<Override>) {
    MergeReady(WithRoots(catalogue, UndocumentedRoots)) && AllWellFormed(mappings) &&
    AllUsable(Tagged(catalogue, mappings), overrides)
  }

  /**
   * The catalogue written to aws/iam_definition.json: one entry per distinct
   * prefix of the root-extended catalogue, in order of first occurrence.
   */
  function Patched(catalogue: seq<Service>, mappings: seq<seq<MappingItem>>, overrides: seq<Override>)
    : (r: seq<Service>)
    requires PatchReady(catalogue, mappings, overrides)
    ensures Prefixes(r) == Distinct(Prefixes(WithRoots(catalogue, UndocumentedRoots)))
  {
    var rooted := WithRoots(catalogue, UndocumentedRoots);
    var merged := MergeAll(rooted);
    var renamed := RenameAll(merged);
    var tagged := TagMappings(renamed, mappings);
    var overridden := ApplyOverrides(tagged, overrides);
    MergeAllPrefixes(rooted);
    RenameAllPrefixes(merged);
    TagMappingsPrefixes(renamed, mappings);
    ApplyOverridesPrefixes(tagged, overrides);
    SortAllKeysPrefixes(overridden);
    SortAllKeys(overridden)
  }

  /** No prefix occurs twice in the output. */
  lemma PatchedPrefixes(catalogue: seq<Service>, mappings: seq<seq<MappingItem>>, overrides: seq<Override>)
    requires PatchReady(catalogue, mappings, overrides)
    ensures UniquePrefixes(Patched(catalogue, mappings, overrides))
  {
    var r := Patched(catalogue, mappings, overrides);
    var distinct := Distinct(Prefixes(WithRoots(catalogue, UndocumentedRoots)));
    forall i, j | 0 <= i < j < |r| ensures r[i].prefix != r[j].prefix {
      assert Prefixes(r)[i] == distinct[i] && Prefixes(r)[j] == distinct[j];
    }
  }

  /** In the output every resource's condition keys are sorted. */
  lemma PatchedKeysSorted(catalogue: seq<Service>, mappings: seq<seq<MappingItem>>, overrides: seq<Override>, i: nat, j: nat)
    requires PatchReady(catalogue, mappings, overrides)
    requires i < |Patched(catalogue, mappings, overrides)|
    requires j < |Patched(catalogue, mappings, overrides)[i].resources|
    ensures Ascending(Patched(catalogue, mappings, overrides)[i].resources[j].conditionKeys)
  {
    var overridden := ApplyOverrides(Tagged(catalogue, mappings), overrides);
    SortAllKeysSorted(overridden, i, j);
  }

  /** The overrides and the key sort keep each entry's prefix and privilege names. */
  lemma FinishKeepsNames(tagged: seq<Service>, overrides: seq<Override>, i: nat, name: string)
    requires i < |tagged|
    ensures SortAllKeys(ApplyOverrides(tagged, overrides))[i].prefix == tagged[i].prefix
    ensures HasPrivilege(tagged[i].privileges, name) ==>
      HasPrivilege(SortAllKeys(ApplyOverrides(tagged, overrides))[i].privileges, name)
  {
    var overridden := ApplyOverrides(tagged, overrides);
    ApplyOverridesLastWins(tagged, overrides, i);
    assert SortAllKeys(overridden)[i].privileges == overridden[i].privileges;
    if HasPrivilege(tagged[i].privileges, name) {
      var m :| 0 <= m < |tagged[i].privileges| && tagged[i].privileges[m].privilege == name;
      assert overridden[i].privileges[m].privilege == name;
    }
  }

  /**
   * In the output every entry has a privilege for every undocumented method
   * of its prefix: the overrides and the key sort keep privilege names.
   */
  lemma PatchedCoversUndocumented(catalogue: seq<Service>, mappings: seq<seq<MappingItem>>, overrides: seq<Override>,
                                  k: nat, t: nat, i: nat)
    requires PatchReady(catalogue, mappings, overrides)
    requires k < |mappings| && t < |mappings[k]| && mappings[k][t].undocumented
    requires i < |Patched(catalogue, mappings, overrides)|
    requires Patched(catalogue, mappings, overrides)[i].prefix == Head(mappings[k][t].action, ':')
    ensures HasPrivilege(Patched(catalogue, mappings, overrides)[i].privileges, Second(mappings[k][t].action, ':'))
  {
    var renamed := RenameAll(MergeAll(WithRoots(catalogue, UndocumentedRoots)));
    var tagged := TagMappings(renamed, mappings);
    var name := Second(mappings[k][t].action, ':');
    assert tagged == Tagged(catalogue, mappings);
    FinishKeepsNames(tagged, overrides, i, name);
    TagMappingsGrow(renamed, mappings, i);
    TagMappingsCover(renamed, mappings, k, t, i);
  }

  /** The script from the first patch step to the output. */
  method PatchDefinition(catalogue: seq<Service>, mappings: seq<seq<MappingItem>>, overrides: seq<Override>)
    returns (r: seq<Service>)
    requires PatchReady(catalogue, mappings, overrides)
    ensures r == Patched(catalogue, mappings, overrides)
  {
    r := InsertRoots(catalogue, UndocumentedRoots);
    r := MergeDuplicates(r);
    r := ApplyRenames(r);
    r := TagUndocumented(r, mappings);
    r := ApplyAccessLevelOverrides(r, overrides);
    r := SortConditionKeys(r);
  }
}
