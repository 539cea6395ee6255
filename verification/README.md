# IAM dataset scripts, modelled in Dafny

This project models three scripts of an IAM (AWS Identity and Access Management)
risk-report toolkit, and proves properties of the models.

- **The catalogue patcher** (`iam-dataset-main/util/aws_patch_iam_definition.py`).
  It loads the IAM definition catalogue: one record per AWS service, with a
  prefix, a service name, conditions, privileges and resources. It then applies
  six patch steps and writes the result back:
  1. insert the undocumented root services;
  2. fold every later entry with an already-seen prefix into the first one, then drop it;
  3. rename a fixed list of services;
  4. add placeholder privileges for undocumented SDK methods;
  5. apply access-level overrides;
  6. sort every resource's condition keys.

  Each step is a specification function on a `seq<Service>`. Each also has a
  method whose loops follow the script's loops (`insert`, `append`, `pop(j)`
  with `j -= 1`, the saved-length search bounds). The method is proved equal to
  the function, and the properties are proved about the functions.
- **The synthetic data generator** (`Generate_data.py`). It builds:
  - the permission table: one row per catalogue privilege, with a
    high-sensitivity flag, sampled down to 500 rows;
  - an employee table with 250 employees and 25 top-level managers;
  - a round-robin role baseline of 10 actions per role;
  - assignments with injected high-sensitivity actions, joined with the employees;
  - an event log covering a 30-day window.

  Every random draw is a parameter, constrained only by what the random source
  guarantees. `datetime.now()` is a parameter too. The loop-built tables (the
  baseline, the overwrite at the injected rows, the event log) are methods
  proved equal to specification functions (`Baseline`, `Injected`, `Events`).
- **The risk feature builder** (`risk_feature_generator.py`). For each
  assignment row it computes four 0/1 flags and their sum:
  - `off_baseline`;
  - `peer_outlier`;
  - `dormant`;
  - `high_sensitivity`;
  - `risk_score`, the sum of the four.

  Each is a pure function of one row and the input tables.

Modules:
- `Basics` and `Strings`: shared sequence and string functions, including
  Python's string order, a stable sort and `split`.
- `IamDefinition`: the catalogue records.
- `PatchRoots`, `PatchMerge`, `PatchDuplicates`, `PatchRenames`, `PatchTagging`,
  `PatchOverrides`, `PatchConditionKeys`: the steps, in script order.
- `PatchPipeline`: the whole patcher.
- `Tables`: the CSV rows.
- `GenerateData` and `RiskFeatures`: the other two scripts.

## Model

| member | source | states |
|---|---|---|
| Basics.Distinct | iam-dataset-main/util/aws_patch_iam_definition.py:97 | `list(set(...))`: the result has no repeated element and holds exactly the elements of the input |
| Strings.LessIrreflexive | iam-dataset-main/util/aws_patch_iam_definition.py:37 | Python's `<` on strings is irreflexive |
| Strings.LessTransitive | iam-dataset-main/util/aws_patch_iam_definition.py:37 | Python's `<` on strings is transitive |
| Strings.LessTotal | iam-dataset-main/util/aws_patch_iam_definition.py:37 | any two strings are equal or ordered one way or the other |
| Strings.InsertBySorted | iam-dataset-main/util/aws_patch_iam_definition.py:196 | inserting into a key-sorted list keeps it sorted |
| Strings.SortBySorted | iam-dataset-main/util/aws_patch_iam_definition.py:196 | `sort(key=...)` yields a list sorted by the key |
| Strings.SortBy | iam-dataset-main/util/aws_patch_iam_definition.py:196 | the sort keeps the length and the multiset of elements |
| Strings.InsertByStable | iam-dataset-main/util/aws_patch_iam_definition.py:196 | the elements with a given key keep their order through one insertion |
| Strings.SortByStable | iam-dataset-main/util/aws_patch_iam_definition.py:196 | the sort is stable: for every key, the elements with that key keep their relative order |
| Strings.SortStrings | iam-dataset-main/util/aws_patch_iam_definition.py:214 | `keys.sort()` yields an ascending permutation of the keys |
| Strings.SortedUnique | iam-dataset-main/util/aws_patch_iam_definition.py:214 | two ascending lists with the same multiset are equal, so the sort result is determined by its input's elements |
| Strings.SortStringsIdempotent | iam-dataset-main/util/aws_patch_iam_definition.py:214 | sorting a sorted list leaves it unchanged |
| Strings.Lower | iam-dataset-main/util/aws_patch_iam_definition.py:207 | `.lower()` keeps the length and maps each character on its own |
| Strings.StripStar | iam-dataset-main/util/aws_patch_iam_definition.py:75 | `.replace("*", "")` leaves no `*` and keeps every other character |
| Strings.Split | iam-dataset-main/util/aws_patch_iam_definition.py:167-168 | `split(":")` gives at least one part; it gives two or more exactly when `:` occurs; no part contains `:` |
| Strings.JoinSplit | iam-dataset-main/util/aws_patch_iam_definition.py:167-168 | joining the parts with the separator gives back the string |
| Strings.Head | iam-dataset-main/util/aws_patch_iam_definition.py:167 | `split(":")[0]` contains no `:`; it is the whole string when `:` does not occur, and otherwise the text before the first `:` |
| Strings.Second | iam-dataset-main/util/aws_patch_iam_definition.py:168 | `split(":")[1]` is defined only when `:` occurs: it is the text right after the first `:`, up to the next `:` or the end, and contains no `:` |
| Strings.HeadIsSplit | iam-dataset-main/util/aws_patch_iam_definition.py:167 | `Head` is the first part of `Split` |
| Strings.SecondIsSplit | iam-dataset-main/util/aws_patch_iam_definition.py:168 | `Second` is the second part of `Split` |
| IamDefinition.PrefixSplitMembers | iam-dataset-main/util/aws_patch_iam_definition.py:45-108 | the entries with prefix p and those without split the catalogue |
| IamDefinition.WithPrefixConcat | iam-dataset-main/util/aws_patch_iam_definition.py:45-108 | selecting one prefix's entries distributes over concatenation |
| IamDefinition.WithoutPrefixConcat | iam-dataset-main/util/aws_patch_iam_definition.py:45-108 | dropping one prefix's entries distributes over concatenation |
| IamDefinition.PrefixesWithout | iam-dataset-main/util/aws_patch_iam_definition.py:105 | dropping the entries of prefix p removes exactly p from the prefix list, order kept |
| PatchRoots.FirstGreater | iam-dataset-main/util/aws_patch_iam_definition.py:36-39 | no result exactly when no prefix is greater than the root's; otherwise the first index with a greater prefix |
| PatchRoots.WithRoot | iam-dataset-main/util/aws_patch_iam_definition.py:29-39 | the catalogue is unchanged when the prefix is present or no prefix is greater; otherwise the root goes in at the first index with a greater prefix, so at most one entry is added |
| PatchRoots.WithRoots | iam-dataset-main/util/aws_patch_iam_definition.py:29-39 | the roots in list order add at most one entry each, and a catalogue without repeated prefixes stays without |
| PatchRoots.WithRootKeepsSorted | iam-dataset-main/util/aws_patch_iam_definition.py:36-39 | inserting a root keeps a prefix-sorted catalogue sorted |
| PatchRoots.WithRootKeepsUnique | iam-dataset-main/util/aws_patch_iam_definition.py:29-39 | inserting a root never creates a duplicate prefix |
| PatchRoots.InsertRoot | iam-dataset-main/util/aws_patch_iam_definition.py:30-39 | the presence scan, then the insertion scan, compute `WithRoot` |
| PatchRoots.InsertRoots | iam-dataset-main/util/aws_patch_iam_definition.py:20-39 | the loop over the roots list applies `WithRoot` root by root |
| PatchMerge.MergedConditions | iam-dataset-main/util/aws_patch_iam_definition.py:56-63 | the first entry's conditions stay first. For each of its conditions whose name is absent from the duplicate, one copy of the duplicate's last condition is appended; nothing else is |
| PatchMerge.MergedConditionsNotUnion | iam-dataset-main/util/aws_patch_iam_definition.py:56-63 | the loop is not a union: merging [b, c] into [a] gives [a, c] and loses b |
| PatchMerge.MergeConditions | iam-dataset-main/util/aws_patch_iam_definition.py:56-63 | the loop, which also visits the conditions it appends, computes `MergedConditions` |
| PatchMerge.MergedResourceTypesKeep | iam-dataset-main/util/aws_patch_iam_definition.py:72-79 | the original resource types stay in front; every appended one comes from the duplicate |
| PatchMerge.MergedResourceTypesFresh | iam-dataset-main/util/aws_patch_iam_definition.py:72-79 | each appended resource type has a `*`-stripped name that no earlier one has |
| PatchMerge.MergedResourceTypesCover | iam-dataset-main/util/aws_patch_iam_definition.py:72-79 | every resource type of the duplicate has its stripped name in the result |
| PatchMerge.MergedResourceTypesNames | iam-dataset-main/util/aws_patch_iam_definition.py:72-79 | the stripped names after the merge are those of either side |
| PatchMerge.MergeResourceTypes | iam-dataset-main/util/aws_patch_iam_definition.py:72-79 | the nested loops compute `MergedResourceTypes` |
| PatchMerge.MovedToEnd | iam-dataset-main/util/aws_patch_iam_definition.py:82-83 | `append(rts[l])` then `pop(l)` keeps the length and the multiset |
| PatchMerge.EmptiesMoved | iam-dataset-main/util/aws_patch_iam_definition.py:80-83 | every prefix of the pass keeps the length and the multiset |
| PatchMerge.SendEmptyToEnd | iam-dataset-main/util/aws_patch_iam_definition.py:80-83 | the "send empty to end" pass keeps the length and the multiset of resource types |
| PatchMerge.EmptiesMovedOne | iam-dataset-main/util/aws_patch_iam_definition.py:80-83 | with one empty resource type at p, the rounds before p change nothing, and round p moves it to the end |
| PatchMerge.SendEmptyToEndOne | iam-dataset-main/util/aws_patch_iam_definition.py:80-83 | with exactly one empty resource type, the pass moves it to the last position and keeps the others in order |
| PatchMerge.EmptiesMovedNone | iam-dataset-main/util/aws_patch_iam_definition.py:80-83 | without an empty resource type, the pass changes nothing |
| PatchMerge.AppendThenPop | iam-dataset-main/util/aws_patch_iam_definition.py:82-83 | `append` then `pop(l)` on a list is moving element l to the end |
| PatchMerge.SendEmptyToEndInPlace | iam-dataset-main/util/aws_patch_iam_definition.py:80-83 | the `for l in range(len(...))` loop computes `SendEmptyToEnd` |
| PatchMerge.FirstNamed | iam-dataset-main/util/aws_patch_iam_definition.py:69-86 | the search finds the first privilege with the name, or none exactly when no privilege has it |
| PatchMerge.MergedPrivileges | iam-dataset-main/util/aws_patch_iam_definition.py:66-88 | the first entry's privileges keep their names and positions; after them come the duplicate's privileges whose name is new, in order |
| PatchMerge.AbsentPrivilegesMembers | iam-dataset-main/util/aws_patch_iam_definition.py:66-71 | a duplicate's privilege is appended exactly when none of the first entry's original privileges has its name (the bound is `privileges_length`) |
| PatchMerge.MergedPrivilegesKeep | iam-dataset-main/util/aws_patch_iam_definition.py:66-88 | an original privilege keeps its access level and description, and is untouched when the duplicate has no privilege of its name |
| PatchMerge.MergePrivilegeStep | iam-dataset-main/util/aws_patch_iam_definition.py:67-88 | the `while k < privileges_length` search for one duplicate privilege computes `MergePrivilegeInto` |
| PatchMerge.MergePrivileges | iam-dataset-main/util/aws_patch_iam_definition.py:66-88 | the privilege loops compute `MergedPrivileges` |
| PatchMerge.FirstResource | iam-dataset-main/util/aws_patch_iam_definition.py:94-100 | the search finds the first resource with the name, or none exactly when no resource has it |
| PatchMerge.FirstResourceAt | iam-dataset-main/util/aws_patch_iam_definition.py:94-100 | the index where the scan stops is the first one with the name |
| PatchMerge.AbsentResourcesMembers | iam-dataset-main/util/aws_patch_iam_definition.py:91-102 | a duplicate's resource is appended exactly when no original resource has its name |
| PatchMerge.MergedResources | iam-dataset-main/util/aws_patch_iam_definition.py:91-102 | the original resources keep name and ARN; after them come the duplicate's resources with a new name, in order |
| PatchMerge.MergedResourceKeys | iam-dataset-main/util/aws_patch_iam_definition.py:91-102 | the first original resource of a name ends with the set union of its keys and the keys of all the duplicate's resources of that name; any other original resource is unchanged |
| PatchMerge.MergeResourceStep | iam-dataset-main/util/aws_patch_iam_definition.py:92-102 | the `while k < resources_length` search for one duplicate resource computes `MergeResourceInto` |
| PatchMerge.MergeResources | iam-dataset-main/util/aws_patch_iam_definition.py:91-102 | the resource loops compute `MergedResources` |
| PatchMerge.MergedService | iam-dataset-main/util/aws_patch_iam_definition.py:49-102 | a fold keeps the first entry's prefix and service name and whether it has conditions, and never shrinks its privileges or resources |
| PatchMerge.MergeService | iam-dataset-main/util/aws_patch_iam_definition.py:49-102 | the sms-voice adjustment followed by the three merges computes `MergedService` |
| PatchDuplicates.FoldMergeCons | iam-dataset-main/util/aws_patch_iam_definition.py:48-107 | on a mergeable list every fold step is a real merge, and the rest stays mergeable |
| PatchDuplicates.FoldMergeKeeps | iam-dataset-main/util/aws_patch_iam_definition.py:48-107 | folding any number of duplicates keeps prefix, service name and whether there are conditions, and never shrinks the lists |
| PatchDuplicates.Groups | iam-dataset-main/util/aws_patch_iam_definition.py:45-108 | every group is non-empty, and there are no more groups than entries |
| PatchDuplicates.MergeGroupsCons | iam-dataset-main/util/aws_patch_iam_definition.py:45-108 | merging is: fold the first entry's later duplicates into it, then merge what is left without that prefix |
| PatchDuplicates.MergeReadyCons | iam-dataset-main/util/aws_patch_iam_definition.py:45-108 | the precondition passes to the first group and to the rest |
| PatchDuplicates.GroupPrefixes | iam-dataset-main/util/aws_patch_iam_definition.py:45-108 | the groups' prefixes are the distinct prefixes in order of first occurrence |
| PatchDuplicates.GroupIsWithPrefix | iam-dataset-main/util/aws_patch_iam_definition.py:45-108 | each group is exactly the entries with its prefix, in catalogue order |
| PatchDuplicates.MergeGroups | iam-dataset-main/util/aws_patch_iam_definition.py:45-108 | one folded entry per group |
| PatchDuplicates.MergeAll | iam-dataset-main/util/aws_patch_iam_definition.py:45-108 | the merge never lengthens the catalogue |
| PatchDuplicates.MergeAllPrefixes | iam-dataset-main/util/aws_patch_iam_definition.py:45-108 | after the merge the prefixes are the input's distinct prefixes, in order of first occurrence: each survives once, at its first position, order kept |
| PatchDuplicates.MergeAllUnique | iam-dataset-main/util/aws_patch_iam_definition.py:45-108 | after the merge no two entries share a prefix, and no prefix is lost or invented |
| PatchDuplicates.MergeAllEntry | iam-dataset-main/util/aws_patch_iam_definition.py:45-108 | a surviving entry is the first-seen entry of its prefix with every later entry of that prefix folded in, in catalogue order |
| PatchDuplicates.GroupsOfUnique | iam-dataset-main/util/aws_patch_iam_definition.py:45-108 | without repeated prefixes every group is a single entry |
| PatchDuplicates.MergeAllUniqueNoOp | iam-dataset-main/util/aws_patch_iam_definition.py:45-108 | a catalogue without repeated prefixes is left as it is |
| PatchDuplicates.MergeAllIdempotent | iam-dataset-main/util/aws_patch_iam_definition.py:45-108 | running the merge loop twice is running it once |
| PatchDuplicates.AbsorbingInit | iam-dataset-main/util/aws_patch_iam_definition.py:47 | the inner-loop invariant holds at `j = i + 1` |
| PatchDuplicates.AbsorbingSkip | iam-dataset-main/util/aws_patch_iam_definition.py:48-107 | passing over an entry with another prefix keeps the invariant |
| PatchDuplicates.AbsorbingMergeable | iam-dataset-main/util/aws_patch_iam_definition.py:49-102 | under the invariant, the next duplicate can be merged |
| PatchDuplicates.AbsorbingMerge | iam-dataset-main/util/aws_patch_iam_definition.py:49-107 | merging entry j into entry i, `pop(j)` and `j -= 1` then `j += 1` keep the invariant at the same j |
| PatchDuplicates.AbsorbingDone | iam-dataset-main/util/aws_patch_iam_definition.py:48 | when the scan ends, entries before i are untouched. Entry i is the fold of all later entries of its prefix; after it come the later entries without that prefix, in order |
| PatchDuplicates.MergeAndPop | iam-dataset-main/util/aws_patch_iam_definition.py:49-106 | one merge and pop shortens the list by one and keeps the inner-loop invariant |
| PatchDuplicates.SkipOther | iam-dataset-main/util/aws_patch_iam_definition.py:107 | moving past an entry with another prefix keeps the inner-loop invariant |
| PatchDuplicates.AbsorbDuplicates | iam-dataset-main/util/aws_patch_iam_definition.py:47-107 | the inner loop folds every later entry of entry i's prefix into it, keeps everything before i, and leaves the other later entries in order |
| PatchDuplicates.MergeGroupsStep | iam-dataset-main/util/aws_patch_iam_definition.py:46-108 | one outer round turns the merge of the suffix from i into entry i plus the merge of the rest |
| PatchDuplicates.MergeDuplicates | iam-dataset-main/util/aws_patch_iam_definition.py:45-108 | the two nested while-loops compute `MergeAll` |
| PatchRenames.RenameTo | iam-dataset-main/util/aws_patch_iam_definition.py:115-158 | no new name exactly when no row has the prefix; otherwise the name of the last row for that prefix |
| PatchRenames.RenamesDistinctKeys | iam-dataset-main/util/aws_patch_iam_definition.py:115-158 | the 22 rows have pairwise different prefixes |
| PatchRenames.RenamedByRow | iam-dataset-main/util/aws_patch_iam_definition.py:115-158 | with distinct prefixes, the row for an entry's prefix sets its name and nothing else |
| PatchRenames.RenamedEntry | iam-dataset-main/util/aws_patch_iam_definition.py:115-158 | a rename changes only the service name, only for a prefix in the table, and to that row's name |
| PatchRenames.RenameAll | iam-dataset-main/util/aws_patch_iam_definition.py:114-158 | renaming keeps the length, and each entry's prefix and privileges in place |
| PatchRenames.RenameAllIdempotent | iam-dataset-main/util/aws_patch_iam_definition.py:114-158 | renaming twice is renaming once |
| PatchRenames.RenameAllPrefixes | iam-dataset-main/util/aws_patch_iam_definition.py:114-158 | renames keep every prefix in place |
| PatchRenames.RenameEntry | iam-dataset-main/util/aws_patch_iam_definition.py:115-158 | the chain of `if` statements for one entry computes `RenamedBy` |
| PatchRenames.ApplyRenames | iam-dataset-main/util/aws_patch_iam_definition.py:114-158 | the loop over the catalogue renames every entry and nothing else |
| PatchTagging.WithUndocumented | iam-dataset-main/util/aws_patch_iam_definition.py:172-196 | afterwards the method is present. An existing one leaves the list as it is; otherwise exactly one placeholder is added and the list is sorted by name |
| PatchTagging.TagItem | iam-dataset-main/util/aws_patch_iam_definition.py:166-196 | one item keeps the length and every entry's prefix |
| PatchTagging.TagItems | iam-dataset-main/util/aws_patch_iam_definition.py:165-196 | one mapping list keeps the length and every entry's prefix |
| PatchTagging.TagMappings | iam-dataset-main/util/aws_patch_iam_definition.py:164-196 | all mapping lists keep the length and every entry's prefix |
| PatchTagging.TagItemEntry | iam-dataset-main/util/aws_patch_iam_definition.py:166-196 | one item leaves entries of other prefixes (and documented items) alone. For a matching entry the method is then present: unchanged if it was there already, otherwise exactly one placeholder is added and the privileges are sorted by name |
| PatchTagging.TagItemsGrow | iam-dataset-main/util/aws_patch_iam_definition.py:165-196 | tagging only adds privileges: prefix, name, conditions and resources stay |
| PatchTagging.TagMappingsGrow | iam-dataset-main/util/aws_patch_iam_definition.py:164-196 | the same over every mapping list |
| PatchTagging.TagMappingsPrefixes | iam-dataset-main/util/aws_patch_iam_definition.py:164-196 | tagging keeps the prefixes |
| PatchTagging.TagItemsCover | iam-dataset-main/util/aws_patch_iam_definition.py:165-196 | after a list, every entry has a privilege for each undocumented method of its prefix in the list |
| PatchTagging.TagMappingsCover | iam-dataset-main/util/aws_patch_iam_definition.py:164-196 | after all lists, every entry has a privilege for each undocumented method of its prefix |
| PatchTagging.TagItemIdempotent | iam-dataset-main/util/aws_patch_iam_definition.py:166-196 | processing the same item twice is processing it once |
| PatchTagging.AddUndocumented | iam-dataset-main/util/aws_patch_iam_definition.py:172-196 | the `skip` scan, the append and the sort compute `WithUndocumented` |
| PatchTagging.TagMappingItem | iam-dataset-main/util/aws_patch_iam_definition.py:166-196 | the body for one item computes `TagItem` |
| PatchTagging.TagUndocumented | iam-dataset-main/util/aws_patch_iam_definition.py:164-196 | the two outer loops compute `TagMappings` |
| PatchOverrides.LastMatch | iam-dataset-main/util/aws_patch_iam_definition.py:203-208 | no level exactly when no override matches the privilege |
| PatchOverrides.LastHitIsLast | iam-dataset-main/util/aws_patch_iam_definition.py:203-208 | a value found is that of an accepted element after which no element is accepted |
| PatchOverrides.LastMatchIsLast | iam-dataset-main/util/aws_patch_iam_definition.py:203-208 | later overrides win: a level found is that of a matching override after which no override matches the privilege |
| PatchOverrides.OverrideAll | iam-dataset-main/util/aws_patch_iam_definition.py:204-208 | one override keeps the length and every entry's prefix |
| PatchOverrides.ApplyOverrides | iam-dataset-main/util/aws_patch_iam_definition.py:203-208 | the overrides keep the length and every entry's prefix |
| PatchOverrides.ApplyOverridesLastWins | iam-dataset-main/util/aws_patch_iam_definition.py:203-208 | a privilege whose name matches an override of its entry's prefix (ignoring case) gets the last such override's level; any other privilege, and every other field, is unchanged |
| PatchOverrides.ApplyOverridesPrefixes | iam-dataset-main/util/aws_patch_iam_definition.py:203-208 | overrides keep the prefixes |
| PatchOverrides.ApplyOverridesIdempotent | iam-dataset-main/util/aws_patch_iam_definition.py:203-208 | applying the overrides twice is applying them once |
| PatchOverrides.SameMatches | iam-dataset-main/util/aws_patch_iam_definition.py:205-207 | the winning override depends only on which overrides match |
| PatchOverrides.OverrideKey | iam-dataset-main/util/aws_patch_iam_definition.py:204-208 | the loops for one override compute `OverrideAll` |
| PatchOverrides.OverrideKeepsUsable | iam-dataset-main/util/aws_patch_iam_definition.py:205-207 | an override keeps every later key usable |
| PatchOverrides.ApplyAccessLevelOverrides | iam-dataset-main/util/aws_patch_iam_definition.py:203-208 | the outer loop over the overrides computes `ApplyOverrides` |
| PatchConditionKeys.SortAllKeys | iam-dataset-main/util/aws_patch_iam_definition.py:212-214 | the key sort keeps the length, and each entry's prefix and privileges |
| PatchConditionKeys.SortAllKeysSorted | iam-dataset-main/util/aws_patch_iam_definition.py:212-214 | afterwards every resource's keys are ascending and are the same multiset; every other field is unchanged |
| PatchConditionKeys.SortedKeysEntryIdempotent | iam-dataset-main/util/aws_patch_iam_definition.py:213-214 | sorting one entry's keys twice is sorting them once |
| PatchConditionKeys.SortAllKeysIdempotent | iam-dataset-main/util/aws_patch_iam_definition.py:212-214 | sorting the keys twice is sorting them once |
| PatchConditionKeys.SortAllKeysPrefixes | iam-dataset-main/util/aws_patch_iam_definition.py:212-214 | the sort keeps the prefixes |
| PatchConditionKeys.SortConditionKeys | iam-dataset-main/util/aws_patch_iam_definition.py:212-214 | the nested loops compute `SortAllKeys` |
| PatchPipeline.Patched | iam-dataset-main/util/aws_patch_iam_definition.py:19-214 | the output has one entry per distinct prefix of the root-extended catalogue, in order of first occurrence |
| PatchPipeline.PatchedPrefixes | iam-dataset-main/util/aws_patch_iam_definition.py:19-214 | no prefix occurs twice in the output |
| PatchPipeline.PatchedKeysSorted | iam-dataset-main/util/aws_patch_iam_definition.py:210-214 | in the output every resource's condition keys are sorted |
| PatchPipeline.FinishKeepsNames | iam-dataset-main/util/aws_patch_iam_definition.py:203-214 | the overrides and the key sort keep each entry's prefix and privilege names |
| PatchPipeline.PatchedCoversUndocumented | iam-dataset-main/util/aws_patch_iam_definition.py:164-214 | in the output every entry has a privilege for each undocumented method of its prefix |
| PatchPipeline.PatchDefinition | iam-dataset-main/util/aws_patch_iam_definition.py:19-214 | the six steps in script order compute `Patched` |
| GenerateData.EntryRows | Generate_data.py:37-46 | one row per privilege of the entry, each flagged exactly when its level is sensitive |
| GenerateData.EntryRowsMembers | Generate_data.py:37-41 | an entry's rows are exactly its privileges, each paired with the entry |
| GenerateData.Explode | Generate_data.py:37-46 | at least one row per catalogue entry; every row's flag agrees with its access level |
| GenerateData.ExplodeRows | Generate_data.py:37-41 | the exploded rows are exactly the (entry, privilege) pairs of the catalogue |
| GenerateData.ExplodeFlags | Generate_data.py:44-46 | a row is flagged exactly when its access level is "Permissions management" or "Privileged" |
| GenerateData.Select | Generate_data.py:52 | the drawn rows are rows of the table, one per draw |
| GenerateData.Sample | Generate_data.py:52 | the sample has min(len, 500) rows |
| GenerateData.RemoveAllDistinct | Generate_data.py:52 | removing a position from distinct draws leaves distinct draws |
| GenerateData.SelectRemove | Generate_data.py:52 | dropping one position from the draws drops that row once from the sample's multiset |
| GenerateData.SelectDistinct | Generate_data.py:52 | distinct positions pick each source row at most as often as it occurs |
| GenerateData.SampleWithoutReplacement | Generate_data.py:52 | the sample has min(len, 500) rows and is a sub-multiset of the table: no source row is repeated |
| GenerateData.Employees | Generate_data.py:57-69 | the table has 250 rows |
| GenerateData.EmployeesOrgChart | Generate_data.py:57-69 | employee i has number i+1 and a listed role. Exactly the first 25 have no manager; every other employee reports to one of those 25 |
| GenerateData.StridePositions | Generate_data.py:77 | `iloc[i::4].head(10)` takes at most 10 positions |
| GenerateData.StridePositionsIff | Generate_data.py:77 | role i's positions are i, i+4, i+8, … below the table length, the first 10 of them |
| GenerateData.StridePositionsDisjoint | Generate_data.py:76-77 | the four roles' positions are pairwise disjoint |
| GenerateData.RoleTitlesDistinct | Generate_data.py:58 | the four role titles are distinct |
| GenerateData.RoleSlice | Generate_data.py:77-78 | a role's slice has at most 10 rows, all tagged with that role |
| GenerateData.BaselineRows | Generate_data.py:76-81 | the first m slices hold at most 10·m rows, each tagged with one of the first m roles |
| GenerateData.Baseline | Generate_data.py:75-81 | at most 40 rows, each tagged with a listed role |
| GenerateData.RoleCountConcat | Generate_data.py:81 | the count of a role over concatenated slices is the sum of the counts |
| GenerateData.RoleCountUniform | Generate_data.py:78 | a slice tagged with one role counts fully for that role and zero for any other |
| GenerateData.BaselineRowsCount | Generate_data.py:76-81 | after the first m slices, role i has as many rows as it has positions if i < m, and none otherwise |
| GenerateData.BaselinePerRoleCount | Generate_data.py:76-81 | each role gets as many rows as it has positions: at most 10, and exactly 10 once 40 rows are sampled |
| GenerateData.BaselineRowsFrom | Generate_data.py:76-81 | every baseline row pairs a role with the action of a sampled row at one of that role's positions |
| GenerateData.RoundRobinBaseline | Generate_data.py:75-81 | the loop appending each role's slice computes `Baseline` |
| GenerateData.HighActions | Generate_data.py:93 | at most one action per sampled row; the pool is empty exactly when no sampled row is flagged |
| GenerateData.HighActionsMembers | Generate_data.py:93 | the replacement pool is exactly the actions of the flagged sampled rows |
| GenerateData.Injected | Generate_data.py:94 | the overwrite keeps the length; its rows are stated by `InjectedRows` |
| GenerateData.InjectedUpToRows | Generate_data.py:94 | after m overwrites role titles are kept, rows not among the first m chosen are unchanged, and the z-th chosen row has the z-th drawn action |
| GenerateData.InjectedRows | Generate_data.py:92-94 | the chosen rows get the drawn actions; every other row, and every role title, is unchanged |
| GenerateData.InjectedHighSensitive | Generate_data.py:92-94 | with the pool of line 93, an unchosen row is unchanged and a chosen row carries the action of a high-sensitivity sampled row |
| GenerateData.InjectRisk | Generate_data.py:92-94 | the loop over the chosen rows, drawing from the pool of line 93, computes `Injected` |
| GenerateData.Inherited | Generate_data.py:97-99 | every inherited row carries the employee's number and role and a drawn row's action for that role |
| GenerateData.JoinAssignments | Generate_data.py:97-99 | every joined row's (role_title, Action) is a drawn row |
| GenerateData.InheritedMembers | Generate_data.py:97-99 | an employee inherits exactly the rows of their role, one per such row |
| GenerateData.EmploysSnoc | Generate_data.py:97-99 | an employee is in the table exactly when they are in its front part or are its last row |
| GenerateData.JoinMembers | Generate_data.py:97-99 | a joined row is (emp_no, role_title, Action) for an employee with that role and a table row with that role and action, and every such pair is joined |
| GenerateData.JoinCount | Generate_data.py:97-99 | the join has, per employee, as many rows as the table has rows of that employee's role |
| GenerateData.Events | Generate_data.py:109-118 | the log has one event per draw |
| GenerateData.RowEvents | Generate_data.py:110-118 | a row yields one event per draw |
| GenerateData.EventsBounds | Generate_data.py:105-118 | at most 50 events per row; each event carries a row's emp_no and Action; each timestamp is in [ts0, ts0 + 30 days] |
| GenerateData.GenerateEvents | Generate_data.py:107-118 | the nested loops compute `Events` |
| GenerateData.GeneratedDormancy | Generate_data.py:105-114 | if the feature builder reads a generated log within 60 days, a row is dormant exactly when the log has no event for that employee and action |
| RiskFeatures.BaselineCount | risk_feature_generator.py:55-59 | a (role, action) key counts at least once exactly when it is in the baseline |
| RiskFeatures.UniqueBaselineCount | risk_feature_generator.py:55-59 | without repeated rows every (role, action) key is counted at most once |
| RiskFeatures.BaselineLookup | risk_feature_generator.py:62-64 | the lookup yields 0 or 1 |
| RiskFeatures.OffBaseline | risk_feature_generator.py:55-65 | `off_baseline` is 0 or 1, and it is 0 exactly when (role_title, Action) is in the baseline |
| RiskFeatures.PeerOutlier | risk_feature_generator.py:70-80 | `peer_outlier` is 0 or 1 |
| RiskFeatures.RatioBelowThreshold | risk_feature_generator.py:79-80 | for a positive role size, holders / size < 0.20 exactly when 5·holders < size |
| RiskFeatures.PeerOutlierRatio | risk_feature_generator.py:70-80 | `peer_outlier` is 1 exactly when the role is non-empty and distinct holders / distinct role members < 0.20 |
| RiskFeatures.PeerOutlierSmallRole | risk_feature_generator.py:70-80 | the row itself is a holder, so a role of at most five employees (a one-person role in particular) never gives a peer outlier |
| RiskFeatures.UsedAtMembers | risk_feature_generator.py:86-91 | the times of (emp_no, Action) are exactly the timestamps of its events |
| RiskFeatures.MaxOf | risk_feature_generator.py:89 | `.max()` is an element of the group and at least every element |
| RiskFeatures.Dormant | risk_feature_generator.py:85-99 | `dormant` is 0 or 1 |
| RiskFeatures.DormantIff | risk_feature_generator.py:85-99 | `dormant` is 0 exactly when some event of the employee and action is at or after now − 90 days; with no events at all every row is dormant |
| RiskFeatures.FirstWithAction | risk_feature_generator.py:104-106 | `drop_duplicates("Action")` keeps the first row with the action, or there is none exactly when no row has it |
| RiskFeatures.HighSensitivity | risk_feature_generator.py:104-109 | `high_sensitivity` is 1 exactly when the first catalogue row with the action is flagged |
| RiskFeatures.FeatureOf | risk_feature_generator.py:61-132 | a feature row keeps the row's emp_no, role_title and Action; each flag is 0 or 1; the score lies in 0..4 |
| RiskFeatures.Features | risk_feature_generator.py:114-135 | one feature row per assignment row |
| RiskFeatures.FeaturesRows | risk_feature_generator.py:61-135 | feature row k has assignment row k's emp_no, role_title and Action; each flag is 0 or 1; the score is their sum, so it lies in 0..4 |

## Left out

- File and console I/O is not modelled: the JSON and CSV reads and writes, the
  clean-up of the output directory, `print` and `time.sleep`. The tables arrive
  as sequences of records. The mapping data and the overrides arrive as
  sequences of items in dictionary order.
- The JSON output format (`indent=2, sort_keys=True`) is not modelled; it
  orders keys inside each record, and records have no key order here.
- Randomness and `datetime.now()` are parameters. Each draw is constrained only
  by what the source guarantees (`SampleDraw`, `OrgDraws`, `InjectionDraws`,
  `EventDraws`). The resampled assignment table of `Generate_data.py:89` is an
  input of `InjectRisk`, and so is the number of rows it draws. Those counts,
  `round(1.2·n)` and `round(0.1·m)`, are float arithmetic.
- Timestamps are integer seconds. `peer_pct < 0.20` is the exact integer test
  `5·holders < role_size`. `RatioBelowThreshold` proves the two agree over the
  reals; binary floating point is not modelled.
- Strings.Lower: lower-cases ASCII letters only; Python's `str.lower` also maps non-ASCII letters.
- Strings.SortBy: `list.sort` is a library call, modelled as a pure stable sort with no loop of its own. Its result is pinned down by sortedness and stability (`SortByStable`, `SortedUnique`).
- Basics.Distinct: models `list(set(...))`, whose order Python leaves unspecified, as first-occurrence order. Only the set of keys and their distinctness are claimed (`MergedResourceKeys`), never their order.
- PatchMerge.MergedConditions: requires (`ConditionsMergeable`) that a duplicate with no conditions only meets a first entry with no conditions. Otherwise line 63 appends `merge_condition` while it is unbound, or still holds a value left over from an earlier merge.
- PatchMerge.MergeService: the sms-voice case (lines 51-53) makes the duplicate share the first entry's lists. The model copies them instead. The shared list is popped right away, and with a copy the condition merge appends nothing and the resource merge gives the same key sets.
- PatchDuplicates.MergeStep: a pair that is not `Mergeable` leaves the entry unchanged; the precondition `MergeReady` rules out such pairs wherever the loop runs.
- PatchTagging.TagMappingItem: requires every undocumented action to contain `:`, without which `split(":")[1]` on line 168 raises.
- PatchOverrides.ApplyAccessLevelOverrides: requires every override key that reaches line 207 to contain `:` (`KeyUsable`), without which `split(":")[1]` raises.
- GenerateData.ExplodeRows: requires every entry to have a privilege (`Explodable`). `explode` turns an empty privilege list into NaN, on which `p["privilege"]` raises.
- GenerateData.JoinMembers: the pandas inner merge is modelled in employee-major order. Only its rows and its row count are claimed, not its order.
- GenerateData.InjectRisk: `sample(len(off_idx), replace=True)` on an empty pool raises. `InjectionDraws` covers this, because a draw must index into the pool. The resampled table it overwrites is an input: that its rows are baseline rows is not carried over.
- RiskFeatures.OffBaseline: requires (`LookupDefined`) that the baseline has no repeated (role_title, Action) pair, or that the row's key is absent from it. With a repeated pair anywhere the index is not unique, `baseline_lookup.get` returns a Series for every present key, and the `if` on line 63 then raises.
- RiskFeatures.HighSensitivity: requires the action to be in the permission table (`ActionKnown`). `fillna(False)` on `risk_feature_generator.py:104-108` fills the lookup's own values, not the mapped result, so an unknown action maps to NaN and `astype(int)` on line 109 raises.
- A role missing from the employee table needs no precondition. Its NaN ratio compares false, and the integer test with role size 0 also gives 0.
