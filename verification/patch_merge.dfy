/**
 * How aws_patch_iam_definition.py folds one duplicate service record `d`
 * into the first-seen record `cur` with the same prefix (lines 49-102):
 * the sms-voice special case, then conditions, privileges and resources.
 * Each part is a specification function plus a method whose loops follow
 * the source's loops.
 */
module PatchMerge {
  import opened Basics
  import opened Strings
  import opened IamDefinition

  // ---------------------------------------------------------------------
  // Conditions (lines 56-63)
  // ---------------------------------------------------------------------

  predicate HasCondition(cs: seq<Condition>, name: string) {
    exists m :: 0 <= m < |cs| && cs[m].condition == name
  }

  /** How many conditions of `ci` have a name that does not occur in `cj`. */
  function CountAbsent(ci: seq<Condition>, cj: seq<Condition>): (n: nat)
    ensures n <= |ci|
  {
    if ci == [] then 0
    else CountAbsent(ci[..|ci| - 1], cj) + (if HasCondition(cj, ci[|ci| - 1].condition) then 0 else 1)
  }

  function Repeat<T>(x: T, n: nat): (r: seq<T>)
    ensures |r| == n && forall k :: 0 <= k < n ==> r[k] == x
  {
    seq(n, _ => x)
  }

  /**
   * The source reads its loop variable `merge_condition` after the inner loop;
   * when the duplicate has no conditions that variable is not bound by this
   * merge. The model therefore admits an empty `cj` only when `ci` is empty too,
   * in which case the loop body never runs.
   */
  predicate ConditionsMergeable(ci: seq<Condition>, cj: seq<Condition>) {
    |cj| > 0 || |ci| == 0
  }

  /**
   * The conditions after the loop as written: the loop runs over the first
   * entry's own conditions (including the ones it appends), asks whether each
   * one's name occurs in the duplicate, and when it does not, appends the
   * duplicate's LAST condition (the value the inner loop variable is left
   * holding). Appended copies are found and append nothing further.
   */
  function MergedConditions(ci: seq<Condition>, cj: seq<Condition>): (r: seq<Condition>)
    requires ConditionsMergeable(ci, cj)
    ensures |r| == |ci| + CountAbsent(ci, cj)
    ensures r[..|ci|] == ci
    ensures forall k :: |ci| <= k < |r| ==> r[k] == cj[|cj| - 1]
  {
    if |cj| == 0 then ci else ci + Repeat(cj[|cj| - 1], CountAbsent(ci, cj))
  }

  /** The loop does not compute a union: a condition of the duplicate can be lost. */
  lemma MergedConditionsNotUnion()
    ensures var a := Condition("a", "", ""); var b := Condition("b", "", ""); var c := Condition("c", "", "");
      MergedConditions([a], [b, c]) == [a, c] && b !in MergedConditions([a], [b, c])
  {
    var a := Condition("a", "", "");
    var b := Condition("b", "", "");
    var c := Condition("c", "", "");
    assert !HasCondition([b, c], "a") by {
      assert [b, c][0].condition == "b" && [b, c][1].condition == "c";
    }
    assert [a][..0] == [];
    assert CountAbsent([a], [b, c]) == 1;
    var r := MergedConditions([a], [b, c]);
    assert r == [a] + [c];
  }

  method MergeConditions(ci: seq<Condition>, cj: seq<Condition>) returns (r: seq<Condition>)
    requires ConditionsMergeable(ci, cj)
    ensures r == MergedConditions(ci, cj)
  {
    r := ci;
    var idx := 0;
    // `for condition in iam_def[i]['conditions']` also visits what it appends
    while idx < |r|
      invariant 0 <= idx <= |r|
      invariant |r| == |ci| + CountAbsent(ci[..Min(idx, |ci|)], cj)
      invariant r[..|ci|] == ci
      invariant forall k :: |ci| <= k < |r| ==> r[k] == cj[|cj| - 1]
      decreases |r| - idx + (if idx < |ci| then |ci| - idx else 0)
    {
      var condition := r[idx];
      var found := false;
      for m := 0 to |cj|
        invariant found <==> exists z :: 0 <= z < m && cj[z].condition == condition.condition
      {
        if condition.condition == cj[m].condition {
          found := true;
          break;
        }
      }
      if !found {
        // the inner loop ran to the end, so `merge_condition` is cj's last element
        r := r + [cj[|cj| - 1]];
      }
      if idx < |ci| {
        assert ci[..idx + 1][..idx] == ci[..idx];
        assert ci[..idx + 1][idx] == ci[idx] == condition;
      } else {
        assert condition == cj[|cj| - 1];
      }
      idx := idx + 1;
    }
    assert ci[..|ci|] == ci;
  }

  // ---------------------------------------------------------------------
  // Resource types of a matched privilege (lines 72-83)
  // ---------------------------------------------------------------------

  function Stripped(rt: ResourceType): string {
    StripStar(rt.resourceType)
  }

  predicate HasStripped(rts: seq<ResourceType>, name: string) {
    exists m :: 0 <= m < |rts| && Stripped(rts[m]) == name
  }

  /**
   * Each resource type of the duplicate is appended unless one already in the
   * list (original or appended earlier in this loop) has the same name once `*`
   * is removed.
   */
  function MergedResourceTypes(rts: seq<ResourceType>, mrts: seq<ResourceType>): (r: seq<ResourceType>)
    ensures |r| >= |rts|
    decreases |mrts|
  {
    if mrts == [] then rts
    else
      var acc := MergedResourceTypes(rts, mrts[..|mrts| - 1]);
      var m := mrts[|mrts| - 1];
      if HasStripped(acc, Stripped(m)) then acc else acc + [m]
  }

  /** The original list is kept as a prefix, and everything else comes from the duplicate. */
  lemma {:induction false} MergedResourceTypesKeep(rts: seq<ResourceType>, mrts: seq<ResourceType>)
    ensures var r := MergedResourceTypes(rts, mrts);
      r[..|rts|] == rts && forall k :: |rts| <= k < |r| ==> r[k] in mrts
    decreases |mrts|
  {
    if mrts != [] {
      var init := mrts[..|mrts| - 1];
      MergedResourceTypesKeep(rts, init);
      var acc := MergedResourceTypes(rts, init);
      var m := mrts[|mrts| - 1];
      assert forall x :: x in init ==> x in mrts;
      if !HasStripped(acc, Stripped(m)) {
        assert (acc + [m])[..|rts|] == acc[..|rts|];
      }
    }
  }

  /** From position `n` on, no resource type shares its stripped name with an earlier one. */
  predicate FreshFrom(r: seq<ResourceType>, n: nat) {
    forall k :: n <= k < |r| ==> !HasStripped(r[..k], Stripped(r[k]))
  }

  /** Each appended resource type has a stripped name that no earlier one has. */
  lemma {:induction false} MergedResourceTypesFresh(rts: seq<ResourceType>, mrts: seq<ResourceType>)
    ensures FreshFrom(MergedResourceTypes(rts, mrts), |rts|)
    decreases |mrts|
  {
    if mrts != [] {
      var init := mrts[..|mrts| - 1];
      MergedResourceTypesFresh(rts, init);
      var acc := MergedResourceTypes(rts, init);
      var m := mrts[|mrts| - 1];
      if !HasStripped(acc, Stripped(m)) {
        var r := acc + [m];
        assert r == MergedResourceTypes(rts, mrts);
        forall k | |rts| <= k < |r| ensures !HasStripped(r[..k], Stripped(r[k])) {
          if k < |acc| {
            assert r[..k] == acc[..k] && r[k] == acc[k];
          } else {
            assert r[..k] == acc && r[k] == m;
          }
        }
      }
    }
  }

  /** Every resource type of the duplicate has its stripped name in the result. */
  lemma {:induction false} MergedResourceTypesCover(rts: seq<ResourceType>, mrts: seq<ResourceType>)
    ensures forall x :: x in mrts ==> HasStripped(MergedResourceTypes(rts, mrts), Stripped(x))
    decreases |mrts|
  {
    if mrts != [] {
      var init := mrts[..|mrts| - 1];
      MergedResourceTypesCover(rts, init);
      var acc := MergedResourceTypes(rts, init);
      var m := mrts[|mrts| - 1];
      var r := MergedResourceTypes(rts, mrts);
      forall x | x in mrts ensures HasStripped(r, Stripped(x)) {
        if x != m {
          assert x in init;
          var z :| 0 <= z < |acc| && Stripped(acc[z]) == Stripped(x);
          assert r[z] == acc[z];
        } else if !HasStripped(acc, Stripped(m)) {
          assert r[|acc|] == m;
        }
      }
    }
  }

  /** The stripped names after the merge are the union of both sides. */
  lemma MergedResourceTypesNames(rts: seq<ResourceType>, mrts: seq<ResourceType>, name: string)
    ensures HasStripped(MergedResourceTypes(rts, mrts), name) <==> HasStripped(rts, name) || HasStripped(mrts, name)
  {
    var r := MergedResourceTypes(rts, mrts);
    MergedResourceTypesKeep(rts, mrts);
    MergedResourceTypesCover(rts, mrts);
    if HasStripped(rts, name) {
      var z :| 0 <= z < |rts| && Stripped(rts[z]) == name;
      assert r[z] == r[..|rts|][z] == rts[z];
    }
    if HasStripped(mrts, name) {
      var z :| 0 <= z < |mrts| && Stripped(mrts[z]) == name;
      assert mrts[z] in mrts;
    }
    if HasStripped(r, name) {
      var z :| 0 <= z < |r| && Stripped(r[z]) == name;
      if z < |rts| {
        assert r[z] == r[..|rts|][z] == rts[z];
      } else {
        var y :| 0 <= y < |mrts| && mrts[y] == r[z];
      }
    }
  }

  method MergeResourceTypes(rts: seq<ResourceType>, mrts: seq<ResourceType>) returns (r: seq<ResourceType>)
    ensures r == MergedResourceTypes(rts, mrts)
  {
    r := rts;
    for t := 0 to |mrts|
      invariant r == MergedResourceTypes(rts, mrts[..t])
    {
      assert mrts[..t + 1][..t] == mrts[..t];
      var mergeResourceType := mrts[t];
      var found2 := false;
      for q := 0 to |r|
        invariant found2 <==> exists z :: 0 <= z < q && Stripped(r[z]) == Stripped(mergeResourceType)
      {
        if Stripped(mergeResourceType) == Stripped(r[q]) {
          found2 := true;
          break;
        }
      }
      if !found2 {
        r := r + [mergeResourceType];
      }
    }
    assert mrts[..|mrts|] == mrts;
  }

  /** `append(rts[l])` followed by `pop(l)`. */
  function MovedToEnd<T>(s: seq<T>, l: nat): (r: seq<T>)
    requires l < |s|
    ensures |r| == |s| && multiset(r) == multiset(s)
  {
    assert s == s[..l] + [s[l]] + s[l + 1..];
    s[..l] + s[l + 1..] + [s[l]]
  }

  /** The list after the first `n` rounds of `for l in range(len(rts))`. */
  function EmptiesMoved(s: seq<ResourceType>, n: nat): (r: seq<ResourceType>)
    requires n <= |s|
    ensures |r| == |s| && multiset(r) == multiset(s)
  {
    if n == 0 then s
    else
      var acc := EmptiesMoved(s, n - 1);
      if acc[n - 1].resourceType == "" then MovedToEnd(acc, n - 1) else acc
  }

  /** The "send empty to end" pass (lines 80-83). */
  function SendEmptyToEnd(s: seq<ResourceType>): (r: seq<ResourceType>)
    ensures |r| == |s| && multiset(r) == multiset(s)
  {
    EmptiesMoved(s, |s|)
  }

  predicate OnlyEmptyAt(s: seq<ResourceType>, p: nat) {
    p < |s| && forall k :: 0 <= k < |s| ==> (s[k].resourceType == "" <==> k == p)
  }

  lemma {:induction false} EmptiesMovedOne(s: seq<ResourceType>, p: nat, n: nat)
    requires OnlyEmptyAt(s, p) && n <= |s|
    ensures n <= p ==> EmptiesMoved(s, n) == s
    ensures p < n ==> EmptiesMoved(s, n) == s[..p] + s[p + 1..] + [s[p]]
  {
    if n > 0 {
      EmptiesMovedOne(s, p, n - 1);
      if n - 1 > p {
        var t := s[..p] + s[p + 1..] + [s[p]];
        if n - 1 < |s| - 1 {
          assert t[n - 1] == s[n];
        } else {
          assert t[..n - 1] + t[n..] + [t[n - 1]] == t;
        }
      }
    }
  }

  /** With exactly one empty resource type, the pass moves it to the last position. */
  lemma SendEmptyToEndOne(s: seq<ResourceType>, p: nat)
    requires OnlyEmptyAt(s, p)
    ensures SendEmptyToEnd(s) == s[..p] + s[p + 1..] + [s[p]]
    ensures SendEmptyToEnd(s)[|s| - 1].resourceType == ""
  {
    EmptiesMovedOne(s, p, |s|);
  }

  lemma {:induction false} EmptiesMovedNone(s: seq<ResourceType>, n: nat)
    requires n <= |s|
    requires forall k :: 0 <= k < |s| ==> s[k].resourceType != ""
    ensures EmptiesMoved(s, n) == s
  {
    if n > 0 {
      EmptiesMovedNone(s, n - 1);
    }
  }

  /** Appending `s[l]` and then popping position `l` is `MovedToEnd`. */
  lemma AppendThenPop<T>(s: seq<T>, l: nat)
    requires l < |s|
    ensures (s + [s[l]])[..l] + (s + [s[l]])[l + 1..] == MovedToEnd(s, l)
  {
    assert (s + [s[l]])[..l] == s[..l];
    assert (s + [s[l]])[l + 1..] == s[l + 1..] + [s[l]];
  }

  method SendEmptyToEndInPlace(rts: seq<ResourceType>) returns (r: seq<ResourceType>)
    ensures r == SendEmptyToEnd(rts)
  {
    r := rts;
    for l := 0 to |rts|
      invariant r == EmptiesMoved(rts, l)
    {
      if r[l].resourceType == "" {
        AppendThenPop(r, l);
        r := r + [r[l]];
        r := r[..l] + r[l + 1..];
      }
    }
  }


  // ---------------------------------------------------------------------
  // Privileges (lines 66-88)
  // ---------------------------------------------------------------------

  predicate HasPrivilege(ps: seq<Privilege>, name: string) {
    exists k :: 0 <= k < |ps| && ps[k].privilege == name
  }

  function FirstNamed(ps: seq<Privilege>, name: string): (r: Option<nat>)
    ensures r.None? <==> !HasPrivilege(ps, name)
    ensures r.Some? ==> r.value < |ps| && ps[r.value].privilege == name
    ensures r.Some? ==> forall k :: 0 <= k < r.value ==> ps[k].privilege != name
  {
    if ps == [] then None
    else if ps[0].privilege == name then Some(0)
    else match FirstNamed(ps[1..], name)
      case None => None
      case Some(k) => Some(k + 1)
  }

  /** The search of `ps[..bound]` that stops at `k`, or finds nothing when `k == bound`. */
  lemma FirstNamedIn(ps: seq<Privilege>, bound: nat, name: string, k: nat)
    requires k <= bound <= |ps|
    requires k < bound ==> ps[k].privilege == name
    requires forall z :: 0 <= z < k ==> ps[z].privilege != name
    ensures k < bound ==> FirstNamed(ps[..bound], name) == Some(k)
    ensures k == bound ==> FirstNamed(ps[..bound], name) == None
  {
    if k < bound {
      assert ps[..bound][k].privilege == name;
    }
  }

  /** A matched privilege gets the merged resource types, then the empty one moved last. */
  function MergedPrivilege(p: Privilege, mp: Privilege): Privilege {
    p.(resourceTypes := SendEmptyToEnd(MergedResourceTypes(p.resourceTypes, mp.resourceTypes)))
  }

  /** One round of `for merge_privilege in ...`; only the first `bound` entries are searched. */
  function MergePrivilegeInto(ps: seq<Privilege>, bound: nat, mp: Privilege): seq<Privilege>
    requires bound <= |ps|
  {
    match FirstNamed(ps[..bound], mp.privilege)
    case Some(k) => ps[k := MergedPrivilege(ps[k], mp)]
    case None => ps + [mp]
  }

  /** The duplicate's privileges whose name is not among `pi`'s, in order. */
  function AbsentPrivileges(pi: seq<Privilege>, pj: seq<Privilege>): seq<Privilege> {
    if pj == [] then []
    else
      AbsentPrivileges(pi, pj[..|pj| - 1])
      + (if HasPrivilege(pi, pj[|pj| - 1].privilege) then [] else [pj[|pj| - 1]])
  }

  /**
   * A privilege of the duplicate is appended exactly when no original privilege
   * has its name; two privileges of the duplicate with the same new name are
   * both appended, since the search never looks past `privileges_length`.
   */
  lemma {:induction false} AbsentPrivilegesMembers(pi: seq<Privilege>, pj: seq<Privilege>, x: Privilege)
    ensures x in AbsentPrivileges(pi, pj) <==> x in pj && !HasPrivilege(pi, x.privilege)
    decreases |pj|
  {
    if pj != [] {
      var init := pj[..|pj| - 1];
      AbsentPrivilegesMembers(pi, init, x);
      assert pj == init + [pj[|pj| - 1]];
    }
  }

  /**
   * The privileges after the merge. The search bound is `privileges_length`,
   * the length before appending, so the first |pi| entries keep their names and
   * exactly the duplicate's privileges with a new name are appended, in order.
   */
  function MergedPrivileges(pi: seq<Privilege>, pj: seq<Privilege>): (r: seq<Privilege>)
    ensures |r| >= |pi|
    ensures forall k :: 0 <= k < |pi| ==> r[k].privilege == pi[k].privilege
    ensures r[|pi|..] == AbsentPrivileges(pi, pj)
    decreases |pj|
  {
    if pj == [] then pi
    else
      var acc := MergedPrivileges(pi, pj[..|pj| - 1]);
      var mp := pj[|pj| - 1];
      assert HasPrivilege(acc[..|pi|], mp.privilege) <==> HasPrivilege(pi, mp.privilege) by {
        if HasPrivilege(pi, mp.privilege) {
          var k :| 0 <= k < |pi| && pi[k].privilege == mp.privilege;
          assert acc[..|pi|][k].privilege == mp.privilege;
        }
      }
      var r := MergePrivilegeInto(acc, |pi|, mp);
      assert r[|pi|..] == acc[|pi|..] + (if HasPrivilege(pi, mp.privilege) then [] else [mp]);
      r
  }

  /**
   * A privilege of the first entry keeps its name, access level and description;
   * it is untouched when no privilege of the duplicate has its name.
   */
  lemma {:induction false} MergedPrivilegesKeep(pi: seq<Privilege>, pj: seq<Privilege>, k: nat)
    requires k < |pi|
    ensures var r := MergedPrivileges(pi, pj);
      r[k].accessLevel == pi[k].accessLevel && r[k].description == pi[k].description
    ensures !HasPrivilege(pj, pi[k].privilege) ==> MergedPrivileges(pi, pj)[k] == pi[k]
    decreases |pj|
  {
    if pj != [] {
      MergedPrivilegesKeep(pi, pj[..|pj| - 1], k);
      if !HasPrivilege(pj, pi[k].privilege) {
        assert pj[|pj| - 1].privilege != pi[k].privilege;
      }
    }
  }

  /** One round of the outer loop: the `while k < privileges_length` search. */
  method MergePrivilegeStep(ps: seq<Privilege>, privilegesLength: nat, mergePrivilege: Privilege)
    returns (r: seq<Privilege>)
    requires privilegesLength <= |ps|
    ensures r == MergePrivilegeInto(ps, privilegesLength, mergePrivilege)
  {
    r := ps;
    var found := false;
    var k := 0;
    while k < privilegesLength
      invariant 0 <= k <= privilegesLength
      invariant !found && r == ps
      invariant forall z :: 0 <= z < k ==> r[z].privilege != mergePrivilege.privilege
    {
      if r[k].privilege == mergePrivilege.privilege {
        var rts := MergeResourceTypes(r[k].resourceTypes, mergePrivilege.resourceTypes);
        rts := SendEmptyToEndInPlace(rts);
        FirstNamedIn(ps, privilegesLength, mergePrivilege.privilege, k);
        r := r[k := r[k].(resourceTypes := rts)];
        found := true;
        break;
      }
      k := k + 1;
    }
    if !found {
      FirstNamedIn(ps, privilegesLength, mergePrivilege.privilege, privilegesLength);
      r := r + [mergePrivilege];
    }
  }

  method MergePrivileges(pi: seq<Privilege>, pj: seq<Privilege>) returns (r: seq<Privilege>)
    ensures r == MergedPrivileges(pi, pj)
  {
    r := pi;
    var privilegesLength := |r|;
    for m := 0 to |pj|
      invariant r == MergedPrivileges(pi, pj[..m])
    {
      assert pj[..m + 1][..m] == pj[..m];
      r := MergePrivilegeStep(r, privilegesLength, pj[m]);
    }
    assert pj[..|pj|] == pj;
  }

  // ---------------------------------------------------------------------
  // Resources (lines 91-102)
  // ---------------------------------------------------------------------

  predicate HasResource(rs: seq<Resource>, name: string) {
    exists k :: 0 <= k < |rs| && rs[k].resource == name
  }

  function FirstResource(rs: seq<Resource>, name: string): (r: Option<nat>)
    ensures r.None? <==> !HasResource(rs, name)
    ensures r.Some? ==> r.value < |rs| && rs[r.value].resource == name
    ensures r.Some? ==> forall k :: 0 <= k < r.value ==> rs[k].resource != name
  {
    if rs == [] then None
    else if rs[0].resource == name then Some(0)
    else match FirstResource(rs[1..], name)
      case None => None
      case Some(k) => Some(k + 1)
  }

  /** One round: a matched resource's keys become `list(set(old + new))`, else append. */
  function MergeResourceInto(rs: seq<Resource>, bound: nat, mr: Resource): seq<Resource>
    requires bound <= |rs|
  {
    match FirstResource(rs[..bound], mr.resource)
    case Some(k) => rs[k := rs[k].(conditionKeys := Distinct(rs[k].conditionKeys + mr.conditionKeys))]
    case None => rs + [mr]
  }

  function AbsentResources(ri: seq<Resource>, rj: seq<Resource>): seq<Resource> {
    if rj == [] then []
    else
      AbsentResources(ri, rj[..|rj| - 1])
      + (if HasResource(ri, rj[|rj| - 1].resource) then [] else [rj[|rj| - 1]])
  }

  /** A resource of the duplicate is appended exactly when no original resource has its name. */
  lemma {:induction false} AbsentResourcesMembers(ri: seq<Resource>, rj: seq<Resource>, x: Resource)
    ensures x in AbsentResources(ri, rj) <==> x in rj && !HasResource(ri, x.resource)
    decreases |rj|
  {
    if rj != [] {
      var init := rj[..|rj| - 1];
      AbsentResourcesMembers(ri, init, x);
      assert rj == init + [rj[|rj| - 1]];
    }
  }

  /** The condition keys of the resources of `rj` called `name`. */
  function NamedKeys(rj: seq<Resource>, name: string): set<string> {
    if rj == [] then {}
    else
      NamedKeys(rj[..|rj| - 1], name)
      + (if rj[|rj| - 1].resource == name then Elements(rj[|rj| - 1].conditionKeys) else {})
  }

  /**
   * The resources after the merge: the first |ri| keep name and ARN, and the
   * duplicate's resources with a new name are appended in order.
   */
  function MergedResources(ri: seq<Resource>, rj: seq<Resource>): (r: seq<Resource>)
    ensures |r| >= |ri|
    ensures forall k :: 0 <= k < |ri| ==> r[k].resource == ri[k].resource && r[k].arn == ri[k].arn
    ensures r[|ri|..] == AbsentResources(ri, rj)
    decreases |rj|
  {
    if rj == [] then ri
    else
      var acc := MergedResources(ri, rj[..|rj| - 1]);
      var mr := rj[|rj| - 1];
      assert HasResource(acc[..|ri|], mr.resource) <==> HasResource(ri, mr.resource) by {
        if HasResource(ri, mr.resource) {
          var k :| 0 <= k < |ri| && ri[k].resource == mr.resource;
          assert acc[..|ri|][k].resource == mr.resource;
        }
      }
      var r := MergeResourceInto(acc, |ri|, mr);
      assert r[|ri|..] == acc[|ri|..] + (if HasResource(ri, mr.resource) then [] else [mr]);
      r
  }

  /** One round of the resource merge, seen from original resource `k`. */
  lemma MergeResourceIntoKeys(acc: seq<Resource>, ri: seq<Resource>, mr: Resource, k: nat)
    requires k < |ri| <= |acc|
    requires forall z :: 0 <= z < |ri| ==> acc[z].resource == ri[z].resource
    ensures var r := MergeResourceInto(acc, |ri|, mr);
      k < |r| &&
      (FirstResource(ri, mr.resource) == Some(k) ==>
        Elements(r[k].conditionKeys) == Elements(acc[k].conditionKeys) + Elements(mr.conditionKeys)) &&
      (FirstResource(ri, mr.resource) != Some(k) ==> r[k] == acc[k])
  {
    SameNamesSameFirst(acc[..|ri|], ri, mr.resource);
    if FirstResource(ri, mr.resource) == Some(k) {
      assert Elements(acc[k].conditionKeys + mr.conditionKeys)
          == Elements(acc[k].conditionKeys) + Elements(mr.conditionKeys);
    }
  }

  /**
   * The condition keys of an original resource: the first resource of each name
   * ends with the set union of its own keys and those of every duplicate
   * resource of that name; any other original resource is unchanged.
   */
  lemma {:induction false} MergedResourceKeys(ri: seq<Resource>, rj: seq<Resource>, k: nat)
    requires k < |ri|
    ensures FirstResource(ri, ri[k].resource) == Some(k) ==>
      Elements(MergedResources(ri, rj)[k].conditionKeys)
        == Elements(ri[k].conditionKeys) + NamedKeys(rj, ri[k].resource)
    ensures FirstResource(ri, ri[k].resource) != Some(k) ==> MergedResources(ri, rj)[k] == ri[k]
    decreases |rj|
  {
    if rj != [] {
      var name := ri[k].resource;
      var init := rj[..|rj| - 1];
      MergedResourceKeys(ri, init, k);
      var acc := MergedResources(ri, init);
      var mr := rj[|rj| - 1];
      assert MergedResources(ri, rj) == MergeResourceInto(acc, |ri|, mr);
      MergeResourceIntoKeys(acc, ri, mr, k);
      assert NamedKeys(rj, name)
          == NamedKeys(init, name) + (if mr.resource == name then Elements(mr.conditionKeys) else {});
    }
  }

  lemma {:induction false} SameNamesSameFirst(a: seq<Resource>, b: seq<Resource>, name: string)
    requires |a| == |b| && forall k :: 0 <= k < |a| ==> a[k].resource == b[k].resource
    ensures FirstResource(a, name) == FirstResource(b, name)
  {
    if a != [] {
      SameNamesSameFirst(a[1..], b[1..], name);
    }
  }

  /** The first index named `name` is the one before which no resource has that name. */
  lemma FirstResourceAt(rs: seq<Resource>, name: string, k: nat)
    requires k <= |rs| && forall z :: 0 <= z < k ==> rs[z].resource != name
    ensures k < |rs| && rs[k].resource == name ==> FirstResource(rs, name) == Some(k)
    ensures k == |rs| ==> FirstResource(rs, name).None?
  {
    var f := FirstResource(rs, name);
    if k < |rs| && rs[k].resource == name {
      assert f.Some?;
      assert !(f.value < k) && !(k < f.value);
    }
  }

  /** One round of the outer loop: the `while k < resources_length` search. */
  method MergeResourceStep(rs: seq<Resource>, resourcesLength: nat, mergeResource: Resource)
    returns (r: seq<Resource>)
    requires resourcesLength <= |rs|
    ensures r == MergeResourceInto(rs, resourcesLength, mergeResource)
  {
    ghost var searched := rs[..resourcesLength];
    r := rs;
    var found := false;
    var k := 0;
    while k < resourcesLength
      invariant 0 <= k <= resourcesLength
      invariant !found && r == rs
      invariant forall z :: 0 <= z < k ==> searched[z].resource != mergeResource.resource
    {
      if r[k].resource == mergeResource.resource {
        FirstResourceAt(searched, mergeResource.resource, k);
        r := r[k := r[k].(conditionKeys := Distinct(r[k].conditionKeys + mergeResource.conditionKeys))];
        found := true;
        break;
      }
      k := k + 1;
    }
    if !found {
      FirstResourceAt(searched, mergeResource.resource, k);
      r := r + [mergeResource];
    }
  }

  method MergeResources(ri: seq<Resource>, rj: seq<Resource>) returns (r: seq<Resource>)
    ensures r == MergedResources(ri, rj)
  {
    r := ri;
    var resourcesLength := |r|;
    for m := 0 to |rj|
      invariant r == MergedResources(ri, rj[..m])
    {
      assert rj[..m + 1][..m] == rj[..m];
      r := MergeResourceStep(r, resourcesLength, rj[m]);
    }
    assert rj[..|rj|] == rj;
  }

  // ---------------------------------------------------------------------
  // One duplicate folded into the first-seen entry (lines 49-102)
  // ---------------------------------------------------------------------

  /** The special case of lines 51-53. */
  predicate IsSmsVoiceSpecialCase(d: Service) {
    d.prefix == "sms-voice" && d.serviceName == "Amazon Pinpoint SMS and Voice Service"
  }

  /** The duplicate as the merge sees it: the special case copies two fields of `cur`. */
  function Adjusted(cur: Service, d: Service): Service {
    if IsSmsVoiceSpecialCase(d) then d.(conditions := cur.conditions, resources := cur.resources) else d
  }

  predicate Mergeable(cur: Service, d: Service) {
    ConditionsMergeable(cur.conditions, Adjusted(cur, d).conditions)
  }

  /**
   * `cur` with duplicate `d` folded in. Prefix and service name are those of
   * `cur`, and whether `cur` has any conditions does not change.
   */
  function MergedService(cur: Service, d: Service): (r: Service)
    requires Mergeable(cur, d)
    ensures r.prefix == cur.prefix && r.serviceName == cur.serviceName
    ensures |r.conditions| == 0 <==> |cur.conditions| == 0
    ensures |r.privileges| >= |cur.privileges| && |r.resources| >= |cur.resources|
  {
    var d' := Adjusted(cur, d);
    cur.(conditions := MergedConditions(cur.conditions, d'.conditions),
         privileges := MergedPrivileges(cur.privileges, d'.privileges),
         resources := MergedResources(cur.resources, d'.resources))
  }

  method MergeService(cur: Service, d: Service) returns (r: Service)
    requires Mergeable(cur, d)
    ensures r == MergedService(cur, d)
  {
    var dup := d;
    if dup.prefix == "sms-voice" && dup.serviceName == "Amazon Pinpoint SMS and Voice Service" {
      dup := dup.(conditions := cur.conditions, resources := cur.resources);
    }
    var conditions := MergeConditions(cur.conditions, dup.conditions);
    var privileges := MergePrivileges(cur.privileges, dup.privileges);
    var resources := MergeResources(cur.resources, dup.resources);
    r := cur.(conditions := conditions, privileges := privileges, resources := resources);
  }
}
