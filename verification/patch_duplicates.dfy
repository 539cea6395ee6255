/**
 * Step 2 of aws_patch_iam_definition.py (lines 45-108): every later entry
 * whose prefix equals an earlier one is folded into the first-seen entry and
 * removed with `pop(j)`, so each prefix survives once, at its first position.
 *
 * The list surgery (grouping, popping, the two loops) is proved for an
 * arbitrary merge `step`, so those proofs do not depend on what a merge does
 * to the fields; `MergeStep` plugs in the merge of `PatchMerge`.
 */
module PatchDuplicates {
  import opened Basics
  import opened IamDefinition
  import opened PatchMerge

  /** Every duplicate in `ds` can be folded into `cur` (see `PatchMerge.Mergeable`). */
  predicate FoldReady(cur: Service, ds: seq<Service>) {
    forall k :: 0 <= k < |ds| ==> Mergeable(cur, ds[k])
  }

  /**
   * Whether a duplicate can be folded in depends on the target only through
   * whether it has conditions, which folding does not change.
   */
  lemma MergeableKeep(a: Service, b: Service, ds: seq<Service>)
    requires |a.conditions| == 0 <==> |b.conditions| == 0
    requires FoldReady(a, ds)
    ensures FoldReady(b, ds)
  {
    forall k | 0 <= k < |ds| ensures Mergeable(b, ds[k]) {
      assert Mergeable(a, ds[k]);
    }
  }

  /** `ds` folded into `cur` one after the other, in catalogue order. */
  function Fold(step: (Service, Service) -> Service, cur: Service, ds: seq<Service>): Service
    decreases |ds|
  {
    if ds == [] then cur else Fold(step, step(cur, ds[0]), ds[1..])
  }

  /**
   * One duplicate merged into the first-seen entry. A pair the loop cannot
   * process (not `Mergeable`) leaves the entry as it is; `MergeReady` rules
   * such pairs out wherever the loop runs.
   */
  function MergeStep(cur: Service, d: Service): Service {
    if Mergeable(cur, d) then MergedService(cur, d) else cur
  }

  function FoldMerge(cur: Service, ds: seq<Service>): Service {
    Fold(MergeStep, cur, ds)
  }

  /** On a ready list every step is a real merge. */
  lemma FoldMergeCons(cur: Service, ds: seq<Service>)
    requires ds != [] && FoldReady(cur, ds)
    ensures Mergeable(cur, ds[0])
    ensures FoldReady(MergedService(cur, ds[0]), ds[1..])
    ensures FoldMerge(cur, ds) == FoldMerge(MergedService(cur, ds[0]), ds[1..])
  {
    MergeableKeep(cur, MergedService(cur, ds[0]), ds[1..]);
  }

  /** Folding keeps the prefix, the service name and whether there are conditions, and only adds. */
  lemma {:induction false} FoldMergeKeeps(cur: Service, ds: seq<Service>)
    ensures var r := FoldMerge(cur, ds);
      r.prefix == cur.prefix && r.serviceName == cur.serviceName &&
      (|r.conditions| == 0 <==> |cur.conditions| == 0) &&
      |r.privileges| >= |cur.privileges| && |r.resources| >= |cur.resources|
    decreases |ds|
  {
    if ds != [] {
      FoldMergeKeeps(MergeStep(cur, ds[0]), ds[1..]);
    }
  }

  // ---------------------------------------------------------------------
  // The merged catalogue
  // ---------------------------------------------------------------------

  /**
   * The entries grouped by prefix: one group per distinct prefix, in order of
   * first occurrence, each holding that prefix's entries in catalogue order.
   */
  function Groups(s: seq<Service>): (g: seq<seq<Service>>)
    ensures |g| <= |s|
    ensures forall k :: 0 <= k < |g| ==> g[k] != []
    decreases |s|
  {
    if s == [] then []
    else
      var p := s[0].prefix;
      [[s[0]] + WithPrefix(s[1..], p)] + Groups(WithoutPrefix(s[1..], p))
  }

  /** The loop's precondition: each group can be folded into its first entry. */
  predicate MergeReady(s: seq<Service>) {
    forall k :: 0 <= k < |Groups(s)| ==> FoldReady(Groups(s)[k][0], Groups(s)[k][1..])
  }

  /** Each group folded into its first entry with `step`. */
  function MergeGroups(step: (Service, Service) -> Service, s: seq<Service>): (r: seq<Service>)
    ensures |r| == |Groups(s)|
  {
    var g := Groups(s);
    seq(|g|, k requires 0 <= k < |g| => Fold(step, g[k][0], g[k][1..]))
  }

  /** The catalogue after the merge loop. */
  function MergeAll(s: seq<Service>): (r: seq<Service>)
    requires MergeReady(s)
    ensures |r| <= |s|
  {
    MergeGroups(MergeStep, s)
  }

  /** The recursive reading of the loop: merge the first group, then the rest. */
  lemma MergeGroupsCons(step: (Service, Service) -> Service, s: seq<Service>)
    requires s != []
    ensures var p := s[0].prefix;
      MergeGroups(step, s)
        == [Fold(step, s[0], WithPrefix(s[1..], p))] + MergeGroups(step, WithoutPrefix(s[1..], p))
  {
    var p := s[0].prefix;
    var w := WithoutPrefix(s[1..], p);
    var g := Groups(s);
    var gw := Groups(w);
    assert g == [[s[0]] + WithPrefix(s[1..], p)] + gw;
    assert g[0][0] == s[0] && g[0][1..] == WithPrefix(s[1..], p);
    var r := MergeGroups(step, s);
    var rw := MergeGroups(step, w);
    forall k | 0 <= k < |rw| ensures r[k + 1] == rw[k] {
      assert g[k + 1] == gw[k];
    }
    assert r == [r[0]] + rw;
  }

  /** The first group is the first entry and the later entries with its prefix. */
  lemma MergeReadyCons(s: seq<Service>)
    requires s != [] && MergeReady(s)
    ensures FoldReady(s[0], WithPrefix(s[1..], s[0].prefix))
    ensures MergeReady(WithoutPrefix(s[1..], s[0].prefix))
  {
    var w := WithoutPrefix(s[1..], s[0].prefix);
    var g := Groups(s);
    assert g[0] == [s[0]] + WithPrefix(s[1..], s[0].prefix);
    assert g[0][1..] == WithPrefix(s[1..], s[0].prefix);
    forall k | 0 <= k < |Groups(w)| ensures FoldReady(Groups(w)[k][0], Groups(w)[k][1..]) {
      assert Groups(w)[k] == g[k + 1];
    }
  }

  lemma {:induction false} WithPrefixOfWithout(s: seq<Service>, p: string, q: string)
    requires p != q
    ensures WithPrefix(WithoutPrefix(s, p), q) == WithPrefix(s, q)
  {
    if s != [] {
      WithPrefixOfWithout(s[1..], p, q);
      WithPrefixConcat(if s[0].prefix == p then [] else [s[0]], WithoutPrefix(s[1..], p), q);
    }
  }

  /** The groups' prefixes are the distinct prefixes of the input, in order of first occurrence. */
  lemma {:induction false} GroupPrefixes(s: seq<Service>)
    ensures |Groups(s)| == |Distinct(Prefixes(s))|
    ensures forall k :: 0 <= k < |Groups(s)| ==> Groups(s)[k][0].prefix == Distinct(Prefixes(s))[k]
    decreases |s|
  {
    if s != [] {
      var p := s[0].prefix;
      var w := WithoutPrefix(s[1..], p);
      GroupPrefixes(w);
      PrefixesWithout(s[1..], p);
      assert Prefixes(s)[0] == p && Prefixes(s)[1..] == Prefixes(s[1..]);
    }
  }

  /** Each group is exactly the entries carrying its prefix. */
  lemma {:induction false} GroupIsWithPrefix(s: seq<Service>, k: nat)
    requires k < |Groups(s)|
    ensures Groups(s)[k] == WithPrefix(s, Groups(s)[k][0].prefix)
    decreases |s|
  {
    var p := s[0].prefix;
    var w := WithoutPrefix(s[1..], p);
    if k > 0 {
      GroupIsWithPrefix(w, k - 1);
      var q := Groups(w)[k - 1][0].prefix;
      assert q != p by {
        GroupPrefixes(w);
        PrefixesWithout(s[1..], p);
        assert q in Distinct(Prefixes(w));
      }
      WithPrefixOfWithout(s[1..], p, q);
    }
  }

  /**
   * After the merge the prefixes are the distinct prefixes of the input in
   * order of first occurrence: every prefix survives, once, where it first
   * appeared, and surviving entries keep their relative order.
   */
  lemma MergeAllPrefixes(s: seq<Service>)
    requires MergeReady(s)
    ensures Prefixes(MergeAll(s)) == Distinct(Prefixes(s))
  {
    GroupPrefixes(s);
    var g: seq<seq<Service>> := Groups(s);
    forall k | 0 <= k < |g| ensures MergeAll(s)[k].prefix == g[k][0].prefix {
      FoldMergeKeeps(g[k][0], g[k][1..]);
    }
  }

  /** After the merge no two entries share a prefix, and no prefix is lost or invented. */
  lemma MergeAllUnique(s: seq<Service>)
    requires MergeReady(s)
    ensures UniquePrefixes(MergeAll(s))
    ensures forall q :: HasPrefix(MergeAll(s), q) <==> HasPrefix(s, q)
  {
    MergeAllPrefixes(s);
    DistinctPrefixes(MergeAll(s), s);
  }

  lemma DistinctPrefixes(r: seq<Service>, s: seq<Service>)
    requires Prefixes(r) == Distinct(Prefixes(s))
    ensures UniquePrefixes(r)
    ensures forall q :: HasPrefix(r, q) <==> HasPrefix(s, q)
  {
    forall i, j | 0 <= i < j < |r| ensures r[i].prefix != r[j].prefix {
      assert Prefixes(r)[i] == r[i].prefix && Prefixes(r)[j] == r[j].prefix;
    }
    forall q ensures HasPrefix(r, q) <==> HasPrefix(s, q) {
      if HasPrefix(r, q) {
        var k :| 0 <= k < |r| && r[k].prefix == q;
        assert Prefixes(r)[k] == q;
        assert q in Prefixes(s);
      }
      if HasPrefix(s, q) {
        var k :| 0 <= k < |s| && s[k].prefix == q;
        assert Prefixes(s)[k] == q;
        assert q in Distinct(Prefixes(s));
        var m :| 0 <= m < |Prefixes(r)| && Prefixes(r)[m] == q;
      }
    }
  }

  /**
   * The surviving entry of a prefix is the first-seen entry of that prefix
   * with every later entry of the prefix merged in, in catalogue order.
   */
  lemma MergeAllEntry(s: seq<Service>, k: nat)
    requires MergeReady(s) && k < |MergeAll(s)|
    ensures var grp := WithPrefix(s, MergeAll(s)[k].prefix);
      grp != [] && FoldReady(grp[0], grp[1..]) && MergeAll(s)[k] == FoldMerge(grp[0], grp[1..])
  {
    var g := Groups(s);
    GroupIsWithPrefix(s, k);
    FoldMergeKeeps(g[k][0], g[k][1..]);
  }

  lemma {:induction false} GroupsOfUnique(s: seq<Service>)
    requires UniquePrefixes(s)
    ensures |Groups(s)| == |s|
    ensures forall k :: 0 <= k < |s| ==> Groups(s)[k] == [s[k]]
    decreases |s|
  {
    if s != [] {
      var p := s[0].prefix;
      WithoutAbsentPrefix(s[1..], p);
      assert UniquePrefixes(s[1..]) by {
        forall i, j | 0 <= i < j < |s[1..]| ensures s[1..][i].prefix != s[1..][j].prefix {
          assert s[1..][i] == s[i + 1] && s[1..][j] == s[j + 1];
        }
      }
      GroupsOfUnique(s[1..]);
    }
  }

  /** A catalogue without duplicate prefixes is left as it is. */
  lemma MergeAllUniqueNoOp(s: seq<Service>)
    requires UniquePrefixes(s)
    ensures MergeReady(s) && MergeAll(s) == s
  {
    GroupsOfUnique(s);
    assert forall k :: 0 <= k < |s| ==> Groups(s)[k][0] == s[k] && Groups(s)[k][1..] == [];
  }

  /** Running the merge loop a second time changes nothing. */
  lemma MergeAllIdempotent(s: seq<Service>)
    requires MergeReady(s)
    ensures MergeReady(MergeAll(s)) && MergeAll(MergeAll(s)) == MergeAll(s)
  {
    MergeAllUnique(s);
    MergeAllUniqueNoOp(MergeAll(s));
  }

  // ---------------------------------------------------------------------
  // The loops
  // ---------------------------------------------------------------------

  /**
   * The state of the inner loop for entry `i` with the scan at `j`: entries
   * before `i` untouched, the later entries passed over carry another prefix,
   * the duplicates still ahead can be merged, and folding them into entry `i`
   * gives the final entry.
   */
  ghost predicate Absorbing(step: (Service, Service) -> Service, catalogue: seq<Service>, i: nat, r: seq<Service>, j: nat) {
    i < |catalogue| && i < j <= |r| &&
    TargetKept(catalogue, i, r) && PassedOver(catalogue, i, r, j) && StillAhead(step, catalogue, i, r, j)
  }

  /** Entries before `i` are untouched; entry `i` keeps its prefix and whether it has conditions. */
  ghost predicate TargetKept(catalogue: seq<Service>, i: nat, r: seq<Service>)
    requires i < |catalogue| && i < |r|
  {
    r[..i] == catalogue[..i] && r[i].prefix == catalogue[i].prefix &&
    (|r[i].conditions| == 0 <==> |catalogue[i].conditions| == 0)
  }

  /** The entries between `i` and the scan carry other prefixes and are the survivors so far. */
  ghost predicate PassedOver(catalogue: seq<Service>, i: nat, r: seq<Service>, j: nat)
    requires i < |catalogue| && i < j <= |r|
  {
    (forall z :: i < z < j ==> r[z].prefix != catalogue[i].prefix) &&
    WithoutPrefix(catalogue[i + 1..], catalogue[i].prefix) == r[i + 1..j] + WithoutPrefix(r[j..], catalogue[i].prefix)
  }

  /** The duplicates still ahead can be merged, and folding them into entry `i` gives the final entry. */
  ghost predicate StillAhead(step: (Service, Service) -> Service, catalogue: seq<Service>, i: nat, r: seq<Service>, j: nat)
    requires i < |catalogue| && i < j <= |r|
  {
    FoldReady(catalogue[i], WithPrefix(r[j..], catalogue[i].prefix)) &&
    Fold(step, r[i], WithPrefix(r[j..], catalogue[i].prefix))
      == Fold(step, catalogue[i], WithPrefix(catalogue[i + 1..], catalogue[i].prefix))
  }

  lemma AbsorbingInit(step: (Service, Service) -> Service, catalogue: seq<Service>, i: nat)
    requires i < |catalogue|
    requires FoldReady(catalogue[i], WithPrefix(catalogue[i + 1..], catalogue[i].prefix))
    ensures Absorbing(step, catalogue, i, catalogue, i + 1)
  {
    assert catalogue[i + 1..i + 1] == [];
  }

  lemma AbsorbingSkip(step: (Service, Service) -> Service, catalogue: seq<Service>, i: nat, r: seq<Service>, j: nat)
    requires Absorbing(step, catalogue, i, r, j) && j < |r| && r[j].prefix != catalogue[i].prefix
    ensures Absorbing(step, catalogue, i, r, j + 1)
  {
    SkipPassedOver(catalogue, i, r, j);
    SkipStillAhead(step, catalogue, i, r, j);
  }

  lemma SkipPassedOver(catalogue: seq<Service>, i: nat, r: seq<Service>, j: nat)
    requires i < |catalogue| && i < j < |r| && PassedOver(catalogue, i, r, j) && r[j].prefix != catalogue[i].prefix
    ensures PassedOver(catalogue, i, r, j + 1)
  {
    var p := catalogue[i].prefix;
    assert r[j..] == [r[j]] + r[j + 1..];
    assert WithoutPrefix(r[j..], p) == [r[j]] + WithoutPrefix(r[j + 1..], p);
    assert r[i + 1..j + 1] == r[i + 1..j] + [r[j]];
  }

  lemma SkipStillAhead(step: (Service, Service) -> Service, catalogue: seq<Service>, i: nat, r: seq<Service>, j: nat)
    requires i < |catalogue| && i < j < |r| && StillAhead(step, catalogue, i, r, j) && r[j].prefix != catalogue[i].prefix
    ensures StillAhead(step, catalogue, i, r, j + 1)
  {
    var p := catalogue[i].prefix;
    assert r[j..] == [r[j]] + r[j + 1..];
    assert WithPrefix(r[j..], p) == WithPrefix(r[j + 1..], p);
  }

  lemma AbsorbingMergeable(step: (Service, Service) -> Service, catalogue: seq<Service>, i: nat, r: seq<Service>, j: nat)
    requires Absorbing(step, catalogue, i, r, j) && j < |r| && r[j].prefix == catalogue[i].prefix
    ensures Mergeable(r[i], r[j])
  {
    var p := catalogue[i].prefix;
    assert r[j..] == [r[j]] + r[j + 1..];
    assert WithPrefix(r[j..], p)[0] == r[j];
    assert Mergeable(catalogue[i], r[j]);
  }

  lemma AbsorbingMerge(step: (Service, Service) -> Service, catalogue: seq<Service>, i: nat, r: seq<Service>, j: nat,
                       merged: Service, r': seq<Service>)
    requires Absorbing(step, catalogue, i, r, j) && j < |r| && r[j].prefix == catalogue[i].prefix
    requires merged == step(r[i], r[j]) && merged.prefix == r[i].prefix
    requires |merged.conditions| == 0 <==> |r[i].conditions| == 0
    requires r' == r[i := merged][..j] + r[i := merged][j + 1..]
    ensures Absorbing(step, catalogue, i, r', j)
  {
    assert |r'| == |r| - 1;
    assert r'[..i] == r[..i];
    assert r'[i] == merged;
    assert r'[i + 1..j] == r[i + 1..j];
    assert r'[j..] == r[j + 1..];
    MergePassedOver(catalogue, i, r, j, r');
    MergeStillAhead(step, catalogue, i, r, j, merged, r');
  }

  lemma MergePassedOver(catalogue: seq<Service>, i: nat, r: seq<Service>, j: nat, r': seq<Service>)
    requires i < |catalogue| && i < j < |r| && PassedOver(catalogue, i, r, j) && r[j].prefix == catalogue[i].prefix
    requires |r'| == |r| - 1 && r'[i + 1..j] == r[i + 1..j] && r'[j..] == r[j + 1..]
    ensures PassedOver(catalogue, i, r', j)
  {
    var p := catalogue[i].prefix;
    assert r[j..] == [r[j]] + r[j + 1..];
    assert WithoutPrefix(r[j..], p) == WithoutPrefix(r[j + 1..], p);
    forall z | i < z < j ensures r'[z].prefix != p {
      assert r'[z] == r'[i + 1..j][z - i - 1] == r[i + 1..j][z - i - 1] == r[z];
    }
  }

  lemma MergeStillAhead(step: (Service, Service) -> Service, catalogue: seq<Service>, i: nat, r: seq<Service>, j: nat,
                        merged: Service, r': seq<Service>)
    requires i < |catalogue| && i < j < |r| && StillAhead(step, catalogue, i, r, j) && r[j].prefix == catalogue[i].prefix
    requires merged == step(r[i], r[j])
    requires |r'| == |r| - 1 && r'[i] == merged && r'[j..] == r[j + 1..]
    ensures StillAhead(step, catalogue, i, r', j)
  {
    var p := catalogue[i].prefix;
    assert r[j..] == [r[j]] + r[j + 1..];
    var ahead := WithPrefix(r[j + 1..], p);
    assert WithPrefix(r[j..], p) == [r[j]] + ahead;
    assert FoldReady(catalogue[i], ahead) by {
      forall k | 0 <= k < |ahead| ensures Mergeable(catalogue[i], ahead[k]) {
        assert ahead[k] == WithPrefix(r[j..], p)[k + 1];
      }
    }
    assert Fold(step, r[i], [r[j]] + ahead) == Fold(step, merged, ahead) by {
      assert ([r[j]] + ahead)[0] == r[j] && ([r[j]] + ahead)[1..] == ahead;
    }
  }

  lemma AbsorbingDone(step: (Service, Service) -> Service, catalogue: seq<Service>, i: nat, r: seq<Service>)
    requires Absorbing(step, catalogue, i, r, |r|)
    ensures var p := catalogue[i].prefix;
      |r| == i + 1 + |WithoutPrefix(catalogue[i + 1..], p)| &&
      r[..i] == catalogue[..i] &&
      r[i] == Fold(step, catalogue[i], WithPrefix(catalogue[i + 1..], p)) &&
      r[i + 1..] == WithoutPrefix(catalogue[i + 1..], p)
  {
    assert r[|r|..] == [];
    assert r[i + 1..|r|] == r[i + 1..];
  }

  /** The inner loop's state with the merge of `PatchMerge` as the step. */
  ghost predicate Scanning(catalogue: seq<Service>, i: nat, r: seq<Service>, j: nat) {
    Absorbing(MergeStep, catalogue, i, r, j)
  }

  /** Entry `j` merged into entry `i`, then `pop(j)`. */
  method MergeAndPop(catalogue: seq<Service>, i: nat, r: seq<Service>, j: nat) returns (r': seq<Service>)
    requires Scanning(catalogue, i, r, j) && j < |r| && r[i].prefix == r[j].prefix
    ensures |r'| == |r| - 1
    ensures Scanning(catalogue, i, r', j)
  {
    AbsorbingMergeable(MergeStep, catalogue, i, r, j);
    var merged := MergeService(r[i], r[j]);
    r' := r[i := merged];
    r' := r'[..j] + r'[j + 1..];
    AbsorbingMerge(MergeStep, catalogue, i, r, j, merged, r');
  }

  /** Entry `j` carries another prefix: the scan moves past it. */
  lemma SkipOther(catalogue: seq<Service>, i: nat, r: seq<Service>, j: nat, next: nat)
    requires Scanning(catalogue, i, r, j) && j < |r| && r[i].prefix != r[j].prefix && next == j + 1
    ensures Scanning(catalogue, i, r, next)
  {
    AbsorbingSkip(MergeStep, catalogue, i, r, j);
  }

  /**
   * The inner `while j < len(iam_def)` loop for a fixed `i`: each later entry
   * with the same prefix is merged into entry `i` and popped.
   */
  method AbsorbDuplicates(catalogue: seq<Service>, i: nat) returns (r: seq<Service>)
    requires i < |catalogue|
    requires FoldReady(catalogue[i], WithPrefix(catalogue[i + 1..], catalogue[i].prefix))
    ensures |r| == i + 1 + |WithoutPrefix(catalogue[i + 1..], catalogue[i].prefix)|
    ensures r[..i] == catalogue[..i]
    ensures r[i] == FoldMerge(catalogue[i], WithPrefix(catalogue[i + 1..], catalogue[i].prefix))
    ensures r[i + 1..] == WithoutPrefix(catalogue[i + 1..], catalogue[i].prefix)
  {
    r := catalogue;
    var j: nat := i + 1;
    AbsorbingInit(MergeStep, catalogue, i);
    while j < |r|
      invariant Scanning(catalogue, i, r, j)
      decreases |r| - j
    {
      if r[i].prefix == r[j].prefix {
        r := MergeAndPop(catalogue, i, r, j);
        // `j -= 1` followed by `j += 1` leaves j in place
      } else {
        var next := j + 1;
        SkipOther(catalogue, i, r, j, next);
        j := next;
      }
    }
    AbsorbingDone(MergeStep, catalogue, i, r);
    assert r[i] == FoldMerge(catalogue[i], WithPrefix(catalogue[i + 1..], catalogue[i].prefix));
  }

  /** One round of the outer loop, in terms of `MergeGroups`. */
  lemma MergeGroupsStep(step: (Service, Service) -> Service, before: seq<Service>, r: seq<Service>, i: nat)
    requires i < |before|
    requires var p := before[i].prefix;
      i < |r| && r[..i] == before[..i] &&
      r[i] == Fold(step, before[i], WithPrefix(before[i + 1..], p)) &&
      r[i + 1..] == WithoutPrefix(before[i + 1..], p)
    ensures before[..i] + MergeGroups(step, before[i..]) == r[..i + 1] + MergeGroups(step, r[i + 1..])
  {
    var t := before[i..];
    assert t[0] == before[i] && t[1..] == before[i + 1..];
    MergeGroupsCons(step, t);
    assert r[..i + 1] == before[..i] + [r[i]];
  }

  /** The outer `while i < len(iam_def)` loop. */
  method MergeDuplicates(catalogue: seq<Service>) returns (r: seq<Service>)
    requires MergeReady(catalogue)
    ensures r == MergeAll(catalogue)
  {
    r := catalogue;
    var i := 0;
    assert r[..0] == [] && r[0..] == catalogue;
    while i < |r|
      invariant i <= |r|
      invariant MergeReady(r[i..])
      invariant MergeGroups(MergeStep, catalogue) == r[..i] + MergeGroups(MergeStep, r[i..])
      decreases |r| - i
    {
      ghost var before := r;
      assert r[i..][0] == r[i] && r[i..][1..] == r[i + 1..];
      MergeReadyCons(r[i..]);
      r := AbsorbDuplicates(r, i);
      MergeGroupsStep(MergeStep, before, r, i);
      i := i + 1;
    }
    assert r[..i] == r;
  }
}
