/**
 * Step 5 of aws_patch_iam_definition.py (lines 203-208): each access level
 * override `service:Method -> level` sets the access level of every
 * privilege of a `service` entry whose name equals `Method` ignoring case.
 */
module PatchOverrides {
  import opened Basics
  import opened Strings
  import opened IamDefinition

  /** The items of access_level_overrides.json in order: (key, access level). */
  type Override = (string, string)

  /**
   * Whether `k.split(":")[1]` on line 207 is defined whenever it is reached:
   * it is evaluated only for a privilege of an entry whose prefix is the key's
   * first part, and raises when the key has no ':'.
   */
  predicate KeyUsable(catalogue: seq<Service>, key: string) {
    ':' in key || forall i :: 0 <= i < |catalogue| && catalogue[i].prefix == key ==> |catalogue[i].privileges| == 0
  }

  predicate AllUsable(catalogue: seq<Service>, overrides: seq<Override>) {
    forall o :: 0 <= o < |overrides| ==> KeyUsable(catalogue, overrides[o].0)
  }

  /** Whether the override key applies to privilege `p` of entry `s`. */
  predicate Matches(s: Service, p: Privilege, key: string) {
    ':' in key && s.prefix == Head(key, ':') && Lower(p.privilege) == Lower(Second(key, ':'))
  }

  function OverriddenEntry(s: Service, key: string, level: string): Service {
    s.(privileges := seq(|s.privileges|, j requires 0 <= j < |s.privileges| =>
      if Matches(s, s.privileges[j], key) then s.privileges[j].(accessLevel := level) else s.privileges[j]))
  }

  /** The catalogue after one override. */
  function OverrideAll(catalogue: seq<Service>, key: string, level: string): (r: seq<Service>)
    ensures |r| == |catalogue|
    ensures forall i :: 0 <= i < |r| ==> r[i].prefix == catalogue[i].prefix
  {
    seq(|catalogue|, i requires 0 <= i < |catalogue| => OverriddenEntry(catalogue[i], key, level))
  }

  /** The catalogue after every override, in order. */
  function ApplyOverrides(catalogue: seq<Service>, overrides: seq<Override>): (r: seq<Service>)
    ensures |r| == |catalogue|
    ensures forall i :: 0 <= i < |r| ==> r[i].prefix == catalogue[i].prefix
  {
    if overrides == [] then catalogue
    else
      var o := overrides[|overrides| - 1];
      OverrideAll(ApplyOverrides(catalogue, overrides[..|overrides| - 1]), o.0, o.1)
  }

  /** The level of the last override that applies to privilege `p` of entry `s`. */
  function LastMatch(s: Service, p: Privilege, overrides: seq<Override>): (r: Option<string>)
    ensures r.None? <==> forall o :: 0 <= o < |overrides| ==> !Matches(s, p, overrides[o].0)
  {
    if overrides == [] then None
    else if Matches(s, p, overrides[|overrides| - 1].0) then Some(overrides[|overrides| - 1].1)
    else
      var init := overrides[..|overrides| - 1];
      assert forall o :: 0 <= o < |init| ==> init[o] == overrides[o];
      LastMatch(s, p, init)
  }

  /** The value of the last element of `xs` that `hit` accepts, if any. */
  function LastHit<T>(xs: seq<(T, string)>, hit: T -> bool): Option<string> {
    if xs == [] then None
    else if hit(xs[|xs| - 1].0) then Some(xs[|xs| - 1].1)
    else LastHit(xs[..|xs| - 1], hit)
  }

  lemma {:induction false} LastHitIsLast<T>(xs: seq<(T, string)>, hit: T -> bool)
    ensures LastHit(xs, hit).Some? ==>
      exists o :: 0 <= o < |xs| && hit(xs[o].0) && LastHit(xs, hit).value == xs[o].1 &&
                  forall u :: o < u < |xs| ==> !hit(xs[u].0)
    decreases |xs|
  {
    if xs != [] && !hit(xs[|xs| - 1].0) {
      var init := xs[..|xs| - 1];
      LastHitIsLast(init, hit);
      if LastHit(init, hit).Some? {
        var o :| 0 <= o < |init| && hit(init[o].0) && LastHit(init, hit).value == init[o].1 &&
                 forall u :: o < u < |init| ==> !hit(init[u].0);
        assert init[o] == xs[o];
        forall u | o < u < |xs| ensures !hit(xs[u].0) {
          if u < |init| {
            assert init[u] == xs[u];
          }
        }
      }
    }
  }

  lemma {:induction false} LastMatchIsLastHit(s: Service, p: Privilege, overrides: seq<Override>)
    ensures LastMatch(s, p, overrides) == LastHit(overrides, key => Matches(s, p, key))
    decreases |overrides|
  {
    if overrides != [] {
      LastMatchIsLastHit(s, p, overrides[..|overrides| - 1]);
    }
  }

  /** Later overrides win: a level found is that of the last override matching the privilege. */
  lemma LastMatchIsLast(s: Service, p: Privilege, overrides: seq<Override>)
    ensures LastMatch(s, p, overrides).Some? ==>
      exists o :: 0 <= o < |overrides| && Matches(s, p, overrides[o].0) &&
                  LastMatch(s, p, overrides).value == overrides[o].1 &&
                  forall u :: o < u < |overrides| ==> !Matches(s, p, overrides[u].0)
  {
    var hit := key => Matches(s, p, key);
    LastMatchIsLastHit(s, p, overrides);
    LastHitIsLast(overrides, hit);
    if LastMatch(s, p, overrides).Some? {
      var o :| 0 <= o < |overrides| && hit(overrides[o].0) && LastHit(overrides, hit).value == overrides[o].1 &&
               forall u :: o < u < |overrides| ==> !hit(overrides[u].0);
      assert Matches(s, p, overrides[o].0);
    }
  }

  /** Entry `i` after the overrides: the same entry, with each privilege's level set by the last matching override. */
  predicate OverriddenAs(before: Service, after: Service, overrides: seq<Override>) {
    after.prefix == before.prefix && after.serviceName == before.serviceName &&
    after.conditions == before.conditions && after.resources == before.resources &&
    |after.privileges| == |before.privileges| &&
    forall j :: 0 <= j < |before.privileges| ==>
      after.privileges[j] == match LastMatch(before, before.privileges[j], overrides)
        case None => before.privileges[j]
        case Some(level) => before.privileges[j].(accessLevel := level)
  }

  /**
   * The last override that matches a privilege decides its access level;
   * one that no override matches keeps it; nothing else changes.
   */
  lemma {:induction false} ApplyOverridesLastWins(catalogue: seq<Service>, overrides: seq<Override>, i: nat)
    requires i < |catalogue|
    ensures OverriddenAs(catalogue[i], ApplyOverrides(catalogue, overrides)[i], overrides)
    decreases |overrides|
  {
    if overrides != [] {
      var init := overrides[..|overrides| - 1];
      var o := overrides[|overrides| - 1];
      var mid := ApplyOverrides(catalogue, init)[i];
      ApplyOverridesLastWins(catalogue, init, i);
      var after := ApplyOverrides(catalogue, overrides)[i];
      assert after == OverriddenEntry(mid, o.0, o.1);
      forall j | 0 <= j < |catalogue[i].privileges|
        ensures after.privileges[j] == match LastMatch(catalogue[i], catalogue[i].privileges[j], overrides)
          case None => catalogue[i].privileges[j]
          case Some(level) => catalogue[i].privileges[j].(accessLevel := level)
      {
        assert Matches(mid, mid.privileges[j], o.0) == Matches(catalogue[i], catalogue[i].privileges[j], o.0);
      }
    }
  }

  /** Overrides keep the prefixes, hence their order and uniqueness. */
  lemma ApplyOverridesPrefixes(catalogue: seq<Service>, overrides: seq<Override>)
    ensures Prefixes(ApplyOverrides(catalogue, overrides)) == Prefixes(catalogue)
  {
    forall i | 0 <= i < |catalogue| ensures ApplyOverrides(catalogue, overrides)[i].prefix == catalogue[i].prefix {
      ApplyOverridesLastWins(catalogue, overrides, i);
    }
  }

  /** Applying the overrides a second time changes nothing. */
  lemma ApplyOverridesIdempotent(catalogue: seq<Service>, overrides: seq<Override>)
    ensures ApplyOverrides(ApplyOverrides(catalogue, overrides), overrides) == ApplyOverrides(catalogue, overrides)
  {
    var once := ApplyOverrides(catalogue, overrides);
    var twice := ApplyOverrides(once, overrides);
    forall i | 0 <= i < |catalogue| ensures twice[i] == once[i] {
      ApplyOverridesLastWins(catalogue, overrides, i);
      ApplyOverridesLastWins(once, overrides, i);
      forall j | 0 <= j < |once[i].privileges| ensures twice[i].privileges[j] == once[i].privileges[j] {
        assert forall o :: 0 <= o < |overrides| ==>
          (Matches(once[i], once[i].privileges[j], overrides[o].0) <==>
           Matches(catalogue[i], catalogue[i].privileges[j], overrides[o].0));
        SameMatches(once[i], once[i].privileges[j], catalogue[i], catalogue[i].privileges[j], overrides);
      }
    }
  }

  /** `LastMatch` depends only on which overrides match. */
  lemma {:induction false} SameMatches(s: Service, p: Privilege, s': Service, p': Privilege, overrides: seq<Override>)
    requires forall o :: 0 <= o < |overrides| ==> (Matches(s, p, overrides[o].0) <==> Matches(s', p', overrides[o].0))
    ensures LastMatch(s, p, overrides) == LastMatch(s', p', overrides)
    decreases |overrides|
  {
    if overrides != [] {
      SameMatches(s, p, s', p', overrides[..|overrides| - 1]);
    }
  }

  // ---------------------------------------------------------------------
  // The loops
  // ---------------------------------------------------------------------

  /** The two inner loops for one override. */
  method OverrideKey(catalogue: seq<Service>, key: string, level: string) returns (r: seq<Service>)
    requires KeyUsable(catalogue, key)
    ensures r == OverrideAll(catalogue, key, level)
  {
    r := catalogue;
    for i := 0 to |r|
      invariant |r| == |catalogue|
      invariant forall z :: 0 <= z < i ==> r[z] == OverriddenEntry(catalogue[z], key, level)
      invariant forall z :: i <= z < |r| ==> r[z] == catalogue[z]
    {
      if r[i].prefix == Head(key, ':') {
        var ps := r[i].privileges;
        for j := 0 to |ps|
          invariant |ps| == |catalogue[i].privileges|
          invariant forall z :: 0 <= z < j ==> ps[z] == OverriddenEntry(catalogue[i], key, level).privileges[z]
          invariant forall z :: j <= z < |ps| ==> ps[z] == catalogue[i].privileges[z]
        {
          if Lower(ps[j].privilege) == Lower(Second(key, ':')) {
            ps := ps[j := ps[j].(accessLevel := level)];
          }
        }
        r := r[i := r[i].(privileges := ps)];
      }
    }
  }

  /** Overrides keep every entry's prefix and privilege count, so every key stays usable. */
  lemma OverrideKeepsUsable(catalogue: seq<Service>, key: string, level: string, other: string)
    requires KeyUsable(catalogue, other)
    ensures KeyUsable(OverrideAll(catalogue, key, level), other)
  {
  }

  /** The outer `for k, v in access_level_overrides.items()` loop. */
  method ApplyAccessLevelOverrides(catalogue: seq<Service>, overrides: seq<Override>) returns (r: seq<Service>)
    requires AllUsable(catalogue, overrides)
    ensures r == ApplyOverrides(catalogue, overrides)
  {
    r := catalogue;
    for o := 0 to |overrides|
      invariant r == ApplyOverrides(catalogue, overrides[..o])
      invariant AllUsable(r, overrides)
    {
      assert overrides[..o + 1][..o] == overrides[..o];
      var before := r;
      r := OverrideKey(r, overrides[o].0, overrides[o].1);
      forall u | 0 <= u < |overrides| ensures KeyUsable(r, overrides[u].0) {
        OverrideKeepsUsable(before, overrides[o].0, overrides[o].1, overrides[u].0);
      }
    }
    assert overrides[..|overrides|] == overrides;
  }
}
