/**
 * Step 1 of aws_patch_iam_definition.py (lines 19-39): services that the
 * published definition lacks are inserted, each before the first entry whose
 * prefix is lexically greater, unless an entry with that prefix exists.
 */
module PatchRoots {
  import opened Basics
  import opened Strings
  import opened IamDefinition

  /** The undocumented root services (lines 20-28). */
  const UndocumentedRoots: seq<Service> := [Service("finspace", "Amazon FinSpace", [], [], [])]

  /** The first index whose prefix is lexically greater than `p`, if any. */
  function FirstGreater(s: seq<Service>, p: string): (r: Option<nat>)
    ensures r.None? <==> forall k :: 0 <= k < |s| ==> !Less(p, s[k].prefix)
    ensures r.Some? ==> r.value < |s| && Less(p, s[r.value].prefix)
    ensures r.Some? ==> forall k :: 0 <= k < r.value ==> !Less(p, s[k].prefix)
  {
    if s == [] then None
    else if Less(p, s[0].prefix) then Some(0)
    else match FirstGreater(s[1..], p)
      case None => None
      case Some(i) => Some(i + 1)
  }

  /**
   * The catalogue after one root has been considered. The three cases:
   * the prefix is present (unchanged), no greater prefix exists (unchanged:
   * the source never appends at the end), or the root goes in at the first
   * index whose prefix is greater.
   */
  function WithRoot(s: seq<Service>, root: Service): (r: seq<Service>)
    ensures |s| <= |r| <= |s| + 1
    ensures HasPrefix(s, root.prefix) ==> r == s
    ensures (forall k :: 0 <= k < |s| ==> !Less(root.prefix, s[k].prefix)) ==> r == s
    ensures forall i ::
      0 <= i < |s| && !HasPrefix(s, root.prefix) && Less(root.prefix, s[i].prefix) &&
      (forall k :: 0 <= k < i ==> !Less(root.prefix, s[k].prefix))
      ==> r == s[..i] + [root] + s[i..]
  {
    if HasPrefix(s, root.prefix) then s
    else match FirstGreater(s, root.prefix)
      case None => s
      case Some(i) =>
        s[..i] + [root] + s[i..]
  }

  /** The roots considered in order (the outer `for root in ...`). */
  function WithRoots(s: seq<Service>, roots: seq<Service>): (r: seq<Service>)
    ensures |s| <= |r| <= |s| + |roots|
    ensures UniquePrefixes(s) ==> UniquePrefixes(r)
  {
    if roots == [] then s
    else
      var prev := WithRoots(s, roots[..|roots| - 1]);
      var root := roots[|roots| - 1];
      if UniquePrefixes(prev) then
        WithRootKeepsUnique(prev, root);
        WithRoot(prev, root)
      else
        WithRoot(prev, root)
  }

  /** Inserting a root keeps a prefix-sorted catalogue sorted. */
  lemma WithRootKeepsSorted(s: seq<Service>, root: Service)
    requires SortedBy(s, PrefixOf)
    ensures SortedBy(WithRoot(s, root), PrefixOf)
  {
    var p := root.prefix;
    if !HasPrefix(s, p) && FirstGreater(s, p).Some? {
      var i := FirstGreater(s, p).value;
      var r := WithRoot(s, root);
      assert r == s[..i] + [root] + s[i..];
      forall a, b | 0 <= a < b < |r| ensures !Less(PrefixOf(r[b]), PrefixOf(r[a])) {
        InsertedPairOrdered(s, root, i, a, b);
      }
    }
  }

  lemma InsertedPairOrdered(s: seq<Service>, root: Service, i: nat, a: nat, b: nat)
    requires SortedBy(s, PrefixOf)
    requires i < |s| && Less(root.prefix, s[i].prefix)
    requires forall k :: 0 <= k < i ==> !Less(root.prefix, s[k].prefix)
    requires a < b < |s| + 1
    ensures var r := s[..i] + [root] + s[i..]; !Less(r[b].prefix, r[a].prefix)
  {
    var r := s[..i] + [root] + s[i..];
    var p := root.prefix;
    if a == i {
      assert r[a] == root && r[b] == s[b - 1];
      if Less(s[b - 1].prefix, p) {
        if b - 1 == i {
          LessAsymmetric(p, s[i].prefix);
        } else {
          assert !Less(PrefixOf(s[b - 1]), PrefixOf(s[i]));
          LessTransitive(s[b - 1].prefix, p, s[i].prefix);
        }
      }
    } else if b == i {
      assert r[a] == s[a] && r[b] == root;
    } else {
      var a', b' := if a < i then a else a - 1, if b < i then b else b - 1;
      assert r[a] == s[a'] && r[b] == s[b'] && a' < b';
      assert !Less(PrefixOf(s[b']), PrefixOf(s[a']));
    }
  }

  /** Where each entry of `s` lands once `x` is inserted at index `i`. */
  lemma InsertedAt(s: seq<Service>, x: Service, i: nat, a: nat)
    requires i <= |s| && a < |s| + 1
    ensures var r := s[..i] + [x] + s[i..];
      |r| == |s| + 1 && r[a] == if a < i then s[a] else if a == i then x else s[a - 1]
  {
  }

  /** Inserting a root never creates a duplicate prefix. */
  lemma WithRootKeepsUnique(s: seq<Service>, root: Service)
    requires UniquePrefixes(s)
    ensures UniquePrefixes(WithRoot(s, root))
  {
    var p := root.prefix;
    if !HasPrefix(s, p) && FirstGreater(s, p).Some? {
      var i := FirstGreater(s, p).value;
      var r := s[..i] + [root] + s[i..];
      assert WithRoot(s, root) == r;
      forall a, b | 0 <= a < b < |r| ensures r[a].prefix != r[b].prefix {
        InsertedAt(s, root, i, a);
        InsertedAt(s, root, i, b);
        var a' := if a < i then a else a - 1;
        var b' := b - 1;
        if a == i {
          assert s[b'].prefix != p;
        } else if b == i {
          assert s[a'].prefix != p;
        } else if b < i {
          assert s[a].prefix != s[b].prefix;
        } else {
          assert a' < b' && s[a'].prefix != s[b'].prefix;
        }
      }
    }
  }

  /** The two loops for one root: the presence scan, then the insertion scan. */
  method InsertRoot(catalogue: seq<Service>, root: Service) returns (r: seq<Service>)
    ensures r == WithRoot(catalogue, root)
  {
    r := catalogue;
    var found := false;
    for k := 0 to |r|
      invariant found <==> exists m :: 0 <= m < k && r[m].prefix == root.prefix
    {
      if r[k].prefix == root.prefix {
        found := true;
      }
    }
    if !found {
      for i := 0 to |catalogue|
        invariant r == catalogue
        invariant forall m :: 0 <= m < i ==> !Less(root.prefix, r[m].prefix)
      {
        if Less(root.prefix, r[i].prefix) {
          r := r[..i] + [root] + r[i..];
          break;
        }
      }
    }
  }

  method InsertRoots(catalogue: seq<Service>, roots: seq<Service>) returns (r: seq<Service>)
    ensures r == WithRoots(catalogue, roots)
  {
    r := catalogue;
    for t := 0 to |roots|
      invariant r == WithRoots(catalogue, roots[..t])
    {
      assert roots[..t + 1][..t] == roots[..t];
      r := InsertRoot(r, roots[t]);
    }
    assert roots[..|roots|] == roots;
  }
}
