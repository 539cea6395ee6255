/**
 * The records of the IAM definition catalogue (the JSON document that
 * iam-dataset-main/util/aws_patch_iam_definition.py loads and rewrites):
 * one service record per entry, each with its conditions, privileges and
 * resources. Only the fields the patcher reads or writes are kept.
 */
module IamDefinition {
  import opened Basics

  datatype Condition = Condition(condition: string, description: string, valueType: string)

  /** A resource type a privilege applies to; `""` stands for "all resources". */
  datatype ResourceType = ResourceType(resourceType: string, conditionKeys: seq<string>, dependentActions: seq<string>)

  datatype Privilege = Privilege(privilege: string, accessLevel: string, description: string, resourceTypes: seq<ResourceType>)

  datatype Resource = Resource(resource: string, arn: string, conditionKeys: seq<string>)

  datatype Service = Service(
    prefix: string,
    serviceName: string,
    conditions: seq<Condition>,
    privileges: seq<Privilege>,
    resources: seq<Resource>)

  function PrefixOf(s: Service): string { s.prefix }

  function PrivilegeName(p: Privilege): string { p.privilege }

  function Prefixes(s: seq<Service>): (r: seq<string>)
    ensures |r| == |s|
    ensures forall i :: 0 <= i < |s| ==> r[i] == s[i].prefix
  {
    seq(|s|, i requires 0 <= i < |s| => s[i].prefix)
  }

  predicate HasPrefix(s: seq<Service>, p: string) {
    exists i :: 0 <= i < |s| && s[i].prefix == p
  }

  /** No two entries share a prefix. */
  predicate UniquePrefixes(s: seq<Service>) {
    forall i, j :: 0 <= i < j < |s| ==> s[i].prefix != s[j].prefix
  }

  /** The entries whose prefix is `p`, in catalogue order. */
  function WithPrefix(s: seq<Service>, p: string): (r: seq<Service>)
    ensures |r| <= |s|
  {
    if s == [] then []
    else (if s[0].prefix == p then [s[0]] else []) + WithPrefix(s[1..], p)
  }

  /** The entries whose prefix is not `p`, in catalogue order. */
  function WithoutPrefix(s: seq<Service>, p: string): (r: seq<Service>)
    ensures |r| <= |s|
  {
    if s == [] then []
    else (if s[0].prefix == p then [] else [s[0]]) + WithoutPrefix(s[1..], p)
  }

  /** `WithPrefix` and `WithoutPrefix` split the entries of `s` by prefix. */
  lemma {:induction false} PrefixSplitMembers(s: seq<Service>, p: string, x: Service)
    ensures x in WithPrefix(s, p) <==> x in s && x.prefix == p
    ensures x in WithoutPrefix(s, p) <==> x in s && x.prefix != p
  {
    if s != [] {
      PrefixSplitMembers(s[1..], p, x);
      assert s == [s[0]] + s[1..];
    }
  }

  lemma {:induction false} WithPrefixConcat(a: seq<Service>, b: seq<Service>, p: string)
    ensures WithPrefix(a + b, p) == WithPrefix(a, p) + WithPrefix(b, p)
  {
    if a == [] {
      assert a + b == b;
    } else {
      var head := if a[0].prefix == p then [a[0]] else [];
      var ab := a + b;
      assert ab[0] == a[0] && ab[1..] == a[1..] + b;
      WithPrefixConcat(a[1..], b, p);
      calc {
        WithPrefix(ab, p);
        head + WithPrefix(a[1..] + b, p);
        head + (WithPrefix(a[1..], p) + WithPrefix(b, p));
        (head + WithPrefix(a[1..], p)) + WithPrefix(b, p);
      }
    }
  }

  lemma {:induction false} WithoutPrefixConcat(a: seq<Service>, b: seq<Service>, p: string)
    ensures WithoutPrefix(a + b, p) == WithoutPrefix(a, p) + WithoutPrefix(b, p)
  {
    if a == [] {
      assert a + b == b;
    } else {
      var head := if a[0].prefix == p then [] else [a[0]];
      var ab := a + b;
      assert ab[0] == a[0] && ab[1..] == a[1..] + b;
      WithoutPrefixConcat(a[1..], b, p);
      calc {
        WithoutPrefix(ab, p);
        head + WithoutPrefix(a[1..] + b, p);
        head + (WithoutPrefix(a[1..], p) + WithoutPrefix(b, p));
        (head + WithoutPrefix(a[1..], p)) + WithoutPrefix(b, p);
      }
    }
  }

  lemma {:induction false} WithoutAbsentPrefix(s: seq<Service>, p: string)
    requires forall k :: 0 <= k < |s| ==> s[k].prefix != p
    ensures WithoutPrefix(s, p) == s
    ensures WithPrefix(s, p) == []
  {
    if s != [] {
      WithoutAbsentPrefix(s[1..], p);
    }
  }

  /** Removing the entries of prefix `p` removes `p` from the prefix list. */
  lemma PrefixesCons(s: seq<Service>)
    requires s != []
    ensures Prefixes(s) == [s[0].prefix] + Prefixes(s[1..])
  {
  }

  lemma {:induction false} PrefixesWithout(s: seq<Service>, p: string)
    ensures Prefixes(WithoutPrefix(s, p)) == RemoveAll(Prefixes(s), p)
  {
    if s != [] {
      var tail := WithoutPrefix(s[1..], p);
      PrefixesWithout(s[1..], p);
      PrefixesCons(s);
      var ps := Prefixes(s);
      assert ps[0] == s[0].prefix && ps[1..] == Prefixes(s[1..]);
      if s[0].prefix == p {
        assert WithoutPrefix(s, p) == tail;
      } else {
        var kept := [s[0]] + tail;
        assert WithoutPrefix(s, p) == kept;
        PrefixesCons(kept);
        assert kept[0] == s[0] && kept[1..] == tail;
      }
    }
  }
}
