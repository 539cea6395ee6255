/**
 * Step 3 of aws_patch_iam_definition.py (lines 114-158): entries of certain
 * prefixes get a fixed display name. The 22 `if` statements run in order
 * for every entry; they are modelled as one pass over a table of
 * (prefix, name) rows, so a later row would win over an earlier one.
 */
module PatchRenames {
  import opened Basics
  import opened IamDefinition

  /** The (prefix, new service name) rows, in the order of the `if` chain. */
  const Renames: seq<(string, string)> := [
    ("rds", "Amazon RDS, Neptune & DocumentDB"),
    ("apigateway", "Amazon API Gateway Management"),
    ("aws-marketplace", "AWS Marketplace"),
    ("elasticloadbalancing", "Elastic Load Balancing"),
    ("kinesisanalytics", "Amazon Kinesis Analytics"),
    ("lex", "Amazon Lex"),
    ("ses", "Amazon SES & Pinpoint Email"),
    ("greengrass", "AWS IoT Greengrass"),
    ("datasync", "AWS DataSync"),
    ("backup-storage", "AWS Backup Storage"),
    ("es", "Amazon OpenSearch Service"),
    ("cloudformation", "AWS CloudFormation & Cloud Control API"),
    ("private-networks", "AWS Private 5G"),
    ("sagemaker-geospatial", "Amazon SageMaker Geospatial ML"),
    ("route53profiles", "Amazon Route 53 Profiles"),
    ("apptest", "AWS Mainframe Modernization Application Testing"),
    ("inspector2", "Amazon Inspector V2"),
    ("inspector-scan", "Amazon Inspector Scan"),
    ("sso", "AWS IAM Identity Center"),
    ("sso-directory", "AWS IAM Identity Center Directory"),
    ("connect-campaigns", "Amazon Connect Outbound Campaigns"),
    ("mediaimport", "Amazon RDS Custom Media Import")
  ]

  /** The name the last row for prefix `p` assigns, if any row has that prefix. */
  function RenameTo(p: string, table: seq<(string, string)>): (r: Option<string>)
    ensures r.None? <==> forall t :: 0 <= t < |table| ==> table[t].0 != p
    ensures r.Some? ==>
      exists t :: 0 <= t < |table| && table[t] == (p, r.value) &&
                  (forall u :: t < u < |table| ==> table[u].0 != p)
  {
    if table == [] then None
    else if table[|table| - 1].0 == p then Some(table[|table| - 1].1)
    else RenameTo(p, table[..|table| - 1])
  }

  /** The entry after the rows of `table` have been applied to it. */
  function RenamedBy(s: Service, table: seq<(string, string)>): Service {
    match RenameTo(s.prefix, table)
    case None => s
    case Some(name) => s.(serviceName := name)
  }

  function Renamed(s: Service): Service {
    RenamedBy(s, Renames)
  }

  function RenameAll(catalogue: seq<Service>): (r: seq<Service>)
    ensures |r| == |catalogue|
    ensures forall i :: 0 <= i < |r| ==>
      r[i].prefix == catalogue[i].prefix && r[i].privileges == catalogue[i].privileges
  {
    seq(|catalogue|, i requires 0 <= i < |catalogue| => Renamed(catalogue[i]))
  }

  /** No two rows of `table` share a prefix. */
  predicate DistinctKeys(table: seq<(string, string)>) {
    forall a, b :: 0 <= a < b < |table| ==> table[a].0 != table[b].0
  }

  lemma RenamesDistinctKeys()
    ensures DistinctKeys(Renames)
  {
    forall a, b | 0 <= a < b < |Renames| ensures Renames[a].0 != Renames[b].0 {
    }
  }

  /** With distinct prefixes, the row for an entry's prefix decides its name. */
  lemma RenamedByRow(s: Service, table: seq<(string, string)>, t: nat)
    requires DistinctKeys(table) && t < |table| && table[t].0 == s.prefix
    ensures RenamedBy(s, table) == s.(serviceName := table[t].1)
  {
    assert RenameTo(s.prefix, table).Some?;
    var r := RenameTo(s.prefix, table).value;
    var t' :| 0 <= t' < |table| && table[t'] == (s.prefix, r) &&
      forall u :: t' < u < |table| ==> table[u].0 != s.prefix;
    forall u | 0 <= u < |table| && u != t ensures table[u].0 != s.prefix {
      if u < t {
        assert table[u].0 != table[t].0;
      } else {
        assert table[t].0 != table[u].0;
      }
    }
  }

  /**
   * A rename touches only the service name, and only of an entry whose prefix
   * has a row; such an entry gets exactly that row's name.
   */
  lemma RenamedEntry(s: Service)
    ensures Renamed(s).prefix == s.prefix
    ensures Renamed(s).conditions == s.conditions
    ensures Renamed(s).privileges == s.privileges
    ensures Renamed(s).resources == s.resources
    ensures (forall t :: 0 <= t < |Renames| ==> Renames[t].0 != s.prefix) ==> Renamed(s) == s
    ensures forall t :: 0 <= t < |Renames| && Renames[t].0 == s.prefix ==>
      Renamed(s).serviceName == Renames[t].1
  {
    RenamesDistinctKeys();
    forall t | 0 <= t < |Renames| && Renames[t].0 == s.prefix
      ensures Renamed(s).serviceName == Renames[t].1
    {
      RenamedByRow(s, Renames, t);
    }
  }

  /** Renaming twice is renaming once. */
  lemma RenameAllIdempotent(catalogue: seq<Service>)
    ensures RenameAll(RenameAll(catalogue)) == RenameAll(catalogue)
  {
    forall i | 0 <= i < |catalogue|
      ensures Renamed(Renamed(catalogue[i])) == Renamed(catalogue[i])
    {
      RenamedEntry(catalogue[i]);
    }
  }

  /** Renames keep the prefixes, so they keep prefix order and uniqueness. */
  lemma RenameAllPrefixes(catalogue: seq<Service>)
    ensures Prefixes(RenameAll(catalogue)) == Prefixes(catalogue)
  {
    forall i | 0 <= i < |catalogue| ensures RenameAll(catalogue)[i].prefix == catalogue[i].prefix {
      RenamedEntry(catalogue[i]);
    }
  }

  /** The chain of `if` statements for one entry, one row at a time. */
  method RenameEntry(s: Service, table: seq<(string, string)>) returns (r: Service)
    ensures r == RenamedBy(s, table)
  {
    r := s;
    for t := 0 to |table|
      invariant r == RenamedBy(s, table[..t])
    {
      assert table[..t + 1][..t] == table[..t];
      if r.prefix == table[t].0 {
        r := r.(serviceName := table[t].1);
      }
    }
    assert table[..|table|] == table;
  }

  /** The `for i in range(len(iam_def))` loop. */
  method ApplyRenames(catalogue: seq<Service>) returns (r: seq<Service>)
    ensures r == RenameAll(catalogue)
  {
    r := catalogue;
    for i := 0 to |r|
      invariant |r| == |catalogue|
      invariant forall k :: 0 <= k < i ==> r[k] == Renamed(catalogue[k])
      invariant forall k :: i <= k < |r| ==> r[k] == catalogue[k]
    {
      var renamed := RenameEntry(r[i], Renames);
      r := r[i := renamed];
    }
  }
}
