/**
 * The deterministic part of Generate_data.py (lines 40-118). Every random
 * draw (the sample order, managers, roles, row indices, replacement actions,
 * event counts and offsets) is a parameter, constrained only by what the
 * random source guarantees; `datetime.now()` is the parameter `now`.
 */
module GenerateData {
  import opened Basics
  import opened IamDefinition
  import opened Tables
  import opened RiskFeatures

  const NEmp: nat := 250
  /** `int(N_EMP * 0.1)`: the top-level managers are employees 1..25. */
  const ManagerCount: nat := 25
  const RoleTitles: seq<string> := ["Developer", "DBA", "Security_Analyst", "Finance_Clerk"]
  const SampleLimit: nat := 500
  const BaselinePerRole: nat := 10
  const EventWindowDays: nat := 30
  const MaxEventsPerRow: nat := 50

  // ---------------------------------------------------------------------
  // The permission table (lines 37-46)
  // ---------------------------------------------------------------------

  /** Lines 44-46. */
  function HighSensitive(accessLevel: string): bool {
    accessLevel in ["Permissions management", "Privileged"]
  }

  function PermissionOf(s: Service, p: Privilege): PermissionRow {
    PermissionRow(s.prefix, s.serviceName, p.privilege, p.accessLevel, HighSensitive(p.accessLevel))
  }

  /** `explode` of an empty privilege list gives a NaN row, on which `p["privilege"]` raises. */
  predicate Explodable(catalogue: seq<Service>) {
    forall i :: 0 <= i < |catalogue| ==> |catalogue[i].privileges| > 0
  }

  /** The rows of one entry: one per privilege, in order. */
  function EntryRows(s: Service): (r: seq<PermissionRow>)
    ensures |r| == |s.privileges|
    ensures forall k :: 0 <= k < |r| ==> r[k].highSensitivity == HighSensitive(r[k].accessLevel)
  {
    seq(|s.privileges|, j requires 0 <= j < |s.privileges| => PermissionOf(s, s.privileges[j]))
  }

  lemma EntryRowsMembers(s: Service, x: PermissionRow)
    ensures x in EntryRows(s) <==> exists j :: 0 <= j < |s.privileges| && x == PermissionOf(s, s.privileges[j])
  {
    var rows := EntryRows(s);
    if x in rows {
      var j :| 0 <= j < |rows| && rows[j] == x;
    }
    if exists j :: 0 <= j < |s.privileges| && x == PermissionOf(s, s.privileges[j]) {
      var j :| 0 <= j < |s.privileges| && x == PermissionOf(s, s.privileges[j]);
      assert rows[j] == x;
    }
  }

  /** One row per (entry, privilege), entries in order, privileges in order. */
  function Explode(catalogue: seq<Service>): (r: seq<PermissionRow>)
    requires Explodable(catalogue)
    ensures |r| >= |catalogue|
    ensures forall k :: 0 <= k < |r| ==> r[k].highSensitivity == HighSensitive(r[k].accessLevel)
  {
    if catalogue == [] then [] else EntryRows(catalogue[0]) + Explode(catalogue[1..])
  }

  /** The rows are exactly the (entry, privilege) pairs of the catalogue. */
  lemma {:induction false} ExplodeRows(catalogue: seq<Service>, x: PermissionRow)
    requires Explodable(catalogue)
    ensures x in Explode(catalogue) <==>
      exists i, j :: 0 <= i < |catalogue| && 0 <= j < |catalogue[i].privileges| &&
                     x == PermissionOf(catalogue[i], catalogue[i].privileges[j])
  {
    if catalogue != [] {
      var s := catalogue[0];
      var rest := catalogue[1..];
      ExplodeRows(rest, x);
      EntryRowsMembers(s, x);
      if x in EntryRows(s) {
        var j :| 0 <= j < |s.privileges| && x == PermissionOf(s, s.privileges[j]);
        assert catalogue[0] == s;
      }
      if exists i, j :: 0 <= i < |catalogue| && 0 <= j < |catalogue[i].privileges| &&
                        x == PermissionOf(catalogue[i], catalogue[i].privileges[j]) {
        var i, j :| 0 <= i < |catalogue| && 0 <= j < |catalogue[i].privileges| &&
                    x == PermissionOf(catalogue[i], catalogue[i].privileges[j]);
        if i > 0 {
          assert rest[i - 1] == catalogue[i];
        }
      }
    }
  }

  /** A row is flagged exactly when its access level is "Permissions management" or "Privileged". */
  lemma ExplodeFlags(catalogue: seq<Service>, x: PermissionRow)
    requires Explodable(catalogue) && x in Explode(catalogue)
    ensures x.highSensitivity <==> x.accessLevel == "Permissions management" || x.accessLevel == "Privileged"
  {
    ExplodeRows(catalogue, x);
    var i, j :| 0 <= i < |catalogue| && 0 <= j < |catalogue[i].privileges| &&
                x == PermissionOf(catalogue[i], catalogue[i].privileges[j]);
  }

  // ---------------------------------------------------------------------
  // Sampling (line 52, and the draws of lines 89 and 94)
  // ---------------------------------------------------------------------

  predicate IndicesBelow(picks: seq<nat>, n: nat) {
    forall k :: 0 <= k < |picks| ==> picks[k] < n
  }

  /** The rows at the drawn positions, in draw order. */
  function Select<T>(rows: seq<T>, picks: seq<nat>): (r: seq<T>)
    requires IndicesBelow(picks, |rows|)
    ensures |r| == |picks|
    ensures forall k :: 0 <= k < |r| ==> r[k] in rows
  {
    seq(|picks|, k requires 0 <= k < |picks| => rows[picks[k]])
  }

  /** What `sample(min(len, 500), replace=False)` guarantees of its draw. */
  predicate SampleDraw(n: nat, picks: seq<nat>) {
    |picks| == Min(n, SampleLimit) && IndicesBelow(picks, n) && NoDuplicates(picks)
  }

  function Sample(rows: seq<PermissionRow>, picks: seq<nat>): (r: seq<PermissionRow>)
    requires SampleDraw(|rows|, picks)
    ensures |r| == Min(|rows|, SampleLimit)
  {
    Select(rows, picks)
  }

  lemma DistinctTail(xs: seq<nat>)
    requires xs != [] && NoDuplicates(xs)
    ensures NoDuplicates(xs[1..]) && xs[0] !in xs[1..]
  {
    var tail := xs[1..];
    forall b | 0 <= b < |tail| ensures tail[b] != xs[0] {
      assert tail[b] == xs[b + 1];
    }
  }

  lemma {:induction false} RemoveAllDistinct(xs: seq<nat>, v: nat)
    requires NoDuplicates(xs)
    ensures NoDuplicates(RemoveAll(xs, v))
    decreases |xs|
  {
    if xs != [] {
      DistinctTail(xs);
      RemoveAllDistinct(xs[1..], v);
      var rest := RemoveAll(xs[1..], v);
      if xs[0] != v {
        assert xs[0] !in rest;
        assert RemoveAll(xs, v) == [xs[0]] + rest;
      }
    }
  }

  lemma SelectCons<T>(rows: seq<T>, xs: seq<nat>)
    requires xs != [] && IndicesBelow(xs, |rows|)
    ensures IndicesBelow(xs[1..], |rows|)
    ensures Select(rows, xs) == [rows[xs[0]]] + Select(rows, xs[1..])
  {
  }

  lemma {:induction false} SelectRemove<T>(rows: seq<T>, xs: seq<nat>, v: nat)
    requires IndicesBelow(xs, |rows|) && v < |rows| && NoDuplicates(xs)
    ensures IndicesBelow(RemoveAll(xs, v), |rows|)
    ensures multiset(Select(rows, xs))
         == multiset(Select(rows, RemoveAll(xs, v))) + (if v in xs then multiset{rows[v]} else multiset{})
    decreases |xs|
  {
    var rest := RemoveAll(xs, v);
    assert IndicesBelow(rest, |rows|) by {
      forall k | 0 <= k < |rest| ensures rest[k] < |rows| {
        assert rest[k] in rest;
      }
    }
    if xs != [] {
      var tail := xs[1..];
      DistinctTail(xs);
      SelectCons(rows, xs);
      SelectRemove(rows, tail, v);
      var restTail := RemoveAll(tail, v);
      if xs[0] == v {
        assert rest == restTail;
      } else {
        assert rest == [xs[0]] + restTail;
        SelectCons(rows, rest);
        assert rest[1..] == restTail;
      }
    }
  }

  /** Distinct positions pick each source row at most as often as it occurs. */
  lemma {:induction false} SelectDistinct<T>(rows: seq<T>, picks: seq<nat>)
    requires IndicesBelow(picks, |rows|) && NoDuplicates(picks)
    ensures multiset(Select(rows, picks)) <= multiset(rows)
    decreases |rows|
  {
    if rows == [] {
      assert picks == [];
    } else {
      var v: nat := |rows| - 1;
      var rest: seq<nat> := RemoveAll(picks, v);
      SelectRemove(rows, picks, v);
      RemoveAllDistinct(picks, v);
      assert IndicesBelow(rest, v) by {
        forall k | 0 <= k < |rest| ensures rest[k] < v {
          assert rest[k] in rest;
        }
      }
      SelectDistinct(rows[..v], rest);
      assert Select(rows, rest) == Select(rows[..v], rest);
      assert rows == rows[..v] + [rows[v]];
      assert multiset(rows) == multiset(rows[..v]) + multiset{rows[v]};
    }
  }

  /** The sample has min(len, 500) rows, drawn without replacement. */
  lemma SampleWithoutReplacement(rows: seq<PermissionRow>, picks: seq<nat>)
    requires SampleDraw(|rows|, picks)
    ensures |Sample(rows, picks)| == Min(|rows|, SampleLimit)
    ensures multiset(Sample(rows, picks)) <= multiset(rows)
  {
    SelectDistinct(rows, picks);
  }

  // ---------------------------------------------------------------------
  // Employees (lines 57-69)
  // ---------------------------------------------------------------------

  /** What `np.random.randint(1, 26, 250)` and `np.random.choice(role_titles, 250)` guarantee. */
  predicate OrgDraws(managerDraws: seq<int>, roleDraws: seq<nat>) {
    |managerDraws| == NEmp && |roleDraws| == NEmp &&
    forall i :: 0 <= i < NEmp ==> 1 <= managerDraws[i] <= ManagerCount && roleDraws[i] < |RoleTitles|
  }

  function Employees(managerDraws: seq<int>, roleDraws: seq<nat>): (r: seq<Employee>)
    requires OrgDraws(managerDraws, roleDraws)
    ensures |r| == NEmp
  {
    seq(NEmp, i requires 0 <= i < NEmp =>
      Employee(i + 1, if i < ManagerCount then None else Some(managerDraws[i]), RoleTitles[roleDraws[i]]))
  }

  /**
   * Employees are numbered 1..250 in order; exactly the first 25 rows have no
   * manager, and every other employee reports to one of those 25.
   */
  lemma EmployeesOrgChart(managerDraws: seq<int>, roleDraws: seq<nat>, i: nat)
    requires OrgDraws(managerDraws, roleDraws) && i < NEmp
    ensures var e := Employees(managerDraws, roleDraws)[i];
      e.empNo == i + 1 && e.roleTitle in RoleTitles &&
      (e.managerEmpNo.None? <==> i < ManagerCount) &&
      (e.managerEmpNo.Some? ==>
        exists m :: 0 <= m < ManagerCount && Employees(managerDraws, roleDraws)[m].empNo == e.managerEmpNo.value &&
                    Employees(managerDraws, roleDraws)[m].managerEmpNo.None?)
  {
    var es := Employees(managerDraws, roleDraws);
    if i >= ManagerCount {
      var m := managerDraws[i] - 1;
      assert es[m].empNo == managerDraws[i];
    }
  }

  // ---------------------------------------------------------------------
  // The round-robin baseline (lines 76-81)
  // ---------------------------------------------------------------------

  /** The positions `iloc[start::4].head(10)` takes from a table of `n` rows. */
  function StridePositions(n: nat, start: nat): (ps: seq<nat>)
    ensures |ps| <= BaselinePerRole
  {
    var available := if start >= n then 0 else (n - start + 3) / 4;
    seq(Min(available, BaselinePerRole), k requires 0 <= k => start + 4 * k)
  }

  /** Role `start`'s positions are start, start+4, ..., below n, at most the first 10 of them. */
  lemma StridePositionsIff(n: nat, start: nat, p: nat)
    ensures p in StridePositions(n, start) <==>
      start <= p < n && (p - start) % 4 == 0 && (p - start) / 4 < BaselinePerRole
  {
    var ps := StridePositions(n, start);
    if p in ps {
      var k :| 0 <= k < |ps| && ps[k] == p;
      assert p == start + 4 * k;
      assert (p - start) / 4 == k;
    }
    if start <= p < n && (p - start) % 4 == 0 && (p - start) / 4 < BaselinePerRole {
      var k := (p - start) / 4;
      assert p == start + 4 * k;
      assert ps[k] == p;
    }
  }

  /** The four roles' positions are pairwise disjoint. */
  lemma StridePositionsDisjoint(n: nat, i: nat, j: nat, p: nat)
    requires i < j < |RoleTitles|
    ensures !(p in StridePositions(n, i) && p in StridePositions(n, j))
  {
    StridePositionsIff(n, i, p);
    StridePositionsIff(n, j, p);
  }

  /** Role `i`'s baseline rows: the sampled rows at its positions, tagged with its title. */
  function RoleSlice(sampled: seq<PermissionRow>, i: nat): (r: seq<BaselineRow>)
    requires i < |RoleTitles|
    ensures |r| <= BaselinePerRole
    ensures forall k :: 0 <= k < |r| ==> r[k].roleTitle == RoleTitles[i]
  {
    var ps := StridePositions(|sampled|, i);
    seq(|ps|, k requires 0 <= k < |ps| => BaselineRow(RoleTitles[i], sampled[ps[k]].action))
  }

  /** The concatenation of the first `m` roles' slices. */
  function BaselineRows(sampled: seq<PermissionRow>, m: nat): (r: seq<BaselineRow>)
    requires m <= |RoleTitles|
    ensures |r| <= m * BaselinePerRole
    ensures forall k :: 0 <= k < |r| ==> r[k].roleTitle in RoleTitles[..m]
  {
    if m == 0 then [] else BaselineRows(sampled, m - 1) + RoleSlice(sampled, m - 1)
  }

  /** At most 10 rows per role, 40 in all, each tagged with a listed role. */
  function Baseline(sampled: seq<PermissionRow>): (r: seq<BaselineRow>)
    ensures |r| <= |RoleTitles| * BaselinePerRole
    ensures forall k :: 0 <= k < |r| ==> r[k].roleTitle in RoleTitles
  {
    assert RoleTitles[..|RoleTitles|] == RoleTitles;
    BaselineRows(sampled, |RoleTitles|)
  }

  /** How many rows carry `role`. */
  function RoleCount(rows: seq<BaselineRow>, role: string): nat {
    if rows == [] then 0
    else (if rows[0].roleTitle == role then 1 else 0) + RoleCount(rows[1..], role)
  }

  lemma {:induction false} RoleCountConcat(a: seq<BaselineRow>, b: seq<BaselineRow>, role: string)
    ensures RoleCount(a + b, role) == RoleCount(a, role) + RoleCount(b, role)
  {
    if a != [] {
      assert (a + b)[1..] == a[1..] + b;
      RoleCountConcat(a[1..], b, role);
    } else {
      assert a + b == b;
    }
  }

  lemma {:induction false} RoleCountUniform(rows: seq<BaselineRow>, title: string, role: string)
    requires forall k :: 0 <= k < |rows| ==> rows[k].roleTitle == title
    ensures RoleCount(rows, role) == if title == role then |rows| else 0
  {
    if rows != [] {
      RoleCountUniform(rows[1..], title, role);
    }
  }

  /** The four role titles are distinct. */
  lemma RoleTitlesDistinct(a: nat, b: nat)
    requires a < |RoleTitles| && b < |RoleTitles|
    ensures RoleTitles[a] == RoleTitles[b] <==> a == b
  {
  }

  lemma {:induction false} BaselineRowsCount(sampled: seq<PermissionRow>, m: nat, i: nat)
    requires m <= |RoleTitles| && i < |RoleTitles|
    ensures RoleCount(BaselineRows(sampled, m), RoleTitles[i]) == if i < m then |StridePositions(|sampled|, i)| else 0
  {
    if m > 0 {
      var earlier := BaselineRows(sampled, m - 1);
      var slice := RoleSlice(sampled, m - 1);
      var role := RoleTitles[i];
      assert BaselineRows(sampled, m) == earlier + slice;
      BaselineRowsCount(sampled, m - 1, i);
      RoleCountConcat(earlier, slice, role);
      RoleCountUniform(slice, RoleTitles[m - 1], role);
      RoleTitlesDistinct(m - 1, i);
      assert |slice| == |StridePositions(|sampled|, m - 1)|;
    }
  }

  /**
   * Each role gets the rows at its own positions: at most 10, and exactly 10
   * once 40 rows are sampled (500 for a catalogue of 500 privileges or more).
   */
  lemma BaselinePerRoleCount(sampled: seq<PermissionRow>, i: nat)
    requires i < |RoleTitles|
    ensures RoleCount(Baseline(sampled), RoleTitles[i]) == |StridePositions(|sampled|, i)|
    ensures RoleCount(Baseline(sampled), RoleTitles[i]) <= BaselinePerRole
    ensures |sampled| >= 4 * BaselinePerRole ==> RoleCount(Baseline(sampled), RoleTitles[i]) == BaselinePerRole
  {
    BaselineRowsCount(sampled, |RoleTitles|, i);
  }

  /** Every baseline row pairs a role title with the action of a sampled row at one of that role's positions. */
  lemma {:induction false} BaselineRowsFrom(sampled: seq<PermissionRow>, m: nat, x: BaselineRow)
    requires m <= |RoleTitles| && x in BaselineRows(sampled, m)
    ensures exists i, p :: 0 <= i < m && p in StridePositions(|sampled|, i) && p < |sampled| &&
                           x == BaselineRow(RoleTitles[i], sampled[p].action)
  {
    if x in RoleSlice(sampled, m - 1) {
      var ps := StridePositions(|sampled|, m - 1);
      var k :| 0 <= k < |ps| && RoleSlice(sampled, m - 1)[k] == x;
      StridePositionsIff(|sampled|, m - 1, ps[k]);
      assert ps[k] in ps;
    } else {
      BaselineRowsFrom(sampled, m - 1, x);
    }
  }

  /** The `for i, role in enumerate(role_titles)` loop appending each role's slice. */
  method RoundRobinBaseline(sampled: seq<PermissionRow>) returns (rows: seq<BaselineRow>)
    ensures rows == Baseline(sampled)
  {
    rows := [];
    for i := 0 to |RoleTitles|
      invariant rows == BaselineRows(sampled, i)
    {
      var roleActions := RoleSlice(sampled, i);
      rows := rows + roleActions;
    }
  }

  // ---------------------------------------------------------------------
  // Risk injection (lines 89-94)
  // ---------------------------------------------------------------------

  /** Some high-sensitivity sampled row has this action. */
  predicate FlaggedAction(sampled: seq<PermissionRow>, a: string) {
    exists j :: 0 <= j < |sampled| && sampled[j].highSensitivity && sampled[j].action == a
  }

  /**
   * `sampled.query("highSensitivity")["Action"]`, in order: one action per
   * flagged row, so the pool is empty exactly when no sampled row is flagged.
   */
  function HighActions(sampled: seq<PermissionRow>): (r: seq<string>)
    ensures |r| <= |sampled|
    ensures r == [] <==> forall k :: 0 <= k < |sampled| ==> !sampled[k].highSensitivity
  {
    if sampled == [] then []
    else
      var rest := HighActions(sampled[1..]);
      assert forall k :: 0 < k < |sampled| ==> sampled[k] == sampled[1..][k - 1];
      (if sampled[0].highSensitivity then [sampled[0].action] else []) + rest
  }

  /** The replacement actions are exactly the actions of the flagged sampled rows. */
  lemma {:induction false} HighActionsMembers(sampled: seq<PermissionRow>, a: string)
    ensures a in HighActions(sampled) <==> FlaggedAction(sampled, a)
  {
    if sampled != [] {
      HighActionsMembers(sampled[1..], a);
      if FlaggedAction(sampled, a) {
        var k :| 0 <= k < |sampled| && sampled[k].highSensitivity && sampled[k].action == a;
        if k > 0 {
          assert sampled[1..][k - 1] == sampled[k];
        }
      }
      if FlaggedAction(sampled[1..], a) {
        var k :| 0 <= k < |sampled[1..]| && sampled[1..][k].highSensitivity && sampled[1..][k].action == a;
        assert sampled[k + 1] == sampled[1..][k];
      }
    }
  }

  /** What `assign.sample(frac=0.10).index` and `high_actions.sample(n, replace=True)` guarantee. */
  predicate InjectionDraws(n: nat, offIdx: seq<nat>, highActions: seq<string>, draws: seq<nat>) {
    IndicesBelow(offIdx, n) && NoDuplicates(offIdx) &&
    |draws| == |offIdx| && IndicesBelow(draws, |highActions|)
  }

  /** The rows after the first `m` chosen rows have been overwritten. */
  function InjectedUpTo(assign: seq<BaselineRow>, offIdx: seq<nat>, highActions: seq<string>, draws: seq<nat>, m: nat)
    : (r: seq<BaselineRow>)
    requires InjectionDraws(|assign|, offIdx, highActions, draws) && m <= |offIdx|
    ensures |r| == |assign|
  {
    if m == 0 then assign
    else
      var prev := InjectedUpTo(assign, offIdx, highActions, draws, m - 1);
      var k := offIdx[m - 1];
      prev[k := prev[k].(action := highActions[draws[m - 1]])]
  }

  /** `assign.loc[off_idx, "Action"] = ...`. */
  function Injected(assign: seq<BaselineRow>, offIdx: seq<nat>, highActions: seq<string>, draws: seq<nat>)
    : (r: seq<BaselineRow>)
    requires InjectionDraws(|assign|, offIdx, highActions, draws)
    ensures |r| == |assign|
  {
    InjectedUpTo(assign, offIdx, highActions, draws, |offIdx|)
  }

  /**
   * After `m` overwrites: role titles are kept, a row not among the first `m`
   * chosen keeps its action, and the z-th chosen row has the z-th drawn action.
   */
  lemma {:induction false} InjectedUpToRows(assign: seq<BaselineRow>, offIdx: seq<nat>, highActions: seq<string>,
                                            draws: seq<nat>, m: nat)
    requires InjectionDraws(|assign|, offIdx, highActions, draws) && m <= |offIdx|
    ensures var r := InjectedUpTo(assign, offIdx, highActions, draws, m);
      (forall k :: 0 <= k < |r| ==> r[k].roleTitle == assign[k].roleTitle) &&
      (forall k :: 0 <= k < |r| && k !in offIdx[..m] ==> r[k] == assign[k]) &&
      (forall z :: 0 <= z < m ==> r[offIdx[z]].action == highActions[draws[z]])
    decreases m
  {
    if m > 0 {
      InjectedUpToRows(assign, offIdx, highActions, draws, m - 1);
      var k := offIdx[m - 1];
      assert forall z :: 0 <= z < m - 1 ==> offIdx[z] != k;
      assert offIdx[..m] == offIdx[..m - 1] + [k];
    }
  }

  /**
   * The chosen rows get the drawn actions; every other row, and every role
   * title, is unchanged.
   */
  lemma InjectedRows(assign: seq<BaselineRow>, offIdx: seq<nat>, highActions: seq<string>, draws: seq<nat>)
    requires InjectionDraws(|assign|, offIdx, highActions, draws)
    ensures var r := Injected(assign, offIdx, highActions, draws);
      (forall k :: 0 <= k < |r| ==> r[k].roleTitle == assign[k].roleTitle) &&
      (forall k :: 0 <= k < |r| && k !in offIdx ==> r[k] == assign[k]) &&
      (forall m :: 0 <= m < |offIdx| ==> r[offIdx[m]].action == highActions[draws[m]])
  {
    InjectedUpToRows(assign, offIdx, highActions, draws, |offIdx|);
    assert offIdx[..|offIdx|] == offIdx;
  }

  /**
   * With the pool of line 93, every row either keeps its drawn baseline row or
   * carries the action of a high-sensitivity sampled row.
   */
  lemma InjectedHighSensitive(assign: seq<BaselineRow>, sampled: seq<PermissionRow>, offIdx: seq<nat>, draws: seq<nat>, k: nat)
    requires InjectionDraws(|assign|, offIdx, HighActions(sampled), draws) && k < |assign|
    ensures var r := Injected(assign, offIdx, HighActions(sampled), draws);
      k !in offIdx ==> r[k] == assign[k]
    ensures var r := Injected(assign, offIdx, HighActions(sampled), draws);
      k in offIdx ==> FlaggedAction(sampled, r[k].action)
  {
    var pool := HighActions(sampled);
    InjectedRows(assign, offIdx, pool, draws);
    forall a | a in pool
      ensures FlaggedAction(sampled, a)
    {
      HighActionsMembers(sampled, a);
    }
  }

  /** Lines 92-94: the loop over the chosen rows, drawing from the pool of line 93. */
  method InjectRisk(assign: seq<BaselineRow>, sampled: seq<PermissionRow>, offIdx: seq<nat>, draws: seq<nat>)
    returns (r: seq<BaselineRow>)
    requires InjectionDraws(|assign|, offIdx, HighActions(sampled), draws)
    ensures r == Injected(assign, offIdx, HighActions(sampled), draws)
  {
    var highActions := HighActions(sampled);
    r := assign;
    for m := 0 to |offIdx|
      invariant r == InjectedUpTo(assign, offIdx, highActions, draws, m)
    {
      var k := offIdx[m];
      r := r[k := r[k].(action := highActions[draws[m]])];
    }
  }

  // ---------------------------------------------------------------------
  // The employee x baseline join (lines 97-99)
  // ---------------------------------------------------------------------

  /** The assignment rows one employee inherits: the drawn rows of their role, in order. */
  function Inherited(e: Employee, rows: seq<BaselineRow>): (r: seq<Assignment>)
    ensures forall k :: 0 <= k < |r| ==>
      r[k].empNo == e.empNo && r[k].roleTitle == e.roleTitle && BaselineRow(r[k].roleTitle, r[k].action) in rows
  {
    if rows == [] then []
    else
      (if rows[0].roleTitle == e.roleTitle then [Assignment(e.empNo, e.roleTitle, rows[0].action)] else [])
      + Inherited(e, rows[1..])
  }

  /** The inner merge on role_title, employee by employee. */
  function JoinAssignments(employees: seq<Employee>, rows: seq<BaselineRow>): (r: seq<Assignment>)
    ensures forall k :: 0 <= k < |r| ==> BaselineRow(r[k].roleTitle, r[k].action) in rows
  {
    if employees == [] then []
    else JoinAssignments(employees[..|employees| - 1], rows) + Inherited(employees[|employees| - 1], rows)
  }

  lemma {:induction false} InheritedMembers(e: Employee, rows: seq<BaselineRow>, x: Assignment)
    ensures x in Inherited(e, rows) <==>
      x.empNo == e.empNo && x.roleTitle == e.roleTitle && BaselineRow(x.roleTitle, x.action) in rows
    ensures |Inherited(e, rows)| == RoleCount(rows, e.roleTitle)
  {
    if rows != [] {
      InheritedMembers(e, rows[1..], x);
      assert rows == [rows[0]] + rows[1..];
    }
  }

  /** Some employee has this number and this role. */
  predicate Employs(employees: seq<Employee>, empNo: int, role: string) {
    exists i :: 0 <= i < |employees| && employees[i].empNo == empNo && employees[i].roleTitle == role
  }

  lemma EmploysSnoc(employees: seq<Employee>, empNo: int, role: string)
    requires employees != []
    ensures var last := employees[|employees| - 1];
      Employs(employees, empNo, role) <==>
        Employs(employees[..|employees| - 1], empNo, role) || (last.empNo == empNo && last.roleTitle == role)
  {
    var init := employees[..|employees| - 1];
    if Employs(employees, empNo, role) {
      var i :| 0 <= i < |employees| && employees[i].empNo == empNo && employees[i].roleTitle == role;
      if i < |init| {
        assert init[i] == employees[i];
      }
    }
    if Employs(init, empNo, role) {
      var i :| 0 <= i < |init| && init[i].empNo == empNo && init[i].roleTitle == role;
      assert employees[i] == init[i];
    }
  }

  /**
   * A joined row is (emp_no, role_title, Action) for an employee and a drawn
   * row of that employee's role, and every such pair gives a joined row.
   */
  lemma {:induction false} JoinMembers(employees: seq<Employee>, rows: seq<BaselineRow>, x: Assignment)
    ensures x in JoinAssignments(employees, rows) <==>
      Employs(employees, x.empNo, x.roleTitle) && BaselineRow(x.roleTitle, x.action) in rows
    decreases |employees|
  {
    if employees != [] {
      var init := employees[..|employees| - 1];
      var e := employees[|employees| - 1];
      assert JoinAssignments(employees, rows) == JoinAssignments(init, rows) + Inherited(e, rows);
      JoinMembers(init, rows, x);
      InheritedMembers(e, rows, x);
      EmploysSnoc(employees, x.empNo, x.roleTitle);
    }
  }

  /** The total of `RoleCount(rows, role)` over the employees' roles. */
  function InheritedTotal(employees: seq<Employee>, rows: seq<BaselineRow>): nat {
    if employees == [] then 0
    else InheritedTotal(employees[..|employees| - 1], rows) + RoleCount(rows, employees[|employees| - 1].roleTitle)
  }

  /** The join has one row per employee per drawn row of that employee's role. */
  lemma {:induction false} JoinCount(employees: seq<Employee>, rows: seq<BaselineRow>)
    ensures |JoinAssignments(employees, rows)| == InheritedTotal(employees, rows)
    decreases |employees|
  {
    if employees != [] {
      JoinCount(employees[..|employees| - 1], rows);
      InheritedMembers(employees[|employees| - 1], rows, Assignment(0, "", ""));
    }
  }

  // ---------------------------------------------------------------------
  // The event log (lines 105-118)
  // ---------------------------------------------------------------------

  /** `ts0`: the start of the 30-day window before `now`. */
  function WindowStart(now: int): int {
    now - EventWindowDays * DaySeconds
  }

  /**
   * What the draws guarantee: per assignment row, `randint(0, 50)` events,
   * each with a day offset `randint(0, 29)` and a second offset
   * `randint(0, 86_400)` (both ends included).
   */
  predicate EventDraws(assign: seq<Assignment>, draws: seq<seq<(int, int)>>) {
    |draws| == |assign| &&
    forall r :: 0 <= r < |draws| ==>
      (|draws[r]| <= MaxEventsPerRow &&
       forall e :: 0 <= e < |draws[r]| ==>
         0 <= draws[r][e].0 <= EventWindowDays - 1 && 0 <= draws[r][e].1 <= DaySeconds)
  }

  function EventOf(row: Assignment, ts0: int, d: (int, int)): AuthEvent {
    AuthEvent(ts0 + d.0 * DaySeconds + d.1, row.empNo, row.action)
  }

  function RowEvents(row: Assignment, ts0: int, ds: seq<(int, int)>): (r: seq<AuthEvent>)
    ensures |r| == |ds|
  {
    seq(|ds|, e requires 0 <= e < |ds| => EventOf(row, ts0, ds[e]))
  }

  /** How many events the draws ask for: the sum of the `randint(0, 50)` counts. */
  function DrawCount(draws: seq<seq<(int, int)>>): nat {
    if draws == [] then 0 else DrawCount(draws[..|draws| - 1]) + |draws[|draws| - 1]|
  }

  /** The log, row by row: one event per draw. */
  function Events(assign: seq<Assignment>, ts0: int, draws: seq<seq<(int, int)>>): (r: seq<AuthEvent>)
    requires |draws| == |assign|
    ensures |r| == DrawCount(draws)
  {
    if assign == [] then []
    else
      var n := |assign| - 1;
      Events(assign[..n], ts0, draws[..n]) + RowEvents(assign[n], ts0, draws[n])
  }

  /**
   * Every event carries the emp_no and Action of an assignment row and lies
   * in [ts0, ts0 + 30 days]; there are at most 50 events per row.
   */
  lemma {:induction false} EventsBounds(assign: seq<Assignment>, ts0: int, draws: seq<seq<(int, int)>>)
    requires EventDraws(assign, draws)
    ensures |Events(assign, ts0, draws)| <= MaxEventsPerRow * |assign|
    ensures forall x :: x in Events(assign, ts0, draws) ==>
      ts0 <= x.timestamp <= ts0 + EventWindowDays * DaySeconds &&
      exists k :: 0 <= k < |assign| && assign[k].empNo == x.empNo && assign[k].action == x.permission
    decreases |assign|
  {
    if assign != [] {
      var n := |assign| - 1;
      assert EventDraws(assign[..n], draws[..n]) by {
        forall r | 0 <= r < n ensures draws[..n][r] == draws[r] { }
      }
      EventsBounds(assign[..n], ts0, draws[..n]);
      var tail := RowEvents(assign[n], ts0, draws[n]);
      forall x | x in Events(assign, ts0, draws)
        ensures ts0 <= x.timestamp <= ts0 + EventWindowDays * DaySeconds
        ensures exists k :: 0 <= k < |assign| && assign[k].empNo == x.empNo && assign[k].action == x.permission
      {
        if x in tail {
          var e :| 0 <= e < |tail| && tail[e] == x;
          assert x == EventOf(assign[n], ts0, draws[n][e]);
        } else {
          var k :| 0 <= k < n && assign[..n][k].empNo == x.empNo && assign[..n][k].action == x.permission;
          assert assign[k] == assign[..n][k];
        }
      }
    }
  }

  /** The nested loops appending to `events`. */
  method GenerateEvents(assign: seq<Assignment>, ts0: int, draws: seq<seq<(int, int)>>) returns (events: seq<AuthEvent>)
    requires EventDraws(assign, draws)
    ensures events == Events(assign, ts0, draws)
  {
    events := [];
    for r := 0 to |assign|
      invariant events == Events(assign[..r], ts0, draws[..r])
    {
      assert assign[..r + 1][..r] == assign[..r] && draws[..r + 1][..r] == draws[..r];
      var rowDraws := draws[r];
      ghost var before := events;
      for e := 0 to |rowDraws|
        invariant events == before + RowEvents(assign[r], ts0, rowDraws[..e])
      {
        var d := rowDraws[e];
        events := events + [AuthEvent(ts0 + d.0 * DaySeconds + d.1, assign[r].empNo, assign[r].action)];
        assert RowEvents(assign[r], ts0, rowDraws[..e + 1]) == RowEvents(assign[r], ts0, rowDraws[..e]) + [EventOf(assign[r], ts0, d)];
      }
      assert rowDraws[..|rowDraws|] == rowDraws;
    }
    assert assign[..|assign|] == assign && draws[..|draws|] == draws;
  }

  /**
   * Read by risk_feature_generator.py at most 60 days after generation, a
   * generated log makes a row dormant exactly when it has no event for that
   * employee and action: every generated event is later than the 90-day cutoff.
   */
  lemma GeneratedDormancy(assign: seq<Assignment>, draws: seq<seq<(int, int)>>, generatedAt: int, now: int, a: Assignment)
    requires EventDraws(assign, draws)
    requires now <= generatedAt + (DormantDays - EventWindowDays) * DaySeconds
    ensures var events := Events(assign, WindowStart(generatedAt), draws);
      Dormant(events, a, now) == 0 <==>
        exists k :: 0 <= k < |events| && events[k].empNo == a.empNo && events[k].permission == a.action
  {
    var events := Events(assign, WindowStart(generatedAt), draws);
    EventsBounds(assign, WindowStart(generatedAt), draws);
    DormantIff(events, a, now);
    if exists k :: 0 <= k < |events| && events[k].empNo == a.empNo && events[k].permission == a.action {
      var k :| 0 <= k < |events| && events[k].empNo == a.empNo && events[k].permission == a.action;
      assert events[k] in events;
    }
  }
}
