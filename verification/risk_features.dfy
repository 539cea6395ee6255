/**
 * risk_feature_generator.py (lines 55-135): four 0/1 flags and their sum for
 * every row of permission_assignments.csv. Every column is a function of the
 * input tables, so each is a pure function of one assignment row.
 */
module RiskFeatures {
  import opened Basics
  import opened Tables

  /** `PEER_THRESHOLD = 0.20`, as the integer test `5 * holders < role_size`. */
  const PeerThreshold: real := 0.20
  const DormantDays: int := 90

  // ---------------------------------------------------------------------
  // off_baseline (lines 55-65)
  // ---------------------------------------------------------------------

  /** How many baseline rows carry the key (role, action). */
  function BaselineCount(baseline: seq<BaselineRow>, role: string, action: string): (n: nat)
    ensures n <= |baseline|
    ensures n > 0 <==> BaselineRow(role, action) in baseline
  {
    if baseline == [] then 0
    else
      assert baseline == [baseline[0]] + baseline[1..];
      (if baseline[0] == BaselineRow(role, action) then 1 else 0) + BaselineCount(baseline[1..], role, action)
  }

  /** Without repeated rows every key is counted at most once. */
  lemma {:induction false} UniqueBaselineCount(baseline: seq<BaselineRow>, role: string, action: string)
    requires NoDuplicates(baseline)
    ensures BaselineCount(baseline, role, action) <= 1
    decreases |baseline|
  {
    if baseline != [] {
      var rest := baseline[1..];
      assert NoDuplicates(rest) by {
        forall i, j | 0 <= i < j < |rest| ensures rest[i] != rest[j] {
          assert rest[i] == baseline[i + 1] && rest[j] == baseline[j + 1];
        }
      }
      UniqueBaselineCount(rest, role, action);
      if baseline[0] == BaselineRow(role, action) {
        assert BaselineRow(role, action) !in rest by {
          forall j | 0 <= j < |rest| ensures rest[j] != baseline[0] {
            assert rest[j] == baseline[j + 1];
          }
        }
      }
    }
  }

  /**
   * `baseline_lookup.get(key, 0)` yields a number only when the (role_title,
   * Action) index has no repeated pair, or when the key is absent (the
   * default). With a repeated pair anywhere, every present key yields a
   * Series, and the `if` on line 63 then raises.
   */
  predicate LookupDefined(baseline: seq<BaselineRow>, a: Assignment) {
    NoDuplicates(baseline) || BaselineRow(a.roleTitle, a.action) !in baseline
  }

  /** The value of `baseline_lookup.get((role_title, Action), 0)`. */
  function BaselineLookup(baseline: seq<BaselineRow>, a: Assignment): (v: int)
    requires LookupDefined(baseline, a)
    ensures v == 0 || v == 1
  {
    if BaselineCount(baseline, a.roleTitle, a.action) == 1 then 1 else 0
  }

  /** 0 exactly when the pair (role_title, Action) is in the baseline. */
  function OffBaseline(baseline: seq<BaselineRow>, a: Assignment): (r: int)
    requires LookupDefined(baseline, a)
    ensures r == 0 || r == 1
    ensures r == 0 <==> BaselineRow(a.roleTitle, a.action) in baseline
  {
    if NoDuplicates(baseline) then
      UniqueBaselineCount(baseline, a.roleTitle, a.action);
      if BaselineLookup(baseline, a) == 1 then 0 else 1
    else
      if BaselineLookup(baseline, a) == 1 then 0 else 1
  }

  // ---------------------------------------------------------------------
  // peer_outlier (lines 70-80)
  // ---------------------------------------------------------------------

  /** The distinct `emp_no` of the assignment rows with this (role_title, Action). */
  function Holders(assign: seq<Assignment>, role: string, action: string): set<int> {
    set k | 0 <= k < |assign| && assign[k].roleTitle == role && assign[k].action == action :: assign[k].empNo
  }

  /** The distinct `emp_no` of the employees with this role (empty for an unknown role). */
  function RoleMembers(employees: seq<Employee>, role: string): set<int> {
    set k | 0 <= k < |employees| && employees[k].roleTitle == role :: employees[k].empNo
  }

  /**
   * `peer_pct < PEER_THRESHOLD`: a role missing from the employee table gives
   * NaN, and the comparison is then false.
   */
  function PeerOutlier(assign: seq<Assignment>, employees: seq<Employee>, a: Assignment): (r: int)
    ensures r == 0 || r == 1
  {
    var holders := |Holders(assign, a.roleTitle, a.action)|;
    var size := |RoleMembers(employees, a.roleTitle)|;
    if 5 * holders < size then 1 else 0
  }

  /** With a positive factor `b`, the product `a * b` has the sign of `a`. */
  lemma ProductPositive(a: real, b: real)
    requires b > 0.0
    ensures a * b > 0.0 <==> a > 0.0
  {
    if a <= 0.0 {
      assert a * b <= 0.0 * b;
    }
  }

  /** For a positive size, the ratio is below 0.20 exactly when five times the count is below the size. */
  lemma RatioBelowThreshold(h: nat, n: nat)
    requires n > 0
    ensures (h as real) / (n as real) < PeerThreshold <==> 5 * h < n
  {
    var x := h as real;
    var y := n as real;
    var q := x / y;
    var gap := PeerThreshold - q;
    assert q * y == x;
    assert gap * y == y / 5.0 - x;
    ProductPositive(gap, y);
    assert 5.0 * x < y <==> 5 * h < n;
  }

  /** The integer test is the ratio test of line 80 against 0.20, over the reals. */
  lemma PeerOutlierRatio(assign: seq<Assignment>, employees: seq<Employee>, a: Assignment)
    ensures var holders := |Holders(assign, a.roleTitle, a.action)| as real;
      var size := |RoleMembers(employees, a.roleTitle)| as real;
      PeerOutlier(assign, employees, a) == 1 <==> size > 0.0 && holders / size < PeerThreshold
  {
    var size := |RoleMembers(employees, a.roleTitle)|;
    if size > 0 {
      RatioBelowThreshold(|Holders(assign, a.roleTitle, a.action)|, size);
    }
  }

  /**
   * The row itself is a holder, so a role with at most five employees never
   * makes its rows peer outliers; in particular a one-person role does not.
   */
  lemma PeerOutlierSmallRole(assign: seq<Assignment>, employees: seq<Employee>, k: nat)
    requires k < |assign|
    requires |RoleMembers(employees, assign[k].roleTitle)| <= 5
    ensures PeerOutlier(assign, employees, assign[k]) == 0
  {
    assert assign[k].empNo in Holders(assign, assign[k].roleTitle, assign[k].action);
  }

  // ---------------------------------------------------------------------
  // dormant (lines 85-99)
  // ---------------------------------------------------------------------

  /** The timestamps of the events of (emp_no, permission). */
  function UsedAt(events: seq<AuthEvent>, empNo: int, action: string): seq<int> {
    if events == [] then []
    else
      (if events[0].empNo == empNo && events[0].permission == action then [events[0].timestamp] else [])
      + UsedAt(events[1..], empNo, action)
  }

  lemma {:induction false} UsedAtMembers(events: seq<AuthEvent>, empNo: int, action: string, t: int)
    ensures t in UsedAt(events, empNo, action) <==>
      exists k :: 0 <= k < |events| && events[k] == AuthEvent(t, empNo, action)
  {
    if events != [] {
      UsedAtMembers(events[1..], empNo, action, t);
      if exists k :: 0 <= k < |events[1..]| && events[1..][k] == AuthEvent(t, empNo, action) {
        var k :| 0 <= k < |events[1..]| && events[1..][k] == AuthEvent(t, empNo, action);
        assert events[k + 1] == AuthEvent(t, empNo, action);
      }
      if exists k :: 0 <= k < |events| && events[k] == AuthEvent(t, empNo, action) {
        var k :| 0 <= k < |events| && events[k] == AuthEvent(t, empNo, action);
        if k > 0 {
          assert events[1..][k - 1] == AuthEvent(t, empNo, action);
        }
      }
    }
  }

  /** `.max()` of a non-empty group. */
  function MaxOf(ts: seq<int>): (m: int)
    requires ts != []
    ensures m in ts
    ensures forall t :: t in ts ==> t <= m
  {
    if |ts| == 1 then ts[0]
    else
      var rest := MaxOf(ts[1..]);
      assert ts == [ts[0]] + ts[1..];
      if ts[0] < rest then rest else ts[0]
  }

  /** `last_used`: the latest use of the action by the employee, if any (the left join's NaN otherwise). */
  function LastUsed(events: seq<AuthEvent>, a: Assignment): Option<int> {
    var ts := UsedAt(events, a.empNo, a.action);
    if ts == [] then None else Some(MaxOf(ts))
  }

  function Cutoff(now: int): int {
    now - DormantDays * DaySeconds
  }

  /** Lines 85-99, with `datetime.now()` as the parameter `now`. */
  function Dormant(events: seq<AuthEvent>, a: Assignment, now: int): (r: int)
    ensures r == 0 || r == 1
  {
    if events == [] then 1
    else match LastUsed(events, a)
      case None => 1
      case Some(last) => if last < Cutoff(now) then 1 else 0
  }

  /**
   * Dormant is 0 exactly when some event of the employee and action is at or
   * after the cutoff; with no events at all, every row is dormant.
   */
  lemma DormantIff(events: seq<AuthEvent>, a: Assignment, now: int)
    ensures Dormant(events, a, now) == 0 <==>
      exists k :: 0 <= k < |events| && events[k].empNo == a.empNo && events[k].permission == a.action &&
                  events[k].timestamp >= Cutoff(now)
    ensures events == [] ==> Dormant(events, a, now) == 1
  {
    var ts := UsedAt(events, a.empNo, a.action);
    if exists k :: 0 <= k < |events| && events[k].empNo == a.empNo && events[k].permission == a.action &&
                   events[k].timestamp >= Cutoff(now) {
      var k :| 0 <= k < |events| && events[k].empNo == a.empNo && events[k].permission == a.action &&
               events[k].timestamp >= Cutoff(now);
      UsedAtMembers(events, a.empNo, a.action, events[k].timestamp);
    }
    if Dormant(events, a, now) == 0 {
      var last := MaxOf(ts);
      UsedAtMembers(events, a.empNo, a.action, last);
    }
  }

  // ---------------------------------------------------------------------
  // high_sensitivity (lines 104-109)
  // ---------------------------------------------------------------------

  /** The first row for the action: the one `drop_duplicates("Action")` keeps. */
  function FirstWithAction(permissions: seq<PermissionRow>, action: string): (r: Option<nat>)
    ensures r.None? <==> forall k :: 0 <= k < |permissions| ==> permissions[k].action != action
    ensures r.Some? ==> r.value < |permissions| && permissions[r.value].action == action &&
                        forall k :: 0 <= k < r.value ==> permissions[k].action != action
  {
    if permissions == [] then None
    else if permissions[0].action == action then Some(0)
    else match FirstWithAction(permissions[1..], action)
      case None => None
      case Some(k) => Some(k + 1)
  }

  /** `map` gives NaN for an action missing from the catalogue, and `astype(int)` then raises. */
  predicate ActionKnown(permissions: seq<PermissionRow>, a: Assignment) {
    exists k :: 0 <= k < |permissions| && permissions[k].action == a.action
  }

  /** The flag of the first catalogue row with the action. */
  function HighSensitivity(permissions: seq<PermissionRow>, a: Assignment): (r: int)
    requires ActionKnown(permissions, a)
    ensures r == 0 || r == 1
    ensures exists k ::
      (0 <= k < |permissions| && permissions[k].action == a.action &&
       (forall m :: 0 <= m < k ==> permissions[m].action != a.action) &&
       (r == 1 <==> permissions[k].highSensitivity))
  {
    var k := FirstWithAction(permissions, a.action).value;
    if permissions[k].highSensitivity then 1 else 0
  }

  // ---------------------------------------------------------------------
  // risk_score and the output table (lines 114-135)
  // ---------------------------------------------------------------------

  /** A row of risk_features.csv. */
  datatype FeatureRow = FeatureRow(
    empNo: int, roleTitle: string, action: string,
    offBaseline: int, peerOutlier: int, dormant: int, highSensitivity: int, riskScore: int)

  /** What the script needs of its tables to produce the feature table without an exception. */
  predicate TablesUsable(assign: seq<Assignment>, baseline: seq<BaselineRow>, permissions: seq<PermissionRow>) {
    forall k :: 0 <= k < |assign| ==> LookupDefined(baseline, assign[k]) && ActionKnown(permissions, assign[k])
  }

  function FeatureOf(a: Assignment, assign: seq<Assignment>, baseline: seq<BaselineRow>, employees: seq<Employee>,
                     events: seq<AuthEvent>, permissions: seq<PermissionRow>, now: int): (f: FeatureRow)
    requires LookupDefined(baseline, a) && ActionKnown(permissions, a)
    ensures f.empNo == a.empNo && f.roleTitle == a.roleTitle && f.action == a.action
    ensures 0 <= f.offBaseline <= 1 && 0 <= f.peerOutlier <= 1 && 0 <= f.dormant <= 1 && 0 <= f.highSensitivity <= 1
    ensures 0 <= f.riskScore <= 4
  {
    var off := OffBaseline(baseline, a);
    var peer := PeerOutlier(assign, employees, a);
    var dormant := Dormant(events, a, now);
    var high := HighSensitivity(permissions, a);
    FeatureRow(a.empNo, a.roleTitle, a.action, off, peer, dormant, high, off + peer + dormant + high)
  }

  /**
   * The feature table: the joins on lines 77, 78 and 92 are keyed by unique
   * aggregates, so each assignment row gives exactly one feature row.
   */
  function Features(assign: seq<Assignment>, baseline: seq<BaselineRow>, employees: seq<Employee>,
                    events: seq<AuthEvent>, permissions: seq<PermissionRow>, now: int): (r: seq<FeatureRow>)
    requires TablesUsable(assign, baseline, permissions)
    ensures |r| == |assign|
  {
    seq(|assign|, k requires 0 <= k < |assign| => FeatureOf(assign[k], assign, baseline, employees, events, permissions, now))
  }

  /**
   * One feature row per assignment row, in the same order and with the same
   * emp_no, role_title and Action; each flag is 0 or 1 and the score is their
   * sum, so it lies in 0..4.
   */
  lemma FeaturesRows(assign: seq<Assignment>, baseline: seq<BaselineRow>, employees: seq<Employee>,
                     events: seq<AuthEvent>, permissions: seq<PermissionRow>, now: int, k: nat)
    requires TablesUsable(assign, baseline, permissions) && k < |assign|
    ensures var f := Features(assign, baseline, employees, events, permissions, now)[k];
      f.empNo == assign[k].empNo && f.roleTitle == assign[k].roleTitle && f.action == assign[k].action &&
      0 <= f.offBaseline <= 1 && 0 <= f.peerOutlier <= 1 && 0 <= f.dormant <= 1 && 0 <= f.highSensitivity <= 1 &&
      f.riskScore == f.offBaseline + f.peerOutlier + f.dormant + f.highSensitivity &&
      0 <= f.riskScore <= 4
  {
  }
}
