/**
 * The CSV tables that Generate_data.py writes and risk_feature_generator.py
 * reads, one datatype per row. Timestamps are whole seconds.
 */
module Tables {
  import opened Basics

  /** A row of employees.csv. */
  datatype Employee = Employee(empNo: int, managerEmpNo: Option<int>, roleTitle: string)

  /** A row of permissions.csv: one privilege of one catalogue entry. */
  datatype PermissionRow = PermissionRow(prefix: string, serviceName: string, action: string, accessLevel: string, highSensitivity: bool)

  /** A row of role_permission_baseline.csv (and of the assignment draw before the join). */
  datatype BaselineRow = BaselineRow(roleTitle: string, action: string)

  /** A row of permission_assignments.csv. */
  datatype Assignment = Assignment(empNo: int, roleTitle: string, action: string)

  /** A row of auth_events.csv. */
  datatype AuthEvent = AuthEvent(timestamp: int, empNo: int, permission: string)

  const DaySeconds: int := 86400
}
