/**
 * The entities the analysis engine reads: employees with an optional role,
 * skills, the skill requirements of each role and the assessed proficiency
 * levels.
 */
module Schema {
  import opened Wrappers

  datatype Employee = Employee(id: int, firstName: string, lastName: string, role: Option<int>)

  datatype Skill = Skill(name: string, category: string)

  /** One row of a role's requirements: a skill and the level it demands. */
  datatype Requirement = Requirement(skillId: int, requiredLevel: int)

  /**
   * The tables the engine queries. `roleSkills` maps a role id to its
   * requirement rows in the order the database returns them, and
   * `proficiency` maps (employee id, skill id) to the assessed level.
   */
  datatype Database = Database(
    employees: seq<Employee>,
    skills: map<int, Skill>,
    roleSkills: map<int, seq<Requirement>>,
    proficiency: map<(int, int), int>)

  /** A lookup by id that found no row. */
  datatype LookupError = EmployeeNotFound(employeeId: int) | SkillNotFound(skillId: int)

  /** The display name `first last`. */
  function FullName(e: Employee): string
  {
    e.firstName + " " + e.lastName
  }

  /** The employee with the given id, if any. */
  function FindEmployee(employees: seq<Employee>, id: int): (r: Option<Employee>)
    ensures r.Some? ==> r.value in employees && r.value.id == id
    ensures r.None? <==> forall i | 0 <= i < |employees| :: employees[i].id != id
  {
    if employees == [] then None
    else if employees[0].id == id then Some(employees[0])
    else FindEmployee(employees[1..], id)
  }

  /** The requirement rows of a role; a role without rows requires nothing. */
  function RoleRows(db: Database, roleId: int): seq<Requirement>
  {
    if roleId in db.roleSkills then db.roleSkills[roleId] else []
  }
}
