/** The board catalogue and department access control: every user may use the
    free boards, and a user whose department is known may also use that
    department's boards. The department is injected into the page by the
    server and is passed in here as a string (empty when it was not set). */
module Departments {
  import opened Optional

  /** A department of the tree with the ids of its boards. */
  datatype Department = Department(id: string, name: string, boards: seq<string>)

  /** The six departments and their boards, in display order. */
  const DEPARTMENTS: seq<Department> := [
    Department("free", "자유게시판", ["free_board", "free_study", "free_market"]),
    Department("ai", "AI융합학부", ["ai_free", "ai_study", "ai_jobs", "ai_market"]),
    Department("bible", "성서학과", ["bible_free", "bible_study", "bible_jobs", "bible_market"]),
    Department("nursing", "간호학과", ["nursing_free", "nursing_study", "nursing_jobs", "nursing_market"]),
    Department("child", "영유아보육학과", ["child_free", "child_study", "child_jobs", "child_market"]),
    Department("social", "사회복지학과", ["social_free", "social_study", "social_jobs", "social_market"])
  ]

  const FREE: string := "free"

  /** `window.userDepartment || 'free'`: a missing department counts as the
      free one. */
  function UserDepartment(injected: string): (dept: string)
    ensures dept != []
    ensures injected != [] ==> dept == injected
    ensures injected == [] ==> dept == FREE
  {
    if injected != [] then injected else FREE
  }

  /** The user's own department is set: it is non-empty and is neither the
      free department nor the placeholder "unknown". The catalogue is not
      consulted, so a department it does not list also qualifies. */
  predicate IsOwnDepartmentSet(userDept: string) {
    userDept != [] && userDept != FREE && userDept != "unknown"
  }

  /** `getAccessibleDepartments`: the free department first, then the
      user's own department when it is set. */
  function AccessibleDepartments(userDept: string): (r: seq<string>)
    ensures 1 <= |r| <= 2 && r[0] == FREE
    ensures forall d :: d in r ==> d == FREE || d == userDept
    ensures userDept != FREE ==> (userDept in r <==> IsOwnDepartmentSet(userDept))
    ensures forall i, j :: 0 <= i < j < |r| ==> r[i] != r[j]
  {
    var accessible := [FREE];
    if IsOwnDepartmentSet(userDept) then accessible + [userDept] else accessible
  }

  /** `canAccessDepartment`: the free department, or the user's own one
      when it is set (non-empty, not "free", not "unknown"). */
  function CanAccessDepartment(userDept: string, deptId: string): (ok: bool)
    ensures ok <==> deptId == FREE || (deptId == userDept && IsOwnDepartmentSet(userDept))
  {
    deptId in AccessibleDepartments(userDept)
  }

  /** The first department in `ds` that lists `boardId`. */
  function FindDepartment(ds: seq<Department>, boardId: string): (r: Option<Department>)
    ensures r.None? <==> forall i :: 0 <= i < |ds| ==> boardId !in ds[i].boards
    ensures r.Some? ==> exists i :: 0 <= i < |ds| && ds[i] == r.value && boardId in ds[i].boards
  {
    if ds == [] then None
    else if boardId in ds[0].boards then Some(ds[0])
    else
      var r := FindDepartment(ds[1..], boardId);
      assert forall i :: 1 <= i < |ds| ==> ds[1..][i - 1] == ds[i];
      r
  }

  /** The department a board belongs to, if any. */
  function DepartmentOfBoard(boardId: string): Option<Department> {
    FindDepartment(DEPARTMENTS, boardId)
  }

  /** Each board id starts with the first letter of its department's id,
      and the six department ids start with six different letters. */
  lemma BoardIdsCarryDepartmentInitial()
    ensures forall i, b :: 0 <= i < |DEPARTMENTS| && b in DEPARTMENTS[i].boards ==> b != [] && b[0] == DEPARTMENTS[i].id[0]
    ensures forall i, j :: 0 <= i < j < |DEPARTMENTS| ==> DEPARTMENTS[i].id[0] != DEPARTMENTS[j].id[0]
  {
  }

  /** No board is listed by two departments, so the department a board is
      found in is the only one listing it. */
  lemma {:induction false} BoardsHaveOneDepartment(boardId: string, i: nat)
    requires i < |DEPARTMENTS| && boardId in DEPARTMENTS[i].boards
    ensures DepartmentOfBoard(boardId) == Some(DEPARTMENTS[i])
  {
    BoardIdsCarryDepartmentInitial();
    var d := DepartmentOfBoard(boardId).value;
    var j :| 0 <= j < |DEPARTMENTS| && DEPARTMENTS[j] == d && boardId in DEPARTMENTS[j].boards;
    assert DEPARTMENTS[i].id[0] == DEPARTMENTS[j].id[0];
  }

  /** The free boards are open to every user; the boards of another
      department are open exactly to its own members. */
  lemma BoardAccess(userDept: string, boardId: string, i: nat)
    requires i < |DEPARTMENTS| && boardId in DEPARTMENTS[i].boards
    ensures i == 0 ==> CanAccessDepartment(userDept, DepartmentOfBoard(boardId).value.id)
    ensures i > 0 ==> (CanAccessDepartment(userDept, DepartmentOfBoard(boardId).value.id) <==> userDept == DEPARTMENTS[i].id)
  {
    BoardsHaveOneDepartment(boardId, i);
  }
}
