/** The board page's navigation state: the current board and department and
    the department accordion, in which clicking a department opens it and
    closes all others, and clicking an open one closes it. */
module BoardView {
  import opened Departments

  type Accordion = map<string, bool>

  /** `expandedDepartments[id]` is truthy: present and set. */
  predicate IsOpen(m: Accordion, d: string) {
    d in m && m[d]
  }

  /** At most one department is expanded. */
  ghost predicate AtMostOneOpen(m: Accordion) {
    forall a, b :: IsOpen(m, a) && IsOpen(m, b) ==> a == b
  }

  /** Every known department collapsed. */
  function Collapsed(m: Accordion): (r: Accordion)
    ensures r.Keys == m.Keys
    ensures forall d :: !IsOpen(r, d)
  {
    map d | d in m :: false
  }

  /** The accordion after `toggleDepartment(d)`. */
  function ToggledAccordion(m: Accordion, d: string): Accordion {
    if IsOpen(m, d) then m[d := false] else Collapsed(m)[d := true]
  }

  /** Clicking an open department closes it and leaves the others as they
      were; clicking any other department leaves exactly that one open. */
  lemma ToggleDepartmentEffect(m: Accordion, d: string)
    ensures IsOpen(m, d) ==> !IsOpen(ToggledAccordion(m, d), d)
    ensures IsOpen(m, d) ==> forall x :: x != d ==> (IsOpen(ToggledAccordion(m, d), x) <==> IsOpen(m, x))
    ensures !IsOpen(m, d) ==> forall x :: IsOpen(ToggledAccordion(m, d), x) <==> x == d
  {
  }

  /** If at most one department was open, at most one is open afterwards. */
  lemma ToggleKeepsAtMostOneOpen(m: Accordion, d: string)
    requires AtMostOneOpen(m)
    ensures AtMostOneOpen(ToggledAccordion(m, d))
  {
    ToggleDepartmentEffect(m, d);
  }

  /** What the board page shows. */
  datatype View = View(currentBoard: string, currentDepartment: string, expanded: Accordion)

  /** The page as it starts: the whole-school free board, with the free
      department open. */
  const INITIAL_VIEW: View := View("free_board", FREE, map[FREE := true])

  /** The view after `switchBoard(boardId)`: a board of a department the
      user may not use is refused and nothing changes; otherwise the board
      becomes current and, when it belongs to a department, that department
      becomes current and is the only one open. A board no department lists
      still becomes current. */
  function Switched(userDept: string, v: View, boardId: string): View {
    match DepartmentOfBoard(boardId)
    case Some(d) =>
      if !CanAccessDepartment(userDept, d.id) then v
      else View(boardId, d.id, Collapsed(v.expanded)[d.id := true])
    case None => v.(currentBoard := boardId)
  }

  /** The current board is never a board of a department the user may not
      use. */
  predicate CurrentBoardAllowed(userDept: string, v: View) {
    match DepartmentOfBoard(v.currentBoard)
    case Some(d) => CanAccessDepartment(userDept, d.id)
    case None => true
  }

  /** The switch guard: a board of an inaccessible department leaves the
      whole view unchanged, and every other board becomes current. */
  lemma SwitchGuard(userDept: string, v: View, boardId: string)
    ensures DepartmentOfBoard(boardId).Some? && !CanAccessDepartment(userDept, DepartmentOfBoard(boardId).value.id)
      ==> Switched(userDept, v, boardId) == v
    ensures !(DepartmentOfBoard(boardId).Some? && !CanAccessDepartment(userDept, DepartmentOfBoard(boardId).value.id))
      ==> Switched(userDept, v, boardId).currentBoard == boardId
  {
  }

  /** A switch to a board of an accessible department makes that department
      current and leaves it the only one open. */
  lemma SwitchOpensOnlyBoardsDepartment(userDept: string, v: View, boardId: string)
    requires DepartmentOfBoard(boardId).Some?
    requires CanAccessDepartment(userDept, DepartmentOfBoard(boardId).value.id)
    ensures Switched(userDept, v, boardId).currentDepartment == DepartmentOfBoard(boardId).value.id
    ensures forall x :: IsOpen(Switched(userDept, v, boardId).expanded, x) <==> x == DepartmentOfBoard(boardId).value.id
  {
  }

  /** Both actions keep at most one department open and never make a board
      of an inaccessible department current. */
  lemma SwitchKeepsInvariants(userDept: string, v: View, boardId: string)
    requires AtMostOneOpen(v.expanded) && CurrentBoardAllowed(userDept, v)
    ensures AtMostOneOpen(Switched(userDept, v, boardId).expanded)
    ensures CurrentBoardAllowed(userDept, Switched(userDept, v, boardId))
  {
    if DepartmentOfBoard(boardId).Some? && CanAccessDepartment(userDept, DepartmentOfBoard(boardId).value.id) {
      SwitchOpensOnlyBoardsDepartment(userDept, v, boardId);
    }
  }

  lemma InitialViewIsValid(userDept: string)
    ensures AtMostOneOpen(INITIAL_VIEW.expanded) && CurrentBoardAllowed(userDept, INITIAL_VIEW)
  {
    BoardsHaveOneDepartment("free_board", 0);
  }

  /** The page's state, updated in place by the click handlers. */
  class BoardPage {
    var currentBoard: string
    var currentDepartment: string
    var expanded: Accordion
    const userDepartment: string

    function State(): View
      reads this
    {
      View(currentBoard, currentDepartment, expanded)
    }

    ghost predicate Valid()
      reads this
    {
      AtMostOneOpen(expanded) && CurrentBoardAllowed(userDepartment, State())
    }

    /** The page's globals as the script loads. */
    constructor (injectedDepartment: string)
      ensures Valid()
      ensures State() == INITIAL_VIEW && userDepartment == UserDepartment(injectedDepartment)
    {
      currentBoard := "free_board";
      currentDepartment := FREE;
      expanded := map[FREE := true];
      userDepartment := UserDepartment(injectedDepartment);
      InitialViewIsValid(UserDepartment(injectedDepartment));
    }

    /** `Object.keys(expandedDepartments).forEach(id => expandedDepartments[id] = false)`. */
    method CollapseAll()
      modifies this`expanded
      ensures expanded == Collapsed(old(expanded))
    {
      var pending := expanded.Keys;
      while pending != {}
        invariant pending <= expanded.Keys && expanded.Keys == old(expanded).Keys
        invariant forall d :: d in expanded && d !in pending ==> !expanded[d]
        invariant forall d :: d in pending ==> expanded[d] == old(expanded)[d]
        decreases pending
      {
        var d :| d in pending;
        expanded := expanded[d := false];
        pending := pending - {d};
      }
    }

    /** `toggleDepartment`. */
    method ToggleDepartment(departmentId: string)
      requires Valid()
      modifies this`expanded
      ensures Valid()
      ensures expanded == ToggledAccordion(old(expanded), departmentId)
    {
      ToggleKeepsAtMostOneOpen(expanded, departmentId);
      if departmentId in expanded && expanded[departmentId] {
        expanded := expanded[departmentId := false];
      } else {
        CollapseAll();
        expanded := expanded[departmentId := true];
      }
    }

    /** `switchBoard`, without the alert, the highlighting and the redraw. */
    method SwitchBoard(boardId: string)
      requires Valid()
      modifies this`currentBoard, this`currentDepartment, this`expanded
      ensures Valid()
      ensures State() == Switched(userDepartment, old(State()), boardId)
    {
      SwitchKeepsInvariants(userDepartment, State(), boardId);
      var department := FindDepartment(DEPARTMENTS, boardId);
      if department.Some? && !CanAccessDepartment(userDepartment, department.value.id) {
        return;
      }
      currentBoard := boardId;
      if department.Some? {
        currentDepartment := department.value.id;
        CollapseAll();
        expanded := expanded[department.value.id := true];
      }
    }
  }
}
