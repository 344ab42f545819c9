/** The detail modal (`Modal`): the index arithmetic of `navigateModal`
    and the document state that `displayModal` and `closeModal` change.

    The source keeps one field, `modalContainer`, which is either null or the
    element `document.querySelector('.modal-container')` returned when the
    modal was last displayed. `displayModal` appends a new overlay to the
    document without removing any, and `querySelector` returns the first
    match in document order, so the field is modelled together with the
    overlays in the document rather than as a bare open/closed flag. */
module Modal {
  import opened Employees

  /* ----------------------------- Navigation ----------------------------- */

  /** The two buttons: `-1` for Prev, `+1` for Next. */
  datatype Direction = Prev | Next

  function Delta(d: Direction): int {
    if d == Prev then -1 else 1
  }

  /** `list.indexOf(x)`: the position of the first occurrence, or -1. */
  function IndexOf(s: seq<Employee>, x: Employee): (pos: int)
    ensures -1 <= pos < |s|
    ensures pos == -1 <==> x !in s
    ensures 0 <= pos < |s| ==> s[pos] == x && x !in s[..pos]
  {
    if s == [] then -1
    else if s[0] == x then 0
    else
      var j := IndexOf(s[1..], x);
      if j == -1 then -1 else j + 1
  }

  /** The wrap rule: a step below 0 goes to the last index, a step at or
      past the length goes to 0, any other step is taken as it is. */
  function WrapIndex(index: int, delta: int, length: nat): (r: int)
    ensures length > 0 ==> 0 <= r < length
    ensures 0 <= index + delta < length ==> r == index + delta
  {
    var next := index + delta;
    if next < 0 then length - 1
    else if next >= length then 0
    else next
  }

  /** The index `navigateModal` displays: the current employee's position
      in the list, moved one step and wrapped. It is a valid index exactly
      when the list is non-empty. */
  function NavigateIndex(scope: seq<Employee>, current: Employee, d: Direction): (k: int)
    ensures 0 <= k < |scope| <==> |scope| > 0
  {
    WrapIndex(IndexOf(scope, current), Delta(d), |scope|)
  }

  /** No employee appears twice in the list. */
  predicate Distinct(s: seq<Employee>) {
    forall i, j :: 0 <= i < j < |s| ==> s[i] != s[j]
  }

  /** In a list without repeats, `indexOf` finds every entry where it is. */
  lemma IndexOfDistinct(s: seq<Employee>, i: int)
    requires Distinct(s) && 0 <= i < |s|
    ensures IndexOf(s, s[i]) == i
  {
  }

  /** Next from the last entry wraps to the first. */
  lemma NextFromLastWraps(scope: seq<Employee>)
    requires Distinct(scope) && |scope| > 0
    ensures NavigateIndex(scope, scope[|scope| - 1], Next) == 0
  {
    IndexOfDistinct(scope, |scope| - 1);
  }

  /** Prev from the first entry wraps to the last. */
  lemma PrevFromFirstWraps(scope: seq<Employee>)
    requires |scope| > 0
    ensures NavigateIndex(scope, scope[0], Prev) == |scope| - 1
  {
  }

  /** Next from any entry but the last moves one place on. */
  lemma NextSteps(scope: seq<Employee>, i: int)
    requires Distinct(scope) && 0 <= i < |scope| - 1
    ensures NavigateIndex(scope, scope[i], Next) == i + 1
  {
    IndexOfDistinct(scope, i);
  }

  /** With one employee in the list, both buttons stay on it, whoever the
      current employee is. */
  lemma SingletonStays(scope: seq<Employee>, current: Employee, d: Direction)
    requires |scope| == 1
    ensures NavigateIndex(scope, current, d) == 0
  {
  }

  /** When the current employee is not in the list, `indexOf` gives -1:
      Next lands on the first entry and Prev on the last. */
  lemma AbsentCurrent(scope: seq<Employee>, current: Employee)
    requires current !in scope && |scope| > 0
    ensures NavigateIndex(scope, current, Next) == 0
    ensures NavigateIndex(scope, current, Prev) == |scope| - 1
  {
  }

  /** Next then Prev, and Prev then Next, come back to where they started
      when no employee appears twice. */
  lemma NavigateRoundTrip(scope: seq<Employee>, i: int)
    requires Distinct(scope) && 0 <= i < |scope|
    ensures NavigateIndex(scope, scope[NavigateIndex(scope, scope[i], Next)], Prev) == i
    ensures NavigateIndex(scope, scope[NavigateIndex(scope, scope[i], Prev)], Next) == i
  {
    IndexOfDistinct(scope, i);
    var n := NavigateIndex(scope, scope[i], Next);
    var p := NavigateIndex(scope, scope[i], Prev);
    IndexOfDistinct(scope, n);
    IndexOfDistinct(scope, p);
  }

  /* ---------------------------- Modal state ---------------------------- */

  /** One overlay in the document: the employee and the list `displayModal`
      received for it. Only the first overlay in the document gets button
      listeners, since `getElementById` returns the first match. */
  datatype View = View(employee: Employee, scope: seq<Employee>)

  /** The overlays in the document, oldest first, and whether
      `modalContainer` holds one; when it does, it holds the oldest. */
  datatype ModalState = ModalState(overlays: seq<View>, container: bool) {
    predicate Valid() {
      container ==> |overlays| > 0
    }
  }

  /** A new `Modal`: nothing shown and the container null. */
  const Initial := ModalState([], false)

  /** `displayModal`: append an overlay and point the container at the
      first overlay in the document. */
  function DisplayModal(m: ModalState, e: Employee, scope: seq<Employee>): (r: ModalState)
    ensures r.Valid() && r.container
    ensures |r.overlays| == |m.overlays| + 1
    ensures r.overlays[..|m.overlays|] == m.overlays
    ensures r.overlays[|m.overlays|] == View(e, scope)
  {
    ModalState(m.overlays + [View(e, scope)], true)
  }

  /** `closeModal`: remove the overlay the container holds, if any, and
      null the container. */
  function CloseModal(m: ModalState): (r: ModalState)
    requires m.Valid()
    ensures r.Valid() && !r.container
    ensures m.container ==> r.overlays == m.overlays[1..]
    ensures !m.container ==> r == m
  {
    if m.container then ModalState(m.overlays[1..], false) else m
  }

  /** Closing twice is closing once. */
  lemma CloseIdempotent(m: ModalState)
    requires m.Valid()
    ensures CloseModal(CloseModal(m)) == CloseModal(m)
  {
  }

  /** `navigateModal`: close the overlay the container holds, then display
      the employee at the wrapped index with the same list. The list is never empty in the source: the
      buttons are wired only by `displayModal`, whose callers pass the list
      they found the employee in. */
  function NavigateModal(m: ModalState, scope: seq<Employee>, current: Employee, d: Direction): (r: ModalState)
    requires m.Valid() && |scope| > 0
    ensures r.Valid() && r.container
    ensures r.overlays[..|r.overlays| - 1] == (if m.container then m.overlays[1..] else m.overlays)
    ensures var k := NavigateIndex(scope, current, d);
      0 <= k < |scope| && r.overlays[|r.overlays| - 1] == View(scope[k], scope)
  {
    DisplayModal(CloseModal(m), scope[NavigateIndex(scope, current, d)], scope)
  }

  /* ------------------- The two-state view of the modal ------------------- */

  /** What the user sees while the modal is used as the design intends. */
  datatype Overlay = Closed | Open(view: View)

  /** States in which no overlay was ever displayed over an open one:
      nothing in the document, or one overlay held by the container. */
  predicate Simple(m: ModalState) {
    (m.overlays == [] && !m.container) || (|m.overlays| == 1 && m.container)
  }

  function Shown(m: ModalState): Overlay
    requires Simple(m)
  {
    if m.container then Open(m.overlays[0]) else Closed
  }

  /** The new modal is closed. */
  lemma InitialClosed()
    ensures Simple(Initial) && Shown(Initial) == Closed
  {
  }

  /** Closing a simple state leaves it closed. */
  lemma CloseShowsClosed(m: ModalState)
    requires Simple(m)
    ensures Simple(CloseModal(m)) && Shown(CloseModal(m)) == Closed
  {
  }

  /** Displaying from the closed state opens exactly one overlay. */
  lemma DisplayFromClosed(m: ModalState, e: Employee, scope: seq<Employee>)
    requires Simple(m) && Shown(m) == Closed
    ensures Simple(DisplayModal(m, e, scope))
    ensures Shown(DisplayModal(m, e, scope)) == Open(View(e, scope))
  {
  }

  /** Navigating keeps exactly one overlay open, showing the employee at
      the wrapped index within the same list. */
  lemma NavigateShowsOne(m: ModalState, scope: seq<Employee>, current: Employee, d: Direction)
    requires Simple(m) && |scope| > 0
    ensures Simple(NavigateModal(m, scope, current, d))
    ensures Shown(NavigateModal(m, scope, current, d))
         == Open(View(scope[NavigateIndex(scope, current, d)], scope))
  {
  }

  /** Displaying over an open modal breaks the single-overlay picture: two
      overlays end up in the document, the next close removes the older one,
      and the newer one is left with the container null, so further closes
      do nothing. */
  lemma DisplayOverOpenLeavesOverlay(m: ModalState, e: Employee, scope: seq<Employee>)
    requires Simple(m) && m.container
    ensures |DisplayModal(m, e, scope).overlays| == 2
    ensures CloseModal(DisplayModal(m, e, scope)) == ModalState([View(e, scope)], false)
    ensures CloseModal(CloseModal(DisplayModal(m, e, scope))) == ModalState([View(e, scope)], false)
  {
  }
}
