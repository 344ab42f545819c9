/** The gallery click handler: the clicked card's email text is looked up
    in the filtered view with `find`, and the modal is opened on the match
    with the filtered view as its list. Rendering the cards and reading the
    text back out of the clicked card are DOM work and are not modelled; a
    card shows its employee's `email` verbatim, so the text read back is
    that email. */
module Gallery {
  import opened Options
  import opened Employees
  import opened Directory
  import opened Modal
  import Text

  /** Entry `i` is the first one whose email is `email`. */
  predicate FirstWithEmail(es: seq<Employee>, email: string, i: int) {
    && 0 <= i < |es|
    && es[i].email == email
    && forall j :: 0 <= j < i ==> es[j].email != email
  }

  /** `list.find(emp => emp.email === email)`. */
  function FindByEmail(es: seq<Employee>, email: string): (r: Option<Employee>)
    ensures r.None? <==> forall i :: 0 <= i < |es| ==> es[i].email != email
    ensures r.Some? ==> exists i :: FirstWithEmail(es, email, i) && es[i] == r.value
  {
    if es == [] then None
    else if es[0].email == email then
      assert FirstWithEmail(es, email, 0);
      Some(es[0])
    else
      var r := FindByEmail(es[1..], email);
      if r.Some? then
        var i :| FirstWithEmail(es[1..], email, i) && es[1..][i] == r.value;
        assert FirstWithEmail(es, email, i + 1);
        r
      else r
  }

  /** A click on a card whose email text is `cardEmail`. */
  function CardClick(m: Manager, modal: ModalState, cardEmail: string): (r: ModalState)
    ensures FindByEmail(m.filteredEmployees, cardEmail).None? ==> r == modal
    ensures FindByEmail(m.filteredEmployees, cardEmail).Some? ==>
      && r.container
      && |r.overlays| == |modal.overlays| + 1
      && r.overlays[..|modal.overlays|] == modal.overlays
      && var v := r.overlays[|modal.overlays|];
         v.scope == m.filteredEmployees && v.employee in v.scope && v.employee.email == cardEmail
  {
    match FindByEmail(m.filteredEmployees, cardEmail)
    case None => modal
    case Some(e) => DisplayModal(modal, e, m.filteredEmployees)
  }

  /** A click on the card of the `k`-th filtered employee opens the modal
      on that employee, provided no earlier card shows the same email. */
  lemma ClickOpensCard(m: Manager, modal: ModalState, k: int)
    requires 0 <= k < |m.filteredEmployees|
    requires forall j :: 0 <= j < k ==> m.filteredEmployees[j].email != m.filteredEmployees[k].email
    ensures var r := CardClick(m, modal, m.filteredEmployees[k].email);
      r.overlays[|modal.overlays|] == View(m.filteredEmployees[k], m.filteredEmployees)
  {
    var es := m.filteredEmployees;
    var r := FindByEmail(es, es[k].email);
    var i :| FirstWithEmail(es, es[k].email, i) && es[i] == r.value;
    assert !(i < k) && !(k < i);
  }

  /** Identity by email text is fragile: when an earlier card shows the
      same email, a click on the later card opens the earlier employee. */
  lemma SharedEmailOpensEarlier(m: Manager, modal: ModalState, i: int, k: int)
    requires 0 <= i < k < |m.filteredEmployees|
    requires FirstWithEmail(m.filteredEmployees, m.filteredEmployees[k].email, i)
    ensures var r := CardClick(m, modal, m.filteredEmployees[k].email);
      r.overlays[|modal.overlays|] == View(m.filteredEmployees[i], m.filteredEmployees)
  {
    var es := m.filteredEmployees;
    var r := FindByEmail(es, es[k].email);
    var i' :| FirstWithEmail(es, es[k].email, i') && es[i'] == r.value;
    assert !(i' < i) && !(i < i');
  }

  /** A modal opened from a card can be navigated: its list is non-empty
      and holds the employee it shows. */
  lemma ClickedModalNavigable(m: Manager, modal: ModalState, cardEmail: string)
    requires FindByEmail(m.filteredEmployees, cardEmail).Some?
    ensures var v := CardClick(m, modal, cardEmail).overlays[|modal.overlays|];
      |v.scope| > 0 && 0 <= IndexOf(v.scope, v.employee)
  {
  }

  /* ------------------------------ Scenarios ------------------------------ */

  /** Three employees named Ann Lee, Bob Lee and Cara Ng, in that order. */
  predicate AnnBobCara(ann: Employee, bob: Employee, cara: Employee) {
    && ann.name == Name("Ann", "Lee")
    && bob.name == Name("Bob", "Lee")
    && cara.name == Name("Cara", "Ng")
  }

  /** Searching "lee" keeps Ann Lee and Bob Lee, in that order. */
  lemma SearchLeeScenario(ann: Employee, bob: Employee, cara: Employee)
    requires AnnBobCara(ann, bob, cara)
    ensures FilterByName([ann, bob, cara], "lee") == [ann, bob]
  {
    LeeMatches(ann, bob, cara);
    assert [ann, bob, cara][1..] == [bob, cara] && [bob, cara][1..] == [cara] && [cara][1..] == [];
    assert FilterByName([cara], "lee") == [];
    assert FilterByName([bob, cara], "lee") == [bob];
  }

  lemma LeeMatches(ann: Employee, bob: Employee, cara: Employee)
    requires AnnBobCara(ann, bob, cara)
    ensures NameMatches(ann, "lee") && NameMatches(bob, "lee") && !NameMatches(cara, "lee")
  {
    SurnameLeeMatches(ann);
    SurnameLeeMatches(bob);
    MissingLetter(cara, "lee");
  }

  /** Searching "z" keeps nobody. */
  lemma SearchNobodyScenario(ann: Employee, bob: Employee, cara: Employee)
    requires AnnBobCara(ann, bob, cara)
    ensures FilterByName([ann, bob, cara], "z") == []
  {
    MissingLetter(ann, "z");
    MissingLetter(bob, "z");
    MissingLetter(cara, "z");
    assert [ann, bob, cara][1..] == [bob, cara] && [bob, cara][1..] == [cara] && [cara][1..] == [];
    assert FilterByName([cara], "z") == [];
    assert FilterByName([bob, cara], "z") == [];
  }

  /** Anyone whose last name is Lee matches the search "lee". */
  lemma SurnameLeeMatches(e: Employee)
    requires e.name.last == "Lee"
    ensures NameMatches(e, "lee")
  {
    var first := e.name.first;
    Text.LowerAppend(first + " ", "Lee");
    var lowered := Text.Lower(first + " ") + "lee";
    assert Text.OccursAt(lowered, Text.Lower("lee"), |first| + 1);
    MatchesAt(e, "lee", lowered, |first| + 1);
  }

  /** A search term that starts with a letter the full name holds in
      neither case does not match. */
  lemma MissingLetter(e: Employee, term: string)
    requires |term| > 0 && 'a' <= Text.LowerChar(term[0]) <= 'z'
    requires Text.LowerChar(term[0]) !in FullName(e)
    requires (Text.LowerChar(term[0]) as int - 32) as char !in FullName(e)
    ensures !NameMatches(e, term)
  {
    var name := FullName(e);
    var c := Text.LowerChar(term[0]);
    forall i | 0 <= i < |name|
      ensures Text.Lower(name)[i] != c
    {
      assert name[i] != c && name[i] as int != c as int - 32;
    }
    Text.ContainsFirstChar(Text.Lower(name), Text.Lower(term));
  }

  /** A search term whose lower-cased form occurs in the lower-cased full name matches. */
  lemma MatchesAt(e: Employee, term: string, lowered: string, i: int)
    requires Text.Lower(FullName(e)) == lowered
    requires Text.OccursAt(lowered, Text.Lower(term), i)
    ensures NameMatches(e, term)
  {
    Text.ContainsIffOccurs(lowered, Text.Lower(term));
  }

  /** Clearing the search shows all three again, in their original order. */
  lemma ClearSearchScenario(ann: Employee, bob: Employee, cara: Employee)
    requires AnnBobCara(ann, bob, cara)
    ensures FilterByName([ann, bob, cara], "") == [ann, bob, cara]
  {
    FilterEmptyTerm([ann, bob, cara]);
  }

  /** Opening Bob Lee from the three and pressing Next twice shows Ann Lee.
      Each press navigates from the employee the shown overlay was displayed with. */
  lemma NavigateScenario(ann: Employee, bob: Employee, cara: Employee)
    requires AnnBobCara(ann, bob, cara)
    ensures var three := [ann, bob, cara];
      var start := DisplayModal(Initial, bob, three);
      var once := NavigateModal(start, three, start.overlays[0].employee, Next);
      var twice := NavigateModal(once, three, once.overlays[0].employee, Next);
      Simple(once) && Shown(once) == Open(View(cara, three))
      && Simple(twice) && Shown(twice) == Open(View(ann, three))
  {
    var three := [ann, bob, cara];
    assert ann.name.first != bob.name.first && bob.name.first != cara.name.first && ann.name.first != cara.name.first;
    assert Distinct(three);
    IndexOfDistinct(three, 1);
    IndexOfDistinct(three, 2);
  }

  /** A load answered with an error status leaves the new store empty. */
  lemma FailedLoadScenario(url: string, body: Body)
    ensures FetchEmployees(NewManager(url), Response(false, body)).filteredEmployees == []
  {
  }
}
