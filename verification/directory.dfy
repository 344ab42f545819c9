/** The directory store (`EmployeeManager`): the full list of employees in
    response order and the filtered view the gallery shows.

    The network round trip is a parameter: `FetchEmployees` receives what
    `fetch` and `response.json()` produced and applies the state update the
    source makes, or leaves the store alone when the source's `try` block
    throws before reaching its assignments. */
module Directory {
  import opened Options
  import Text
  import opened Employees

  /* ------------------------------ Loading ------------------------------ */

  /** One element of the response's `results` array. `dob` is `None` when
      the record has no `dob` object, so that reading `emp.dob.date` throws. */
  datatype ApiRecord = ApiRecord(
    picture: Picture,
    name: Name,
    email: string,
    location: Location,
    dob: Option<string>,
    cell: string
  )

  /** The decoded body: not JSON at all, or a JSON document that may or may
      not carry a `results` array. */
  datatype Body = NotJson | Json(results: Option<seq<ApiRecord>>)

  /** What `fetch` delivers: a rejected request, or a response with its
      `ok` flag and body. */
  datatype Response = NetworkError | Response(ok: bool, body: Body)

  datatype Manager = Manager(url: string, employees: seq<Employee>, filteredEmployees: seq<Employee>)

  /** The constructor: both lists start empty. */
  function NewManager(url: string): (m: Manager)
    ensures m.url == url
    ensures m.employees == [] && m.filteredEmployees == []
  {
    Manager(url, [], [])
  }

  /** `e` is the employee the source's constructor builds from `rec`: every
      field is stored unchanged. */
  predicate BuiltFrom(e: Employee, rec: ApiRecord) {
    && e.picture == rec.picture
    && e.name == rec.name
    && e.email == rec.email
    && e.location == rec.location
    && rec.dob == Some(e.dob)
    && e.cell == rec.cell
  }

  /** `data.results.map(emp => new Employee(...))`: one employee per record,
      in order, or a failure as soon as one record has no `dob` object. */
  function BuildEmployees(recs: seq<ApiRecord>): (r: Option<seq<Employee>>)
    ensures r.Some? <==> forall i :: 0 <= i < |recs| ==> recs[i].dob.Some?
    ensures r.Some? ==> |r.value| == |recs|
    ensures r.Some? ==> forall i :: 0 <= i < |recs| ==> BuiltFrom(r.value[i], recs[i])
  {
    if recs == [] then Some([])
    else if recs[0].dob.None? then None
    else
      match BuildEmployees(recs[1..])
      case None => None
      case Some(rest) =>
        var rec := recs[0];
        Some([Employee(rec.picture, rec.name, rec.email, rec.location, rec.dob.value, rec.cell)] + rest)
  }

  /** The load reaches its assignments: the request succeeded with an ok
      status, the body is JSON with a `results` array, and every record in
      it has a `dob` object. */
  predicate LoadSucceeds(resp: Response) {
    && resp.Response?
    && resp.ok
    && resp.body.Json?
    && resp.body.results.Some?
    && forall i :: 0 <= i < |resp.body.results.value| ==> resp.body.results.value[i].dob.Some?
  }

  /** `fetchEmployees`, given what the network delivered. */
  function FetchEmployees(m: Manager, resp: Response): (r: Manager)
    ensures r.url == m.url
    ensures !LoadSucceeds(resp) ==> r == m
    ensures LoadSucceeds(resp) ==>
      var recs := resp.body.results.value;
      && |r.employees| == |recs|
      && (forall i :: 0 <= i < |recs| ==> BuiltFrom(r.employees[i], recs[i]))
      && r.filteredEmployees == r.employees
  {
    if resp.NetworkError? || !resp.ok then m
    else
      match resp.body
      case NotJson => m
      case Json(None) => m
      case Json(Some(recs)) =>
        match BuildEmployees(recs)
        case None => m
        case Some(es) => Manager(m.url, es, es)
  }

  /* ----------------------------- Filtering ----------------------------- */

  /** The search predicate: the lower-cased full name contains the
      lower-cased search term. */
  predicate NameMatches(e: Employee, term: string)
    ensures term == [] ==> NameMatches(e, term)
    ensures NameMatches(e, term) ==> |term| <= |e.name.first| + 1 + |e.name.last|
  {
    Text.Contains(Text.Lower(FullName(e)), Text.Lower(term))
  }

  /** `employees.filter(...)` with `NameMatches` as the callback. */
  function FilterByName(es: seq<Employee>, term: string): (r: seq<Employee>)
    ensures |r| <= |es|
    ensures forall e :: e in r <==> e in es && NameMatches(e, term)
  {
    if es == [] then []
    else (if NameMatches(es[0], term) then [es[0]] else []) + FilterByName(es[1..], term)
  }

  /** `filterEmployees`: the filtered view is recomputed from the full list. */
  function FilterEmployees(m: Manager, term: string): (r: Manager)
    ensures r.url == m.url && r.employees == m.employees
    ensures forall e :: e in r.filteredEmployees <==> e in m.employees && NameMatches(e, term)
  {
    m.(filteredEmployees := FilterByName(m.employees, term))
  }

  /** `a` is `b` with some entries dropped and the rest kept in order. */
  predicate IsSubsequence<T(==)>(a: seq<T>, b: seq<T>)
    decreases |b|
  {
    a == [] || (|b| > 0 && ((a[0] == b[0] && IsSubsequence(a[1..], b[1..])) || IsSubsequence(a, b[1..])))
  }

  /** The filtered view keeps entries of the full list in their original order. */
  lemma {:induction false} FilterIsSubsequence(es: seq<Employee>, term: string)
    ensures IsSubsequence(FilterByName(es, term), es)
    decreases |es|
  {
    if es != [] {
      FilterIsSubsequence(es[1..], term);
      var rest := FilterByName(es[1..], term);
      if NameMatches(es[0], term) {
        assert FilterByName(es, term) == [es[0]] + rest;
        assert ([es[0]] + rest)[1..] == rest;
      } else {
        assert FilterByName(es, term) == rest;
      }
    }
  }

  /** Every occurrence of a matching entry is kept and no other entry is:
      together with `FilterIsSubsequence` this pins the filtered view down. */
  lemma {:induction false} FilterCounts(es: seq<Employee>, term: string, e: Employee)
    ensures multiset(FilterByName(es, term))[e] == if NameMatches(e, term) then multiset(es)[e] else 0
    decreases |es|
  {
    if es != [] {
      FilterCounts(es[1..], term, e);
      assert es == [es[0]] + es[1..];
      assert multiset(es) == multiset([es[0]]) + multiset(es[1..]);
    }
  }

  /** Searching for the empty string keeps every employee: `includes("")`
      is always true. */
  lemma {:induction false} FilterEmptyTerm(es: seq<Employee>)
    ensures FilterByName(es, "") == es
    decreases |es|
  {
    if es != [] {
      Text.ContainsEmpty(Text.Lower(FullName(es[0])));
      FilterEmptyTerm(es[1..]);
    }
  }

  /** A search keeps everything exactly when every employee matches. */
  lemma {:induction false} FilterKeepsAll(es: seq<Employee>, term: string)
    ensures FilterByName(es, term) == es <==> forall i :: 0 <= i < |es| ==> NameMatches(es[i], term)
    decreases |es|
  {
    if es != [] {
      FilterKeepsAll(es[1..], term);
      if !NameMatches(es[0], term) {
        assert |FilterByName(es, term)| < |es|;
      }
    }
  }

  /** Filtering the filtered view again with the same term changes nothing. */
  lemma FilterIdempotent(es: seq<Employee>, term: string)
    ensures FilterByName(FilterByName(es, term), term) == FilterByName(es, term)
  {
    var r := FilterByName(es, term);
    FilterKeepsAll(r, term);
    assert forall i :: 0 <= i < |r| ==> r[i] in r;
  }

  /** The search is case-insensitive: terms that lower-case alike select alike. */
  lemma {:induction false} FilterCaseInsensitive(es: seq<Employee>, t1: string, t2: string)
    requires Text.Lower(t1) == Text.Lower(t2)
    ensures FilterByName(es, t1) == FilterByName(es, t2)
    decreases |es|
  {
    if es != [] {
      FilterCaseInsensitive(es[1..], t1, t2);
    }
  }

  /** Typing more narrows the view: when the new term contains the old one,
      the new view is a subsequence of the old view. */
  lemma {:induction false} FilterNarrows(es: seq<Employee>, shorter: string, longer: string)
    requires Text.Contains(Text.Lower(longer), Text.Lower(shorter))
    ensures IsSubsequence(FilterByName(es, longer), FilterByName(es, shorter))
    decreases |es|
  {
    if es != [] {
      FilterNarrows(es[1..], shorter, longer);
      var e := es[0];
      var a := FilterByName(es[1..], longer);
      var b := FilterByName(es[1..], shorter);
      if NameMatches(e, longer) {
        Text.ContainsTransitive(Text.Lower(FullName(e)), Text.Lower(longer), Text.Lower(shorter));
        assert FilterByName(es, longer) == [e] + a;
        assert FilterByName(es, shorter) == [e] + b;
        assert ([e] + a)[1..] == a && ([e] + b)[1..] == b;
      } else if NameMatches(e, shorter) {
        assert FilterByName(es, longer) == a;
        assert FilterByName(es, shorter) == [e] + b;
        assert ([e] + b)[1..] == b;
        assert IsSubsequence(a, ([e] + b)[1..]);
      } else {
        assert FilterByName(es, longer) == a;
        assert FilterByName(es, shorter) == b;
      }
    }
  }

  /* ----------------------------- Invariant ----------------------------- */

  /** The store's invariant: the filtered view is what some search term
      selects from the full list. */
  ghost predicate Consistent(m: Manager) {
    exists term :: m.filteredEmployees == FilterByName(m.employees, term)
  }

  /** The filtered view of a consistent store is an order-preserving
      selection from the full list. */
  lemma ConsistentIsSubsequence(m: Manager)
    requires Consistent(m)
    ensures IsSubsequence(m.filteredEmployees, m.employees)
  {
    var term :| m.filteredEmployees == FilterByName(m.employees, term);
    FilterIsSubsequence(m.employees, term);
  }

  /** A new store is consistent. */
  lemma NewManagerConsistent(url: string)
    ensures Consistent(NewManager(url))
  {
    assert NewManager(url).filteredEmployees == FilterByName([], "");
  }

  /** A load keeps the store consistent, whether it succeeds or fails. */
  lemma FetchPreservesConsistent(m: Manager, resp: Response)
    requires Consistent(m)
    ensures Consistent(FetchEmployees(m, resp))
  {
    var r := FetchEmployees(m, resp);
    if LoadSucceeds(resp) {
      FilterEmptyTerm(r.employees);
      assert r.filteredEmployees == FilterByName(r.employees, "");
    }
  }

  /** A search leaves the store consistent, whatever state it started in. */
  lemma FilterEstablishesConsistent(m: Manager, term: string)
    ensures Consistent(FilterEmployees(m, term))
  {
    assert FilterEmployees(m, term).filteredEmployees == FilterByName(m.employees, term);
  }

  /** The result of a search depends only on the full list and the term,
      not on the previous filtered view. */
  lemma FilterIgnoresPrevious(m1: Manager, m2: Manager, term: string)
    requires m1.url == m2.url && m1.employees == m2.employees
    ensures FilterEmployees(m1, term) == FilterEmployees(m2, term)
  {
  }

  /** A search typed before the load completes is thrown away: a successful
      load shows every employee, whatever term the search box still holds,
      and so shows more than that term selects whenever someone fails to
      match it. */
  lemma LoadDiscardsEarlierSearch(m: Manager, term: string, resp: Response)
    requires LoadSucceeds(resp)
    ensures var r := FetchEmployees(FilterEmployees(m, term), resp);
      && r.filteredEmployees == r.employees
      && ((exists i :: 0 <= i < |r.employees| && !NameMatches(r.employees[i], term))
          ==> r.filteredEmployees != FilterByName(r.employees, term))
  {
    var r := FetchEmployees(FilterEmployees(m, term), resp);
    FilterKeepsAll(r.employees, term);
  }

  /** Repeating a search with the same term changes nothing. */
  lemma FilterEmployeesIdempotent(m: Manager, term: string)
    ensures FilterEmployees(FilterEmployees(m, term), term) == FilterEmployees(m, term)
  {
  }

  /** Clearing the search after a load shows the whole list again. */
  lemma ClearSearchShowsAll(m: Manager)
    ensures FilterEmployees(m, "").filteredEmployees == m.employees
  {
    FilterEmptyTerm(m.employees);
  }
}
