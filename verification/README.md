# Employee directory: store, search and detail-modal navigation

A Dafny model of the logic inside a small browser employee directory. The
directory loads a page of people from a remote API, shows them as a
searchable card gallery, and opens a detail modal with Prev and Next buttons
that step through the list with wraparound.

The repository holds the same logic four times: `js/script.js` (plain
JavaScript), `ts/script.ts` (one TypeScript file), the modular `ts/*.ts`,
and `src/*.ts` (an accessibility revision of the modular files). Each piece
is modelled once here and holds for every variant.

- `Options`: the `Option` datatype.
- `Text`: string helpers. It has ASCII lower-casing for `toLowerCase` and
  `Contains` for `includes`. It also renders integers the way a template
  literal prints an integral number, and splits a string at the first or
  the last occurrence of a separator. The splitters are the readers
  against which the formatting round trips are proved.
- `Employees`: the immutable `Employee` record, `getFullName` and
  `getLocationString`.
- `Directory`: `EmployeeManager`. This covers the constructor, the state
  update of `fetchEmployees` on every outcome of the network round trip,
  and `filterEmployees`. It also states the store's invariant: the filtered
  view is what some search term selects from the full list.
- `Modal`: the index arithmetic of `navigateModal` (`indexOf`, step,
  wraparound). It also models the document state that `displayModal`,
  `closeModal` and `navigateModal` change.
- `Gallery`: the gallery click handler. It takes the first entry of the
  filtered view whose email equals the clicked card's email text and opens
  the modal on it, with the filtered view as the list. This module also
  holds the worked scenarios: Ann Lee, Bob Lee, Cara Ng.

All operations are pure functions over values. `getFullName` and
`getLocationString` only read fields, so they are Dafny functions of an
`Employee`. The two mutating classes (`EmployeeManager`, `Modal`) become
functions from the old state to the new state.

## Where each piece sits in the four variants

| piece | ts modular | src | ts/script.ts | js/script.js |
|---|---|---|---|---|
| `Employee` constructor | ts/Employee.ts:27-41 | — | 24-38 | 2-9 |
| `getLocationString` | ts/Employee.ts:53-55 | — | 44-46 | 15-17 |
| `getFullName` | ts/Employee.ts:60-62 | — | 48-50 | 19-21 |
| manager constructor | ts/EmployeeManager.ts:19-23 | — | 67-71 | 25-29 |
| `fetchEmployees` | ts/EmployeeManager.ts:28-54 | — | 73-93 | 31-51 |
| `filterEmployees` | ts/EmployeeManager.ts:85-93 | — | 114-119 | 71-76 |
| `displayModal` state | ts/Modal.ts:43-46 | src/Modal.ts:44-47 | 149-150 | 108-109 |
| `navigateModal` | ts/Modal.ts:60-75 | src/Modal.ts:61-76 | 156-170 | 115-129 |
| `closeModal` | ts/Modal.ts:80-85 | src/Modal.ts:81-86 | 172-177 | 131-136 |
| card lookup | ts/App.ts:47-61 | src/App.ts:50-65 | 221-231 | 177-187 |

The `src` revision has no store or employee files of its own in this
model; its `Modal.ts` is line-for-line the same logic as `ts/Modal.ts`.

## Where the code departs from the expected behaviour

The model follows the code in each case below.

- One might expect opening the overlay to close any existing one, so that
  at most one overlay exists at a time. The code's `displayModal` only
  appends. `modalContainer` is set by
  `querySelector('.modal-container')`, which returns the *oldest* overlay
  in the document. The model therefore keeps the list of overlays in the
  document next to the container flag.
  - `Modal.DisplayOverOpenLeavesOverlay` shows what happens when a modal
    is displayed over an open one. The next close removes the older
    overlay. The newer overlay stays with the container null, so further
    closes do nothing.
  - When every display comes after a close, the model behaves as a
    two-state machine, closed or showing one overlay (`Modal.Simple`,
    `Modal.Shown`).
  - `getElementById` also returns the first match, so only the oldest
    overlay's buttons receive listeners.
- Navigation from an employee missing from the list might be expected to
  give an out-of-range index. All four variants compute the same thing: `indexOf` gives -1, Next lands on
  index 0 and Prev on the last index. Both are in range for a non-empty
  list (`Modal.AbsentCurrent`).
- One might expect any response that does not match the expected shape to
  fail the load. In the code, only two shape problems
  throw before the lists are assigned: a body without a `results` array,
  and a record without a `dob` object (`emp.dob.date`). Any other missing
  field is stored as `undefined`. The model covers the two throwing cases
  and types every other field as present.
- The search is wired up while the load is still in flight:
  `fetchEmployees()` is started and `search.init()` runs straight after it
  (ts/script.ts:217-218, js/script.js:173-174). A search typed before the
  load completes is thrown away. The load resets the view to every
  employee while the input still shows the term
  (`Directory.LoadDiscardsEarlierSearch`).

## Model

| member | source | states |
|---|---|---|
| Text.Lower | ts/EmployeeManager.ts:88 | lower-casing keeps the length and maps every character through ASCII lower-casing, so no upper-case letter survives |
| Text.LowerIdempotent | ts/script.ts:116 | lower-casing an already lower-cased term changes nothing |
| Text.Contains | ts/EmployeeManager.ts:88 | `includes` holds whenever the needle is a prefix of the haystack, and only when the needle is no longer than the haystack |
| Text.ContainsIffOccurs | js/script.js:73 | `includes` holds exactly when the needle occurs as a contiguous run at some position of the haystack |
| Text.ContainsTransitive | ts/EmployeeManager.ts:88 | if the name contains a term and the term contains a shorter one, the name contains the shorter one |
| Text.IntToDecimal | ts/Employee.ts:54 | the rendered street number is non-empty, holds no space, starts with a minus sign exactly when the number is negative, and is otherwise all digits |
| Text.IntRoundTrip | ts/Employee.ts:54 | the rendered street number is a numeral that reads back as the same integer |
| Employees.FullName | ts/Employee.ts:60-62 | the full name has length first + 1 + last, starts with the first name, has a space right after it, and ends with the last name |
| Employees.FullNameReadBack | js/script.js:19-21 | when the first name has no space, splitting the full name at its first space gives back the first and last names |
| Employees.LocationString | ts/Employee.ts:53-55 | the address starts with the street number and a space, ends with a space and the postcode, and is six separator characters longer than its five fields |
| Employees.LocationReadBack | ts/script.ts:44-46 | number, street name, city, state and postcode appear in that order: reading the address back recovers the whole location when the street name and city hold no comma and the postcode holds no space; a state may hold spaces |
| Directory.NewManager | ts/EmployeeManager.ts:19-23 | a new manager keeps its URL and starts with both lists empty |
| Directory.BuildEmployees | ts/EmployeeManager.ts:37-44 | the map succeeds exactly when every record has a `dob` object, and then yields one employee per record, in order, each field stored unchanged |
| Directory.FetchEmployees | ts/EmployeeManager.ts:28-54 | a load that fails (network error, non-ok status, body not JSON, no `results`, a record without `dob`) leaves the store unchanged; a successful one sets both lists to one employee per record in response order |
| Directory.NameMatches | ts/EmployeeManager.ts:88 | the filter callback accepts every employee for the empty term, and accepts only terms no longer than the full name |
| Directory.FilterByName | ts/EmployeeManager.ts:85-89 | the filtered view is no longer than the full list and holds exactly the employees of the full list whose lower-cased full name contains the lower-cased term |
| Directory.FilterEmployees | js/script.js:71-74 | a search never changes the full list, and the new view holds exactly the matching employees of the full list |
| Directory.FilterIsSubsequence | ts/script.ts:114-117 | the filtered view keeps entries of the full list in their original order |
| Directory.FilterCounts | ts/EmployeeManager.ts:87-89 | every occurrence of a matching employee is kept and no other employee appears |
| Directory.FilterEmptyTerm | js/script.js:72-73 | searching for the empty string keeps every employee in order |
| Directory.FilterKeepsAll | ts/script.ts:115-116 | a search keeps the whole list exactly when every employee matches |
| Directory.FilterIdempotent | ts/EmployeeManager.ts:87-89 | filtering the filtered view again with the same term changes nothing |
| Directory.FilterCaseInsensitive | ts/script.ts:116 | terms that lower-case alike select the same employees |
| Directory.FilterNarrows | ts/EmployeeManager.ts:88 | a term containing an earlier term yields a subsequence of the earlier view |
| Directory.ConsistentIsSubsequence | ts/EmployeeManager.ts:16-17 | in a consistent store the filtered view is an order-preserving selection from the full list |
| Directory.NewManagerConsistent | js/script.js:25-29 | a new store is consistent |
| Directory.FetchPreservesConsistent | js/script.js:31-51 | every load outcome keeps the store consistent |
| Directory.FilterEstablishesConsistent | ts/script.ts:114-119 | a search makes the store consistent from any state |
| Directory.FilterIgnoresPrevious | ts/EmployeeManager.ts:87 | the result of a search depends only on the full list and the term, not on the previous view |
| Directory.LoadDiscardsEarlierSearch | ts/script.ts:217-218 | a successful load after a search shows every loaded employee, which differs from what the search term selects whenever someone fails to match it |
| Directory.FilterEmployeesIdempotent | js/script.js:71-76 | repeating a search with the same term changes nothing |
| Directory.ClearSearchShowsAll | ts/script.ts:114-117 | clearing the search shows the full list in order |
| Modal.IndexOf | ts/Modal.ts:62 | `indexOf` gives -1 exactly when the element is absent, and otherwise the position of its first occurrence |
| Modal.WrapIndex | ts/Modal.ts:63-70 | for a non-empty list the wrapped index is in range, and a step that stays in range is taken unchanged |
| Modal.NavigateIndex | src/Modal.ts:63-71 | the index navigation computes is in range exactly when the list is non-empty |
| Modal.NextFromLastWraps | ts/Modal.ts:68-69 | Next from the last entry gives index 0 |
| Modal.PrevFromFirstWraps | src/Modal.ts:67-68 | Prev from the first entry gives the last index |
| Modal.NextSteps | ts/script.ts:157-165 | Next from any entry but the last moves one place on |
| Modal.SingletonStays | js/script.js:116-124 | with a one-employee list both buttons give index 0, whoever the current employee is |
| Modal.AbsentCurrent | ts/Modal.ts:62-70 | when the current employee is not in the list, Next gives 0 and Prev gives the last index |
| Modal.NavigateRoundTrip | src/Modal.ts:61-76 | with no repeated entries, Next then Prev and Prev then Next return to the starting index |
| Modal.DisplayModal | ts/Modal.ts:43-46 | displaying appends exactly one overlay for the employee and list, keeps the earlier overlays, and sets the container |
| Modal.CloseModal | ts/Modal.ts:80-85 | closing removes the overlay the container holds and nulls it; with no container it changes nothing |
| Modal.CloseIdempotent | ts/script.ts:172-177 | closing twice is closing once |
| Modal.NavigateModal | src/Modal.ts:61-76 | navigating first closes the overlay the container held, keeping every other overlay, then leaves the container set and the newest overlay showing the employee at the wrapped index with the same list |
| Modal.InitialClosed | js/script.js:80-82 | a new modal shows nothing |
| Modal.CloseShowsClosed | src/Modal.ts:81-86 | from a single-overlay or empty state, closing leaves the modal closed |
| Modal.DisplayFromClosed | ts/Modal.ts:14-52 | displaying from the closed state opens exactly one overlay on that employee and list |
| Modal.NavigateShowsOne | ts/Modal.ts:72-74 | navigating from a single-overlay state leaves exactly one overlay, on the wrapped index of the same list |
| Modal.DisplayOverOpenLeavesOverlay | js/script.js:108-109 | displaying over an open modal leaves two overlays; the next close removes the older and the newer one can no longer be closed |
| Gallery.FindByEmail | ts/script.ts:226 | `find` returns nothing exactly when no entry has the email, and otherwise the first entry that has it |
| Gallery.CardClick | ts/script.ts:221-231 | with no match the modal is untouched; with a match one overlay is appended on an employee of the filtered view with that email, scoped to the filtered view |
| Gallery.ClickOpensCard | js/script.js:177-187 | clicking the card of the k-th filtered employee opens that employee when no earlier card shows the same email |
| Gallery.SharedEmailOpensEarlier | ts/App.ts:54-58 | when an earlier card shows the same email, clicking the later card opens the earlier employee |
| Gallery.ClickedModalNavigable | src/App.ts:57-61 | a modal opened from a card has a non-empty list holding its employee, so navigation stays in range |
| Gallery.SearchLeeScenario | ts/EmployeeManager.ts:85-89 | with Ann Lee, Bob Lee and Cara Ng loaded, searching "lee" gives Ann Lee and Bob Lee in that order |
| Gallery.SearchNobodyScenario | ts/script.ts:114-117 | searching "z" in the same three gives an empty view |
| Gallery.ClearSearchScenario | js/script.js:71-74 | clearing the search restores all three in the original order |
| Gallery.NavigateScenario | ts/Modal.ts:60-75 | opening Bob Lee from the three and pressing Next twice, each time from the employee the shown overlay holds, shows Cara Ng and then Ann Lee, one overlay at a time |
| Gallery.SurnameLeeMatches | ts/EmployeeManager.ts:88 | anyone whose last name is Lee matches the search "lee" |

## Left out

- Network and JSON: `fetch`, `response.json()`, the API URL and the async machinery. A load is a `Response` value: a network error, or an `ok` flag with a body that is not JSON or is JSON with or without `results`.
- Logging: the `console.log` in the `catch` block has no effect on the lists.
- DOM rendering: `displayEmployees`, the modal's HTML template, `displaySearch` and `insertAdjacentHTML`. Also left out is reading a card's email text back with `querySelector`. The model assumes the text read back is the employee's `email`. This holds only when the email contains no markup characters such as `<` or `&`: the card template inserts `${employee.email}` into HTML without escaping (ts/EmployeeManager.ts:72, js/script.js:63).
- Event wiring: every `addEventListener`, `ts/Search.ts` and the handlers in `ts/App.ts` and `src/App.ts`. They only forward to the modelled operations. Escape and backdrop clicks both call `closeModal`.
- The focus trap of the accessibility revision (`src/App.ts`): this is DOM focus management.
- `getFormattedDOB` and the `Date` conversion in the constructor: these depend on time zones and invalid-date behaviour. An employee keeps its date-of-birth text.
- Text.Lower: ASCII lower-casing only. JavaScript's `toLowerCase` applies full Unicode case mapping.
- Text.IntToDecimal: renders integers only. The street number is a JavaScript number, and fractional values and exponent notation for very large magnitudes are not modelled.
- Modal.IndexOf: compares employees by value. JavaScript's `indexOf` compares object references. Every loaded employee is a distinct object, so the two agree whenever no two records are identical in every field. That is why the round-trip lemmas assume `Distinct`.
- Modal.NavigateModal: requires a non-empty list. On an empty list the source computes index 0 for Next and -1 for Prev, closes the modal, and passes `employeeList[newIndex]`, which is `undefined`, to `displayModal`. That call throws a `TypeError` when it reads a property of the missing employee. No caller can do this: the buttons are wired only by `displayModal`, and its callers pass the list in which they found the employee.
- Directory.FetchEmployees: record fields other than `dob` are assumed present and well-typed. In the source, a missing field would be stored as `undefined` without failing the load.
