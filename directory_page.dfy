/**
 * The directory page around the derivation: the sample records used when a
 * page cannot be fetched and how a fetch's outcome becomes the page's
 * records, the previous/next buttons, the sort-column toggle, the e-mail
 * domains offered by the domain filter, and the page component's state.
 */
module DirectoryPage {
  import opened Wrappers
  import opened JsStrings
  import opened DirectoryView

  // ------------------------------------------------------------ fallback data

  /** The six sample users shown when the directory service fails. */
  const MOCK_USERS: seq<User> := [
    User(1, "george.bluth@reqres.in", "George", "Bluth", "https://reqres.in/img/faces/1-image.jpg"),
    User(2, "janet.weaver@reqres.in", "Janet", "Weaver", "https://reqres.in/img/faces/2-image.jpg"),
    User(3, "emma.wong@reqres.in", "Emma", "Wong", "https://reqres.in/img/faces/3-image.jpg"),
    User(4, "eve.holt@reqres.in", "Eve", "Holt", "https://reqres.in/img/faces/4-image.jpg"),
    User(5, "charles.morris@reqres.in", "Charles", "Morris", "https://reqres.in/img/faces/5-image.jpg"),
    User(6, "tracey.ramos@reqres.in", "Tracey", "Ramos", "https://reqres.in/img/faces/6-image.jpg")
  ]

  const PAGE_SIZE: int := 6
  const FALLBACK_TOTAL_PAGES: int := 2

  /** How `Array.prototype.slice` turns a possibly negative index into a
      position in a sequence of length `len`. */
  function SliceIndex(i: int, len: nat): (r: nat)
    ensures r <= len
  {
    if i < 0 then (if len + i < 0 then 0 else len + i)
    else if i > len then len
    else i
  }

  /** `s.slice(start, end)`: in-range indices select `s[start..end]`, a
      start at or past the end, or an end not after a non-negative start,
      selects nothing, and a negative start counts back from the end. */
  function Slice(s: seq<User>, start: int, end: int): (r: seq<User>)
    ensures |r| <= |s|
    ensures 0 <= start <= end <= |s| ==> r == s[start..end]
    ensures start >= |s| ==> r == []
    ensures 0 <= end <= start ==> r == []
    ensures -|s| <= start < 0 && end >= |s| ==> r == s[|s| + start..]
  {
    var from, to := SliceIndex(start, |s|), SliceIndex(end, |s|);
    if from < to then s[from..to] else []
  }

  /** The sample records shown for `page` when its fetch fails. */
  function FallbackRecords(page: int): seq<User>
  {
    var startIdx := (page - 1) * PAGE_SIZE;
    var pageData := Slice(MOCK_USERS, startIdx, startIdx + PAGE_SIZE);
    if |pageData| > 0 then pageData else MOCK_USERS
  }

  /** Whatever the page number, the fallback shows all six sample users:
      page 1 is the whole sample, and every other page's slice is empty. */
  lemma FallbackShowsAllSamples(page: int)
    ensures FallbackRecords(page) == MOCK_USERS
  {
    var startIdx := (page - 1) * PAGE_SIZE;
    if page == 1 {
      assert Slice(MOCK_USERS, 0, 6) == MOCK_USERS[0..6];
    } else if page >= 2 {
      assert startIdx >= 6;
      assert Slice(MOCK_USERS, startIdx, startIdx + PAGE_SIZE) == [];
    } else {
      assert startIdx + PAGE_SIZE <= 0;
      assert SliceIndex(startIdx + PAGE_SIZE, 6) == 0;
      assert Slice(MOCK_USERS, startIdx, startIdx + PAGE_SIZE) == [];
    }
  }

  // ------------------------------------------------------------ fetching a page

  /** The parsed JSON body of a response: whether its `error` field is
      truthy, its `data` field when that is an array, and its `total_pages`
      field when present. */
  datatype Envelope = Envelope(hasError: bool, data: Option<seq<User>>, totalPages: Option<int>)

  /** What one fetch of a page produced. */
  datatype FetchResult =
    | NetworkError                              // the request itself failed
    | Response(ok: bool, body: Option<Envelope>) // `body` is None when the JSON does not parse

  /** The records and page count a fetch leaves behind. */
  datatype PageData = PageData(records: seq<User>, totalPages: int, usingFallback: bool)

  /** `json.total_pages || 2`: a missing or zero count becomes 2. */
  function TotalPagesOrDefault(tp: Option<int>): int
  {
    match tp
    case Some(n) => if n != 0 then n else 2
    case None => 2
  }

  function Fallback(page: int): PageData
  {
    PageData(FallbackRecords(page), FALLBACK_TOTAL_PAGES, true)
  }

  /** The fetch effect's outcome for `page`: every failure (network error,
      non-success status, unparsable body, truthy `error`, missing or empty
      `data`) is caught and replaced by the sample data. */
  function LoadPage(page: int, r: FetchResult): PageData
  {
    match r
    case NetworkError => Fallback(page)
    case Response(ok, body) =>
      if !ok then Fallback(page)
      else match body
        case None => Fallback(page)
        case Some(json) =>
          if json.hasError then Fallback(page)
          else match json.data
            case None => Fallback(page)
            case Some(data) =>
              if |data| > 0 then PageData(data, TotalPagesOrDefault(json.totalPages), false)
              else Fallback(page)
  }

  /** The one condition under which the service's records are used. */
  predicate Succeeded(r: FetchResult)
  {
    && r.Response? && r.ok && r.body.Some?
    && !r.body.value.hasError
    && r.body.value.data.Some? && |r.body.value.data.value| > 0
  }

  /** A fetch either succeeds, and the page shows the service's non-empty
      `data` with its reported page count (2 when missing or 0), or fails in
      any way, and the page shows all six sample users with 2 pages. Either
      way the page has at least one record. */
  lemma LoadPageOutcome(page: int, r: FetchResult)
    ensures LoadPage(page, r).usingFallback <==> !Succeeded(r)
    ensures Succeeded(r) ==>
      LoadPage(page, r).records == r.body.value.data.value
      && LoadPage(page, r).totalPages == TotalPagesOrDefault(r.body.value.totalPages)
    ensures !Succeeded(r) ==> LoadPage(page, r).records == MOCK_USERS && LoadPage(page, r).totalPages == 2
    ensures |LoadPage(page, r).records| > 0
  {
    FallbackShowsAllSamples(page);
  }

  // ------------------------------------------------------------ pagination

  /** The previous button's target, `Math.max(1, p - 1)`. */
  function PrevPage(p: int): (r: int)
    ensures r >= 1 && r <= if p > 1 then p else 1
    ensures p > 1 ==> r == p - 1
    ensures p == 1 ==> r == p
  {
    if 1 > p - 1 then 1 else p - 1
  }

  /** The next button's target, `Math.min(totalPages, p + 1)`. */
  function NextPage(p: int, total: int): (r: int)
    ensures r <= total && r <= p + 1
    ensures p < total ==> r == p + 1
    ensures 1 <= p <= total ==> p <= r && 1 <= r <= total
    ensures p == total ==> r == p
  {
    if total < p + 1 then total else p + 1
  }

  // ------------------------------------------------------------ sort toggle

  datatype SortState = SortState(field: Field, order: Order)

  function Flip(o: Order): Order
  {
    match o
    case Asc => Desc
    case Desc => Asc
  }

  /** A click on a column header: the current column flips its direction, a
      new column is sorted ascending. */
  function ToggleSort(s: SortState, clicked: Field): SortState
  {
    if s.field == clicked then SortState(s.field, Flip(s.order))
    else SortState(clicked, Asc)
  }

  /** The toggle always sorts by the clicked column; on the current column it
      only reverses the direction, so two clicks restore the state; on another
      column it starts ascending. */
  lemma ToggleSortProperties(s: SortState, clicked: Field)
    ensures ToggleSort(s, clicked).field == clicked
    ensures s.field == clicked ==> ToggleSort(s, clicked).order != s.order
    ensures s.field == clicked ==> ToggleSort(ToggleSort(s, clicked), clicked) == s
    ensures s.field != clicked ==> ToggleSort(s, clicked).order == Asc
  {
  }

  // ------------------------------------------------------------ domains

  /** The text after the first '@'. */
  function AfterFirstAt(s: string): string
    requires '@' in s
  {
    if s[0] == '@' then s[1..] else AfterFirstAt(s[1..])
  }

  /** The text before the first '@' (all of `s` when it has none). */
  function UpToAt(s: string): string
  {
    if s == [] || s[0] == '@' then [] else [s[0]] + UpToAt(s[1..])
  }

  /** `email.split("@")[1]`: the text between the first and the second '@',
      or `undefined` when there is no '@'. */
  function DomainOf(email: string): Option<string>
  {
    if '@' in email then Some(UpToAt(AfterFirstAt(email))) else None
  }

  lemma {:induction false} AfterFirstAtOf(local: string, rest: string)
    requires '@' !in local
    ensures '@' in local + "@" + rest && AfterFirstAt(local + "@" + rest) == rest
  {
    var s := local + "@" + rest;
    assert s[|local|] == '@';
    if local != [] {
      assert s[1..] == local[1..] + "@" + rest;
      AfterFirstAtOf(local[1..], rest);
    }
  }

  lemma {:induction false} UpToAtOfPlain(s: string)
    requires '@' !in s
    ensures UpToAt(s) == s
  {
    if s != [] {
      UpToAtOfPlain(s[1..]);
    }
  }

  /** For a well-formed address the listed domain is the part after '@', and
      choosing it in the domain filter keeps that user. */
  lemma ListedDomainSelectsUser(u: User, local: string, domain: string)
    requires u.email == local + "@" + domain && '@' !in local && '@' !in domain
    ensures DomainOf(u.email) == Some(domain)
    ensures MatchesDomain(domain, u)
  {
    AfterFirstAtOf(local, domain);
    UpToAtOfPlain(domain);
    var tail := "@" + domain;
    assert u.email == local + tail;
    assert u.email[|u.email| - |tail|..] == tail;
  }

  function DomainList(users: seq<User>): (r: seq<Option<string>>)
    ensures |r| == |users| && forall i :: 0 <= i < |users| ==> r[i] == DomainOf(users[i].email)
  {
    if users == [] then [] else [DomainOf(users[0].email)] + DomainList(users[1..])
  }

  /** `a` occurs in `s` before the first occurrence of `b`. */
  predicate FirstSeenBefore(s: seq<Option<string>>, a: Option<string>, b: Option<string>)
  {
    exists p :: 0 <= p < |s| && s[p] == a && b !in s[..p + 1]
  }

  /** `Array.from(new Set(s))`: the distinct elements, in order of first
      occurrence. */
  function Distinct(s: seq<Option<string>>): (r: seq<Option<string>>)
    ensures forall x :: x in r <==> x in s
    ensures forall i, j :: 0 <= i < j < |r| ==> r[i] != r[j]
    ensures forall i, j :: 0 <= i < j < |r| ==> FirstSeenBefore(s, r[i], r[j])
  {
    if s == [] then []
    else
      var init := s[..|s| - 1];
      var x := s[|s| - 1];
      var r := Distinct(init);
      assert s == init + [x];
      FirstSeenInPrefix(s, init, r);
      if x in r then r
      else
        FirstSeenBeforeNew(s, init, r, x);
        r + [x]
  }

  /** What is seen first in `init` is seen first in any extension of it. */
  lemma FirstSeenInPrefix(s: seq<Option<string>>, init: seq<Option<string>>, r: seq<Option<string>>)
    requires init <= s
    requires forall i, j :: 0 <= i < j < |r| ==> FirstSeenBefore(init, r[i], r[j])
    ensures forall i, j :: 0 <= i < j < |r| ==> FirstSeenBefore(s, r[i], r[j])
  {
    forall i, j | 0 <= i < j < |r| ensures FirstSeenBefore(s, r[i], r[j]) {
      var p :| 0 <= p < |init| && init[p] == r[i] && r[j] !in init[..p + 1];
      assert s[..p + 1] == init[..p + 1];
    }
  }

  /** Every element of `init` is seen before a value `x` that `init` lacks. */
  lemma FirstSeenBeforeNew(s: seq<Option<string>>, init: seq<Option<string>>, r: seq<Option<string>>, x: Option<string>)
    requires s == init + [x] && x !in init
    requires forall y :: y in r ==> y in init
    ensures forall i :: 0 <= i < |r| ==> FirstSeenBefore(s, r[i], x)
  {
    forall i | 0 <= i < |r| ensures FirstSeenBefore(s, r[i], x) {
      assert r[i] in r;
      var p :| 0 <= p < |init| && init[p] == r[i];
      assert s[..p + 1] == init[..p + 1];
      assert forall y :: y in init[..p + 1] ==> y in init;
    }
  }

  /** The domains of `users`, as a set. */
  lemma DomainListMembers(users: seq<User>)
    ensures forall d :: d in DomainList(users) <==> exists u :: u in users && DomainOf(u.email) == d
  {
    var all := DomainList(users);
    forall d ensures d in all <==> exists u :: u in users && DomainOf(u.email) == d {
      if d in all {
        var i :| 0 <= i < |all| && all[i] == d;
        assert users[i] in users;
      }
      if u :| u in users && DomainOf(u.email) == d {
        var i :| 0 <= i < |users| && users[i] == u;
        assert all[i] == d;
      }
    }
  }

  /** The domain drop-down's entries: every domain of a record on the page,
      each once, in the order in which the records first show them. */
  function Domains(users: seq<User>): (r: seq<Option<string>>)
    ensures forall d :: d in r <==> exists u :: u in users && DomainOf(u.email) == d
    ensures forall i, j :: 0 <= i < j < |r| ==> r[i] != r[j]
    ensures forall i, j :: 0 <= i < j < |r| ==> FirstSeenBefore(DomainList(users), r[i], r[j])
  {
    DomainListMembers(users);
    Distinct(DomainList(users))
  }

  /** Of two listed domains, the earlier one belongs to a user who comes
      before every user with the later one. */
  lemma DomainsInFirstSeenOrder(users: seq<User>, i: int, j: int)
    requires 0 <= i < j < |Domains(users)|
    ensures exists p :: (0 <= p < |users| && DomainOf(users[p].email) == Domains(users)[i] &&
                         forall q :: 0 <= q <= p ==> DomainOf(users[q].email) != Domains(users)[j])
  {
    var all, r := DomainList(users), Domains(users);
    var p :| 0 <= p < |all| && all[p] == r[i] && r[j] !in all[..p + 1];
    forall q | 0 <= q <= p ensures DomainOf(users[q].email) != r[j] {
      assert all[..p + 1][q] == all[q];
    }
  }

  // ------------------------------------------------------------ the page's state

  /** The directory page component: its state variables and the handlers
      that update them. */
  class IndexPage {
    var allUsers: seq<User>
    var displayUsers: seq<User>
    var loading: bool
    var usingFallback: bool
    var searchTerm: string
    var sortField: Field
    var sortOrder: Order
    var currentPage: int
    var totalPages: int
    var domainFilter: string
    var letterFilter: string

    /** The initial state: no records yet, loading page 1 of 2, no filters,
        sorted by first name ascending. */
    constructor ()
      ensures allUsers == [] && displayUsers == [] && loading && !usingFallback
      ensures searchTerm == "" && domainFilter == ALL && letterFilter == ALL
      ensures sortField == FirstName && sortOrder == Asc
      ensures currentPage == 1 && totalPages == 2
    {
      allUsers, displayUsers := [], [];
      loading, usingFallback := true, false;
      searchTerm, domainFilter, letterFilter := "", ALL, ALL;
      sortField, sortOrder := FirstName, Asc;
      currentPage, totalPages := 1, 2;
    }

    function CurrentCriteria(): Criteria
      reads this
    {
      Criteria(searchTerm, domainFilter, letterFilter, sortField, sortOrder)
    }

    /** The fetch effect for the current page, once the fetch has produced
        `result`; the page number and the criteria are untouched. */
    method LoadUsers(result: FetchResult)
      modifies this
      ensures allUsers == LoadPage(currentPage, result).records && |allUsers| > 0
      ensures totalPages == LoadPage(currentPage, result).totalPages
      ensures usingFallback == LoadPage(currentPage, result).usingFallback
      ensures !loading
      ensures currentPage == old(currentPage) && CurrentCriteria() == old(CurrentCriteria())
      ensures displayUsers == old(displayUsers)
    {
      loading := true;
      usingFallback := false;
      if Succeeded(result) {
        allUsers := result.body.value.data.value;
        totalPages := TotalPagesOrDefault(result.body.value.totalPages);
      } else {
        usingFallback := true;
        allUsers := FallbackRecords(currentPage);
        totalPages := FALLBACK_TOTAL_PAGES;
      }
      LoadPageOutcome(currentPage, result);
      loading := false;
    }

    /** The filter-and-sort effect: recomputes the shown rows. */
    method Refresh()
      modifies this`displayUsers
      ensures displayUsers == Displayed(allUsers, CurrentCriteria())
    {
      displayUsers := DeriveDisplayed(allUsers, CurrentCriteria());
    }

    /** A click on the header of column `field`. */
    method ToggleSortColumn(field: Field)
      modifies this`sortField, this`sortOrder
      ensures SortState(sortField, sortOrder) == ToggleSort(SortState(old(sortField), old(sortOrder)), field)
    {
      if sortField == field {
        sortOrder := if sortOrder == Asc then Desc else Asc;
      } else {
        sortField := field;
        sortOrder := Asc;
      }
    }

    /** The "previous" button is disabled on the first page. */
    predicate PreviousDisabled()
      reads this
    {
      currentPage == 1
    }

    /** The "next" button is disabled on the last page. */
    predicate NextDisabled()
      reads this
    {
      currentPage == totalPages
    }

    method GoPrevious()
      modifies this`currentPage
      ensures currentPage == PrevPage(old(currentPage))
      ensures 1 <= old(currentPage) <= totalPages ==> 1 <= currentPage <= totalPages
      ensures old(PreviousDisabled()) ==> currentPage == old(currentPage)
    {
      currentPage := if 1 > currentPage - 1 then 1 else currentPage - 1;
    }

    method GoNext()
      modifies this`currentPage
      ensures currentPage == NextPage(old(currentPage), totalPages)
      ensures 1 <= old(currentPage) <= totalPages ==> 1 <= currentPage <= totalPages
      ensures old(NextDisabled()) ==> currentPage == old(currentPage)
    {
      currentPage := if totalPages < currentPage + 1 then totalPages else currentPage + 1;
    }
  }
}
