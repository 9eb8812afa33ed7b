/**
 * The filter-and-sort derivation of the user directory page: the records of
 * the current page and the user's criteria (search term, domain filter,
 * first-letter filter, sort field and sort direction) determine the rows
 * shown, recomputed in full whenever any of them changes.
 */
module DirectoryView {
  import opened JsStrings

  /** A user record as the directory service delivers it (`id`, `email`,
      `first_name`, `last_name`, `avatar`). */
  datatype User = User(id: int, email: string, firstName: string, lastName: string, avatar: string)

  /** The columns the table is sorted by. */
  datatype Field = FirstName | LastName | Email

  datatype Order = Asc | Desc

  datatype Criteria = Criteria(
    searchTerm: string,
    domainFilter: string,
    letterFilter: string,
    sortField: Field,
    sortOrder: Order)

  /** The value of the domain and letter drop-downs that switches them off. */
  const ALL: string := "all"

  function FieldValue(u: User, f: Field): string
  {
    match f
    case FirstName => u.firstName
    case LastName => u.lastName
    case Email => u.email
  }

  /** The sort key `String(u[sortField]).toLowerCase()`. */
  function SortKey(u: User, f: Field): string
  {
    Lower(FieldValue(u, f))
  }

  // ------------------------------------------------------------ filter stages

  /** Search: the lower-cased term (untrimmed) occurs in the lower-cased
      first name, last name or email. */
  predicate MatchesSearch(term: string, u: User)
  {
    var search := Lower(term);
    Includes(Lower(u.firstName), search)
    || Includes(Lower(u.lastName), search)
    || Includes(Lower(u.email), search)
  }

  predicate MatchesDomain(domain: string, u: User)
  {
    EndsWith(u.email, "@" + domain)
  }

  /** `name.charAt(0).toUpperCase()`: empty for an empty name. */
  function FirstLetter(name: string): string
  {
    if name == [] then [] else [UpperChar(name[0])]
  }

  predicate MatchesLetter(letter: string, u: User)
  {
    FirstLetter(u.firstName) == letter
  }

  /** The search stage runs only when `searchTerm.trim()` is non-empty. */
  predicate SearchActive(c: Criteria)
  {
    Trim(c.searchTerm) != []
  }

  /** Whether a record survives all three filter stages under `c`. */
  predicate Keep(c: Criteria, u: User)
  {
    && (SearchActive(c) ==> MatchesSearch(c.searchTerm, u))
    && (c.domainFilter != ALL ==> MatchesDomain(c.domainFilter, u))
    && (c.letterFilter != ALL ==> MatchesLetter(c.letterFilter, u))
  }

  function KeepFn(c: Criteria): User -> bool
  {
    u => Keep(c, u)
  }

  // ------------------------------------------------------------ filtering

  /** `s.filter(p)`: the elements satisfying `p`, in their order. */
  function Filter(p: User -> bool, s: seq<User>): seq<User>
  {
    if s == [] then []
    else (if p(s[0]) then [s[0]] else []) + Filter(p, s[1..])
  }

  /** A filter keeps every occurrence of the elements satisfying `p` and
      nothing else. */
  lemma {:induction false} FilterMultiset(p: User -> bool, s: seq<User>)
    ensures forall x :: multiset(Filter(p, s))[x] == if p(x) then multiset(s)[x] else 0
  {
    if s != [] {
      FilterMultiset(p, s[1..]);
      assert s == [s[0]] + s[1..];
    }
  }

  lemma FilterSingleton(p: User -> bool, x: User)
    ensures Filter(p, [x]) == if p(x) then [x] else []
  {
    assert [x][1..] == [];
  }

  lemma {:induction false} FilterAppend(p: User -> bool, a: seq<User>, b: seq<User>)
    ensures Filter(p, a + b) == Filter(p, a) + Filter(p, b)
  {
    if a == [] {
      assert a + b == b;
    } else {
      FilterAppend(p, a[1..], b);
      var head := if p(a[0]) then [a[0]] else [];
      assert (a + b)[0] == a[0] && (a + b)[1..] == a[1..] + b;
      calc {
        Filter(p, a + b);
        head + Filter(p, a[1..] + b);
        head + (Filter(p, a[1..]) + Filter(p, b));
        (head + Filter(p, a[1..])) + Filter(p, b);
      }
    }
  }

  /** Predicates that agree on `s` filter it alike. */
  lemma {:induction false} FilterCongruent(p: User -> bool, q: User -> bool, s: seq<User>)
    requires forall x :: x in s ==> p(x) == q(x)
    ensures Filter(p, s) == Filter(q, s)
  {
    if s != [] {
      FilterCongruent(p, q, s[1..]);
    }
  }

  /** A filter that every element passes is the identity. */
  lemma {:induction false} FilterKeepsAll(p: User -> bool, s: seq<User>)
    requires forall x :: x in s ==> p(x)
    ensures Filter(p, s) == s
  {
    if s != [] {
      FilterKeepsAll(p, s[1..]);
      assert s == [s[0]] + s[1..];
    }
  }

  /** Filtering by `p` and then by `q` is filtering by their conjunction. */
  lemma {:induction false} FilterFilter(p: User -> bool, q: User -> bool, r: User -> bool, s: seq<User>)
    requires forall x :: x in s ==> r(x) == (p(x) && q(x))
    ensures Filter(q, Filter(p, s)) == Filter(r, s)
  {
    if s != [] {
      FilterFilter(p, q, r, s[1..]);
      var head := if p(s[0]) then [s[0]] else [];
      FilterAppend(q, head, Filter(p, s[1..]));
      FilterSingleton(q, s[0]);
    }
  }

  /** The records that pass every stage, in the page's order. */
  function Select(s: seq<User>, c: Criteria): seq<User>
  {
    Filter(KeepFn(c), s)
  }

  // ------------------------------------------------------------ stable sorting

  /** `cmp` orders records by `key` as a consistent `Array.prototype.sort`
      comparator must: antisymmetric, zero exactly on equal keys, and with a
      transitive "not after". */
  ghost predicate IsComparator(cmp: (User, User) -> int, key: User -> string)
  {
    && (forall a, b {:trigger cmp(a, b), cmp(b, a)} :: cmp(a, b) == -cmp(b, a))
    && (forall a, b :: cmp(a, b) == 0 <==> key(a) == key(b))
    && (forall a, b, x {:trigger cmp(a, b), cmp(b, x), cmp(a, x)} ::
          cmp(a, b) <= 0 && cmp(b, x) <= 0 ==> cmp(a, x) <= 0)
  }

  /** No record is ordered after a later one. */
  predicate SortedWith(s: seq<User>, cmp: (User, User) -> int)
  {
    forall i, j :: 0 <= i < j < |s| ==> cmp(s[i], s[j]) <= 0
  }

  function KeyEq(key: User -> string, k: string): User -> bool
  {
    u => key(u) == k
  }

  /** Inserts `x` before the first record it is not ordered after. */
  function Insert(x: User, t: seq<User>, cmp: (User, User) -> int): seq<User>
  {
    if t == [] then [x]
    else if cmp(x, t[0]) <= 0 then [x] + t
    else [t[0]] + Insert(x, t[1..], cmp)
  }

  /** A stable sort: insertion sort, inserting each record in front of the
      sorted rest. */
  function SortWith(s: seq<User>, cmp: (User, User) -> int): seq<User>
  {
    if s == [] then [] else Insert(s[0], SortWith(s[1..], cmp), cmp)
  }

  lemma {:induction false} InsertMultiset(x: User, t: seq<User>, cmp: (User, User) -> int)
    ensures multiset(Insert(x, t, cmp)) == multiset([x] + t)
  {
    if t != [] && cmp(x, t[0]) > 0 {
      InsertMultiset(x, t[1..], cmp);
      assert t == [t[0]] + t[1..];
    }
  }

  lemma SortedCons(h: User, r: seq<User>, cmp: (User, User) -> int)
    requires SortedWith(r, cmp)
    requires forall y :: y in r ==> cmp(h, y) <= 0
    ensures SortedWith([h] + r, cmp)
  {
    var s := [h] + r;
    forall i, j | 0 <= i < j < |s| ensures cmp(s[i], s[j]) <= 0 {
      assert s[j] == r[j - 1];
      if i > 0 {
        assert s[i] == r[i - 1];
      }
    }
  }

  lemma SortedTail(t: seq<User>, cmp: (User, User) -> int)
    requires t != [] && SortedWith(t, cmp)
    ensures SortedWith(t[1..], cmp)
    ensures forall y :: y in t[1..] ==> cmp(t[0], y) <= 0
  {
    forall i, j | 0 <= i < j < |t[1..]| ensures cmp(t[1..][i], t[1..][j]) <= 0 {
      assert t[1..][i] == t[i + 1] && t[1..][j] == t[j + 1];
    }
    forall y | y in t[1..] ensures cmp(t[0], y) <= 0 {
      var j :| 0 <= j < |t[1..]| && t[1..][j] == y;
      assert t[j + 1] == y;
    }
  }

  /** A record not ordered after the head of a sorted sequence can go in front. */
  lemma InsertFrontSorted(x: User, t: seq<User>, cmp: (User, User) -> int, key: User -> string)
    requires IsComparator(cmp, key) && SortedWith(t, cmp)
    requires t != [] && cmp(x, t[0]) <= 0
    ensures SortedWith([x] + t, cmp)
  {
    SortedTail(t, cmp);
    forall y | y in t ensures cmp(x, y) <= 0 {
      if y != t[0] {
        assert cmp(t[0], y) <= 0;
      }
    }
    SortedCons(x, t, cmp);
  }

  lemma {:induction false} InsertSorted(x: User, t: seq<User>, cmp: (User, User) -> int, key: User -> string)
    requires IsComparator(cmp, key) && SortedWith(t, cmp)
    ensures SortedWith(Insert(x, t, cmp), cmp)
  {
    if t == [] {
    } else if cmp(x, t[0]) <= 0 {
      InsertFrontSorted(x, t, cmp, key);
    } else {
      var r := Insert(x, t[1..], cmp);
      SortedTail(t, cmp);
      InsertSorted(x, t[1..], cmp, key);
      InsertMultiset(x, t[1..], cmp);
      assert cmp(t[0], x) < 0;
      forall y | y in r ensures cmp(t[0], y) <= 0 {
        assert y in multiset(r);
      }
      SortedCons(t[0], r, cmp);
    }
  }

  lemma {:induction false} InsertWithKey(x: User, t: seq<User>, cmp: (User, User) -> int, key: User -> string, k: string)
    requires IsComparator(cmp, key)
    ensures Filter(KeyEq(key, k), Insert(x, t, cmp)) == Filter(KeyEq(key, k), [x] + t)
  {
    var p := KeyEq(key, k);
    if t != [] && cmp(x, t[0]) > 0 {
      var rest := t[1..];
      InsertWithKey(x, rest, cmp, key, k);
      assert key(x) != key(t[0]);
      assert t == [t[0]] + rest;
      assert [x] + t == [x] + [t[0]] + rest;
      FilterAppend(p, [t[0]], Insert(x, rest, cmp));
      FilterAppend(p, [x], rest);
      FilterAppend(p, [t[0]], rest);
      FilterAppend(p, [x], t);
      FilterSingleton(p, x);
      FilterSingleton(p, t[0]);
      assert Filter(p, [x]) == [] || Filter(p, [t[0]]) == [];
      calc {
        Filter(p, Insert(x, t, cmp));
        Filter(p, [t[0]]) + (Filter(p, [x]) + Filter(p, rest));
        Filter(p, [x]) + (Filter(p, [t[0]]) + Filter(p, rest));
        Filter(p, [x] + t);
      }
    } else if t == [] {
      assert [x] + t == [x];
    }
  }

  /** Inserting `x` into a sequence whose per-key subsequences are those of
      `rest` gives the per-key subsequences of `[x] + rest`. */
  lemma InsertKeepsKeyOrder(x: User, rest: seq<User>, t: seq<User>, cmp: (User, User) -> int, key: User -> string)
    requires IsComparator(cmp, key)
    requires forall k :: Filter(KeyEq(key, k), t) == Filter(KeyEq(key, k), rest)
    ensures forall k :: Filter(KeyEq(key, k), Insert(x, t, cmp)) == Filter(KeyEq(key, k), [x] + rest)
  {
    forall k ensures Filter(KeyEq(key, k), Insert(x, t, cmp)) == Filter(KeyEq(key, k), [x] + rest) {
      InsertWithKey(x, t, cmp, key, k);
      assert Filter(KeyEq(key, k), t) == Filter(KeyEq(key, k), rest);
      FilterAppend(KeyEq(key, k), [x], t);
      FilterAppend(KeyEq(key, k), [x], rest);
    }
  }

  /** The insertion sort returns a permutation of its input, sorted, in which
      the records of each key keep their relative order. */
  lemma {:induction false} SortWithCorrect(s: seq<User>, cmp: (User, User) -> int, key: User -> string)
    requires IsComparator(cmp, key)
    ensures multiset(SortWith(s, cmp)) == multiset(s)
    ensures SortedWith(SortWith(s, cmp), cmp)
    ensures forall k :: Filter(KeyEq(key, k), SortWith(s, cmp)) == Filter(KeyEq(key, k), s)
  {
    if s != [] {
      var t := SortWith(s[1..], cmp);
      SortWithCorrect(s[1..], cmp, key);
      InsertMultiset(s[0], t, cmp);
      InsertSorted(s[0], t, cmp, key);
      InsertKeepsKeyOrder(s[0], s[1..], t, cmp, key);
      assert s == [s[0]] + s[1..];
    }
  }

  lemma {:induction false} SortSortedIsIdentity(s: seq<User>, cmp: (User, User) -> int)
    requires SortedWith(s, cmp)
    ensures SortWith(s, cmp) == s
  {
    if s != [] {
      assert SortedWith(s[1..], cmp) by {
        forall i, j | 0 <= i < j < |s[1..]| ensures cmp(s[1..][i], s[1..][j]) <= 0 {
          assert s[1..][i] == s[i + 1] && s[1..][j] == s[j + 1];
        }
      }
      SortSortedIsIdentity(s[1..], cmp);
      if |s| > 1 {
        assert cmp(s[0], s[1]) <= 0;
      }
      assert s == [s[0]] + s[1..];
    }
  }

  // ------------------------------------------------------------ the page's comparator

  /** The comparator handed to `filtered.sort`. */
  function Compare(a: User, b: User, f: Field, o: Order): int
  {
    var aVal := SortKey(a, f);
    var bVal := SortKey(b, f);
    match o
    case Asc => if LexLess(aVal, bVal) then -1 else if LexLess(bVal, aVal) then 1 else 0
    case Desc => if LexLess(bVal, aVal) then -1 else if LexLess(aVal, bVal) then 1 else 0
  }

  function CompareFn(f: Field, o: Order): (User, User) -> int
  {
    (a, b) => Compare(a, b, f, o)
  }

  function KeyFn(f: Field): User -> string
  {
    u => SortKey(u, f)
  }

  lemma CompareProperties(a: User, b: User, x: User, f: Field, o: Order)
    ensures Compare(a, b, f, o) == -Compare(b, a, f, o)
    ensures Compare(a, b, f, o) == 0 <==> SortKey(a, f) == SortKey(b, f)
    ensures Compare(a, b, f, o) <= 0 && Compare(b, x, f, o) <= 0 ==> Compare(a, x, f, o) <= 0
  {
    var aVal, bVal, xVal := SortKey(a, f), SortKey(b, f), SortKey(x, f);
    LexLessIrreflexive(aVal);
    LexLessTotal(aVal, bVal);
    LexLessAsymmetric(aVal, bVal);
    LexLessAsymmetric(bVal, aVal);
    LexLessAsymmetric(bVal, xVal);
    LexLessAsymmetric(xVal, bVal);
    LexLessAsymmetric(aVal, xVal);
    LexLessAsymmetric(xVal, aVal);
    LexNotGreaterTransitive(aVal, bVal, xVal);
    LexNotGreaterTransitive(xVal, bVal, aVal);
  }

  /** The page's comparator is consistent: it orders records by their
      lower-cased sort field, ascending or descending. */
  lemma CompareIsComparator(f: Field, o: Order)
    ensures IsComparator(CompareFn(f, o), KeyFn(f))
  {
    var cmp, key := CompareFn(f, o), KeyFn(f);
    forall a, b ensures cmp(a, b) == -cmp(b, a) && (cmp(a, b) == 0 <==> key(a) == key(b)) {
      CompareProperties(a, b, a, f, o);
    }
    forall a, b, x ensures cmp(a, b) <= 0 && cmp(b, x) <= 0 ==> cmp(a, x) <= 0 {
      CompareProperties(a, b, x, f, o);
    }
  }

  predicate Sorted(s: seq<User>, f: Field, o: Order)
  {
    SortedWith(s, CompareFn(f, o))
  }

  /** The records of `s` whose sort key is `k`, in their order in `s`. */
  function WithKey(s: seq<User>, f: Field, k: string): seq<User>
  {
    Filter(KeyEq(KeyFn(f), k), s)
  }

  /** `filtered.sort(comparator)`: JavaScript's sort is stable, so the result
      is sorted, a permutation of its input, and the records with equal keys
      keep their relative order. */
  function SortBy(s: seq<User>, f: Field, o: Order): (r: seq<User>)
    ensures multiset(r) == multiset(s)
    ensures Sorted(r, f, o)
    ensures forall k :: WithKey(r, f, k) == WithKey(s, f, k)
  {
    CompareIsComparator(f, o);
    SortWithCorrect(s, CompareFn(f, o), KeyFn(f));
    SortWith(s, CompareFn(f, o))
  }

  // ------------------------------------------------------------ the derivation

  /** The rows shown for the page `allUsers` under criteria `c`. */
  function Displayed(allUsers: seq<User>, c: Criteria): seq<User>
  {
    SortBy(Select(allUsers, c), c.sortField, c.sortOrder)
  }

  function SearchFn(term: string): User -> bool
  {
    u => MatchesSearch(term, u)
  }

  function DomainFn(domain: string): User -> bool
  {
    u => MatchesDomain(domain, u)
  }

  function LetterFn(letter: string): User -> bool
  {
    u => MatchesLetter(letter, u)
  }

  /** The records surviving the search stage. */
  function AfterSearchFn(c: Criteria): User -> bool
  {
    u => SearchActive(c) ==> MatchesSearch(c.searchTerm, u)
  }

  /** The records surviving the search and domain stages. */
  function AfterDomainFn(c: Criteria): User -> bool
  {
    u => (SearchActive(c) ==> MatchesSearch(c.searchTerm, u))
         && (c.domainFilter != ALL ==> MatchesDomain(c.domainFilter, u))
  }

  lemma SearchStage(s: seq<User>, c: Criteria)
    ensures (if SearchActive(c) then Filter(SearchFn(c.searchTerm), s) else s)
            == Filter(AfterSearchFn(c), s)
  {
    if SearchActive(c) {
      FilterCongruent(SearchFn(c.searchTerm), AfterSearchFn(c), s);
    } else {
      FilterKeepsAll(AfterSearchFn(c), s);
    }
  }

  lemma DomainStage(s: seq<User>, c: Criteria)
    ensures (if c.domainFilter != ALL then Filter(DomainFn(c.domainFilter), Filter(AfterSearchFn(c), s))
             else Filter(AfterSearchFn(c), s))
            == Filter(AfterDomainFn(c), s)
  {
    if c.domainFilter != ALL {
      FilterFilter(AfterSearchFn(c), DomainFn(c.domainFilter), AfterDomainFn(c), s);
    } else {
      FilterCongruent(AfterSearchFn(c), AfterDomainFn(c), s);
    }
  }

  lemma LetterStage(s: seq<User>, c: Criteria)
    ensures (if c.letterFilter != ALL then Filter(LetterFn(c.letterFilter), Filter(AfterDomainFn(c), s))
             else Filter(AfterDomainFn(c), s))
            == Select(s, c)
  {
    if c.letterFilter != ALL {
      FilterFilter(AfterDomainFn(c), LetterFn(c.letterFilter), KeepFn(c), s);
    } else {
      FilterCongruent(AfterDomainFn(c), KeepFn(c), s);
    }
  }

  /** The filter-and-sort effect: copy the page, narrow the copy stage by
      stage, then sort it. */
  method DeriveDisplayed(allUsers: seq<User>, c: Criteria) returns (displayed: seq<User>)
    ensures forall u :: multiset(displayed)[u] == if Keep(c, u) then multiset(allUsers)[u] else 0
    ensures Sorted(displayed, c.sortField, c.sortOrder)
    ensures forall k :: WithKey(displayed, c.sortField, k) == WithKey(Select(allUsers, c), c.sortField, k)
    ensures displayed == Displayed(allUsers, c)
  {
    var filtered := allUsers;

    SearchStage(allUsers, c);
    if Trim(c.searchTerm) != [] {
      filtered := Filter(SearchFn(c.searchTerm), filtered);
    }

    DomainStage(allUsers, c);
    if c.domainFilter != ALL {
      filtered := Filter(DomainFn(c.domainFilter), filtered);
    }

    LetterStage(allUsers, c);
    if c.letterFilter != ALL {
      filtered := Filter(LetterFn(c.letterFilter), filtered);
    }

    FilterMultiset(KeepFn(c), allUsers);
    displayed := SortBy(filtered, c.sortField, c.sortOrder);
  }

  // ------------------------------------------------------------ properties

  /** The search stage matches exactly when the lower-cased term occurs in one
      of the three lower-cased fields. */
  lemma MatchesSearchIff(term: string, u: User)
    ensures MatchesSearch(term, u) <==>
      (exists i :: OccursAt(Lower(u.firstName), Lower(term), i))
      || (exists i :: OccursAt(Lower(u.lastName), Lower(term), i))
      || (exists i :: OccursAt(Lower(u.email), Lower(term), i))
  {
    IncludesIff(Lower(u.firstName), Lower(term));
    IncludesIff(Lower(u.lastName), Lower(term));
    IncludesIff(Lower(u.email), Lower(term));
    assert MatchesSearch(term, u) <==>
      Includes(Lower(u.firstName), Lower(term))
      || Includes(Lower(u.lastName), Lower(term))
      || Includes(Lower(u.email), Lower(term));
  }

  /** An empty or white-space-only search term filters nothing out. */
  lemma BlankSearchIsNoOp(s: seq<User>, c: Criteria)
    requires AllWhiteSpace(c.searchTerm)
    ensures Select(s, c) == Select(s, c.(searchTerm := ""))
  {
    TrimEmptyIff(c.searchTerm);
    assert Trim("") == [];
    FilterCongruent(KeepFn(c), KeepFn(c.(searchTerm := "")), s);
  }

  /** With every filter off, every record is shown. */
  lemma NoCriteriaShowsAll(s: seq<User>, c: Criteria)
    requires AllWhiteSpace(c.searchTerm) && c.domainFilter == ALL && c.letterFilter == ALL
    ensures multiset(Displayed(s, c)) == multiset(s)
  {
    TrimEmptyIff(c.searchTerm);
    FilterKeepsAll(KeepFn(c), s);
    assert Select(s, c) == s;
  }

  /** A single letter matches exactly the names whose upper-cased first
      character it is; an empty first name never matches. */
  lemma MatchesLetterIff(letter: string, u: User)
    requires |letter| == 1
    ensures MatchesLetter(letter, u) <==> u.firstName != [] && UpperChar(u.firstName[0]) == letter[0]
  {
    if u.firstName != [] && UpperChar(u.firstName[0]) == letter[0] {
      assert letter == [letter[0]];
    }
  }

  /** Deriving the rows from rows already derived changes nothing. */
  lemma DisplayedIdempotent(s: seq<User>, c: Criteria)
    ensures Displayed(Displayed(s, c), c) == Displayed(s, c)
  {
    var d := Displayed(s, c);
    FilterMultiset(KeepFn(c), s);
    assert forall u :: u in d ==> Keep(c, u) by {
      forall u | u in d ensures Keep(c, u) {
        assert u in multiset(d);
      }
    }
    FilterKeepsAll(KeepFn(c), d);
    SortSortedIsIdentity(d, CompareFn(c.sortField, c.sortOrder));
  }

  /** `a` stands somewhere before `b` in `s`. */
  predicate Before(s: seq<User>, a: User, b: User)
  {
    exists i, j :: 0 <= i < j < |s| && s[i] == a && s[j] == b
  }

  lemma SortedBefore(r: seq<User>, a: User, b: User, f: Field, o: Order)
    requires Sorted(r, f, o) && a in r && b in r
    requires SortKey(a, f) != SortKey(b, f)
    ensures Before(r, a, b) <==> Compare(a, b, f, o) < 0
  {
    CompareProperties(a, b, a, f, o);
    var i :| 0 <= i < |r| && r[i] == a;
    var j :| 0 <= j < |r| && r[j] == b;
    assert j < i ==> Compare(r[j], r[i], f, o) <= 0;
    assert Compare(a, b, f, o) < 0 ==> i < j;
    assert Compare(a, b, f, o) < 0 ==> Before(r, a, b);
  }

  /** Switching the direction reverses the relative order of any two shown
      records whose sort keys differ. */
  lemma DirectionReversesOrder(s: seq<User>, f: Field, a: User, b: User)
    requires a in s && b in s && SortKey(a, f) != SortKey(b, f)
    ensures Before(SortBy(s, f, Asc), a, b) <==> Before(SortBy(s, f, Desc), b, a)
  {
    var up, down := SortBy(s, f, Asc), SortBy(s, f, Desc);
    assert a in multiset(s) && b in multiset(s);
    assert a in multiset(up) && b in multiset(up);
    assert a in multiset(down) && b in multiset(down);
    SortedBefore(up, a, b, f, Asc);
    SortedBefore(down, b, a, f, Desc);
  }
}
