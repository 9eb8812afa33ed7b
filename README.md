# User directory, second-largest and Todo store: a Dafny model

This project models three parts of one repository and proves properties of each.

**The user directory page** is `frontend/src/pages/Index.tsx`. It fetches one page of users from a remote service. When the fetch fails, it falls back to six built-in sample users. It then derives the displayed list in this order:

1. a case-insensitive search over first name, last name and email;
2. an e-mail domain filter;
3. a first-letter filter;
4. a stable sort on the chosen column, ascending or descending.

The search stage is switched off by a search term that is empty or white space only; the domain and letter stages are switched off by `"all"`. The page also has a sort-column toggle, previous/next page buttons clamped to `[1, totalPages]`, and the list of distinct e-mail domains that feeds the domain selector.

The model is split into these modules:

- `JsStrings` holds the JavaScript string operations the page uses: ASCII `toLowerCase`/`toUpperCase`, `<`, `includes`, `endsWith` and `trim`.
- `DirectoryView` holds the filter/sort pipeline. The page's derivation effect is the method `DeriveDisplayed`. It reassigns `filtered` stage by stage, like the page's effect.
- `DirectoryPage` holds the fetch outcome, the fallback slice, paging, the sort toggle and the domains list. The component's state is the class `IndexPage`: one field per `useState`, and one method per state-changing handler.

**Second largest distinct element** has three Java solutions in `dsa/`, on 32-bit `int`:

- `Optimal` makes two passes and starts both values at `Integer.MIN_VALUE`.
- `Better` makes one pass over the distinct values, using a `HashSet`, with nullable `Integer`s.
- `BruteForce` sorts the array in place, then scans backwards.

`SecondLargestSpec` gives the common specification: the largest value strictly below the maximum, or -1 when there is none. Each method is proved against it.

- `Better` and `BruteForce` return exactly that answer.
- `Optimal` returns it too, except when the true answer is `Integer.MIN_VALUE`. That value is indistinguishable from the sentinel, so `Optimal` returns -1. `AnswersAgreeUnlessMinValue` proves that this is the only difference, and `MinValueIsLostBySentinel` exhibits it on `[5, MIN_VALUE]`.
- For all three, a genuine answer of -1 looks the same as "none".
- `Optimal` and `Better` do not modify their array: their methods have no `modifies` clause.
- `BruteForce` leaves the caller's array sorted and a permutation of its original contents.

**The Todo store** is the backend's `Todo`, `InMemoryTodoRepository` and `TodoService`.

- `Todo` is a class with four mutable fields. Java's nullable fields become `Option`s.
- The repository holds a `map<string, Todo>` of references.
- The invariant `Valid` says every stored Todo carries the id it is stored under. Under `Valid`, different ids hold different objects, so `update` mutating a stored object changes only that id's entry. `Contents` (the stored values by id) makes this precise.
- The random UUID and `Instant.now()` are parameters of `Create`.

## Model

| member | source | states |
|---|---|---|
| JsStrings.LowerShape | frontend/src/pages/Index.tsx:139-143 | lower-casing keeps the length, maps each character by itself, and leaves no upper-case ASCII letter |
| JsStrings.LowerIdempotent | frontend/src/pages/Index.tsx:164-165 | lower-casing an already lower-cased string changes nothing |
| JsStrings.LexLessIrreflexive | frontend/src/pages/Index.tsx:168 | JavaScript string `<` is irreflexive |
| JsStrings.LexLessTransitive | frontend/src/pages/Index.tsx:168 | string `<` is transitive |
| JsStrings.LexLessTotal | frontend/src/pages/Index.tsx:168 | of two different strings, one is `<` the other |
| JsStrings.LexLessAsymmetric | frontend/src/pages/Index.tsx:168 | `a < b` excludes `b < a` |
| JsStrings.LexNotGreaterTransitive | frontend/src/pages/Index.tsx:168-170 | "not greater than" is transitive |
| JsStrings.OccursAtTail | frontend/src/pages/Index.tsx:141-143 | an occurrence in the tail of a string is an occurrence one position later in the string |
| JsStrings.IncludesIff | frontend/src/pages/Index.tsx:141-143 | `s.includes(t)` holds exactly when `t` occurs in `s` at some index |
| JsStrings.TrimStartEmptyIff | frontend/src/pages/Index.tsx:137 | trimming the start yields "" exactly when the string is all white space |
| JsStrings.TrimEndEmptyIff | frontend/src/pages/Index.tsx:137 | trimming the end yields "" exactly when the string is all white space |
| JsStrings.TrimStartKeepsNonWhite | frontend/src/pages/Index.tsx:137 | after trimming the start, the result is either empty or does not consist only of white space |
| JsStrings.TrimEmptyIff | frontend/src/pages/Index.tsx:137 | `s.trim()` is falsy exactly when `s` is empty or white space only |
| DirectoryView.FilterMultiset | frontend/src/pages/Index.tsx:138-159 | `filter` keeps every occurrence of a matching record and nothing else: no record is duplicated or made up |
| DirectoryView.FilterSingleton | frontend/src/pages/Index.tsx:138-159 | filtering one record keeps it exactly when it matches |
| DirectoryView.FilterAppend | frontend/src/pages/Index.tsx:138-159 | filtering distributes over concatenation, so order is preserved |
| DirectoryView.FilterCongruent | frontend/src/pages/Index.tsx:138-159 | two predicates that agree on the list filter it the same way |
| DirectoryView.FilterKeepsAll | frontend/src/pages/Index.tsx:138-159 | a predicate every record satisfies keeps the whole list |
| DirectoryView.FilterFilter | frontend/src/pages/Index.tsx:138-159 | two successive filters equal one filter by the conjunction |
| DirectoryView.InsertMultiset | frontend/src/pages/Index.tsx:163-171 | inserting into the sorted part neither loses nor adds records |
| DirectoryView.SortedCons | frontend/src/pages/Index.tsx:163-171 | a sorted list with a head no greater than all of it is sorted |
| DirectoryView.SortedTail | frontend/src/pages/Index.tsx:163-171 | the tail of a sorted list is sorted and bounded below by its head |
| DirectoryView.InsertFrontSorted | frontend/src/pages/Index.tsx:163-171 | a record no greater than the head of a sorted list can go in front of it |
| DirectoryView.InsertSorted | frontend/src/pages/Index.tsx:163-171 | insertion into a sorted list keeps it sorted |
| DirectoryView.InsertWithKey | frontend/src/pages/Index.tsx:163-171 | insertion places a record before all records with its key, keeping their relative order |
| DirectoryView.InsertKeepsKeyOrder | frontend/src/pages/Index.tsx:163-171 | insertion keeps the order of every group of records with equal keys |
| DirectoryView.SortWithCorrect | frontend/src/pages/Index.tsx:163-171 | the stable sort returns a permutation that is ordered by the comparator, with every group of equal keys in input order |
| DirectoryView.SortSortedIsIdentity | frontend/src/pages/Index.tsx:163-171 | sorting an already sorted list changes nothing |
| DirectoryView.CompareProperties | frontend/src/pages/Index.tsx:163-171 | the column comparator is antisymmetric and transitive, and returns 0 exactly when the lower-cased keys are equal |
| DirectoryView.CompareIsComparator | frontend/src/pages/Index.tsx:163-171 | for each column and direction, the comparator is a consistent comparator on the lower-cased key |
| DirectoryView.SortBy | frontend/src/pages/Index.tsx:163-171 | `filtered.sort` yields a permutation in non-decreasing (asc) or non-increasing (desc) order of the lower-cased column, and records with equal keys keep their filtered order |
| DirectoryView.SearchStage | frontend/src/pages/Index.tsx:137-146 | after the search stage the list is the input filtered by the search predicate, or unchanged for a blank term |
| DirectoryView.DomainStage | frontend/src/pages/Index.tsx:149-153 | after the domain stage the list is the input filtered by search and domain, domain only when not `"all"` |
| DirectoryView.LetterStage | frontend/src/pages/Index.tsx:156-160 | after the letter stage the list is the input filtered by all three active stages |
| DirectoryView.DeriveDisplayed | frontend/src/pages/Index.tsx:131-175 | the displayed list holds each record of `allUsers` that passes all three filters, as often as it occurs there; it is sorted on the column, and records with equal keys keep their order |
| DirectoryView.MatchesSearchIff | frontend/src/pages/Index.tsx:137-145 | a record passes the search exactly when the lower-cased term occurs in its lower-cased first name, last name or email |
| DirectoryView.BlankSearchIsNoOp | frontend/src/pages/Index.tsx:137 | a white-space-only search term selects the same records as the empty one |
| DirectoryView.NoCriteriaShowsAll | frontend/src/pages/Index.tsx:134-175 | with an empty search and both filters `"all"`, every record is displayed |
| DirectoryView.MatchesLetterIff | frontend/src/pages/Index.tsx:156-160 | a record passes the letter filter exactly when its first name is non-empty and its upper-cased first character is the letter |
| DirectoryView.DisplayedIdempotent | frontend/src/pages/Index.tsx:134-171 | deriving the displayed list again from the displayed list changes nothing |
| DirectoryView.SortedBefore | frontend/src/pages/Index.tsx:163-171 | in the sorted list, a record with a different key comes first exactly when the comparator puts it first |
| DirectoryView.DirectionReversesOrder | frontend/src/pages/Index.tsx:167-170 | for records with different keys, "a before b" ascending holds exactly when "b before a" holds descending |
| DirectoryPage.Slice | frontend/src/pages/Index.tsx:119 | JavaScript `slice`: in-range indices select exactly `s[start..end]`, a start at or past the end, or a non-negative end not after the start, selects nothing, and a negative start with an end past the length selects the last `-start` records |
| DirectoryPage.FallbackShowsAllSamples | frontend/src/pages/Index.tsx:118-121 | the fallback shows all six sample users on every page, including pages 1 and 2 |
| DirectoryPage.LoadPageOutcome | frontend/src/pages/Index.tsx:94-121 | a fetch counts as successful only with an OK status, a parsable body, no `error` and non-empty `data`; success shows that data with `total_pages` or 2 when it is missing or 0; any failure shows the six samples with 2 pages; records are never empty |
| DirectoryPage.PrevPage | frontend/src/pages/Index.tsx:361 | previous moves back one page, never below 1 |
| DirectoryPage.NextPage | frontend/src/pages/Index.tsx:373 | next moves on one page, never beyond `totalPages`; a page in `[1, totalPages]` stays in it |
| DirectoryPage.ToggleSortProperties | frontend/src/pages/Index.tsx:177-184 | clicking the current column flips the order and keeps the column, and clicking twice restores it; another column is selected in ascending order |
| DirectoryPage.AfterFirstAtOf | frontend/src/pages/Index.tsx:187 | the part after the first `@` of `local@rest`, where `local` has no `@`, is `rest` |
| DirectoryPage.UpToAtOfPlain | frontend/src/pages/Index.tsx:187 | a piece without `@` is not cut by `split("@")` |
| DirectoryPage.ListedDomainSelectsUser | frontend/src/pages/Index.tsx:151 | choosing the domain listed for a single-`@` e-mail keeps that user in the domain filter |
| DirectoryPage.DomainList | frontend/src/pages/Index.tsx:187 | one `split("@")[1]` value per user, in order |
| DirectoryPage.Distinct | frontend/src/pages/Index.tsx:186-188 | `Array.from(new Set(...))` has the same members, without duplicates, in order of first occurrence |
| DirectoryPage.FirstSeenInPrefix | frontend/src/pages/Index.tsx:186-188 | an order of first occurrence in a prefix holds in the whole list |
| DirectoryPage.FirstSeenBeforeNew | frontend/src/pages/Index.tsx:186-188 | every value already present is seen before a value that appears for the first time at the end |
| DirectoryPage.DomainListMembers | frontend/src/pages/Index.tsx:187 | the mapped list holds exactly the domains of the users |
| DirectoryPage.Domains | frontend/src/pages/Index.tsx:186-188 | the domains list holds exactly the domains of the loaded users, each once, in the order the users first show them |
| DirectoryPage.DomainsInFirstSeenOrder | frontend/src/pages/Index.tsx:186-188 | of two listed domains, the earlier one belongs to a user who comes before every user with the later one, so the drop-down lists domains in first-seen order |
| DirectoryPage.IndexPage.constructor | frontend/src/pages/Index.tsx:63-73 | the initial state: no users, loading, first name ascending, page 1 of 2, no search, both filters `"all"` |
| DirectoryPage.IndexPage.LoadUsers | frontend/src/pages/Index.tsx:77-125 | the fetch outcome sets the loaded users, page count and fallback flag and clears loading; nothing else changes |
| DirectoryPage.IndexPage.Refresh | frontend/src/pages/Index.tsx:131-175 | the displayed users become the derived list of the current state |
| DirectoryPage.IndexPage.ToggleSortColumn | frontend/src/pages/Index.tsx:177-184 | the sort state moves as the toggle says |
| DirectoryPage.IndexPage.GoPrevious | frontend/src/pages/Index.tsx:361-362 | the page moves back one, never below 1, and stays in range; while the button is disabled the page does not change |
| DirectoryPage.IndexPage.GoNext | frontend/src/pages/Index.tsx:373-374 | the page becomes `min(totalPages, page + 1)`: one page on, or back to `totalPages` when a fetch has lowered the page count below the current page; while the button is disabled (on the last page) the page does not change |
| SecondLargestSpec.Largest | dsa/Optimal.java:21-26 | the maximum is an element and at least every element |
| SecondLargestSpec.MaxBelow | dsa/Optimal.java:28-33 | the largest element below a bound, or none when every element is at least the bound |
| SecondLargestSpec.LargestIs | dsa/Optimal.java:21-26 | an element at least every element is the maximum |
| SecondLargestSpec.MaxBelowIs | dsa/Optimal.java:28-33 | an element below the bound and at least every element below the bound is the largest below it |
| SecondLargestSpec.SecondLargestExistsIff | dsa/Better.java:31 | there is a second largest value exactly when the input holds two different values |
| SecondLargestSpec.SecondLargestIsBelowMax | dsa/Optimal.java:29-33 | the second largest value is an element strictly below the maximum, and at least every element strictly below it |
| SecondLargestSpec.NoSecondLargest | dsa/BruteForce.java:16-25 | fewer than two elements, or all elements equal, give -1 |
| SecondLargestSpec.SecondLargestOfSameValues | dsa/Better.java:21-22 | the answer depends only on the set of values, not on order or repetition |
| SecondLargestSpec.AnswersAgreeUnlessMinValue | dsa/Optimal.java:18-35 | the sentinel answer and the exact answer differ only when the second largest value is `Integer.MIN_VALUE` |
| SecondLargestSpec.MinValueIsLostBySentinel | dsa/Optimal.java:19-35 | on `[5, MIN_VALUE]` the sentinel answer is -1 while the second largest value is `MIN_VALUE` |
| SecondLargestSpec.AppendSeen | dsa/Better.java:21-22 | a value already seen changes neither the maximum nor the second largest value |
| SecondLargestSpec.AppendAbove | dsa/Better.java:23-25 | a new maximum demotes the old maximum to second largest |
| SecondLargestSpec.AppendBelow | dsa/Better.java:26-28 | a new value below the maximum keeps the maximum and becomes the second largest if it beats it |
| Optimal.FindSecondLargest | dsa/Optimal.java:15-36 | returns the second largest value, or -1 when there is none, for fewer than two elements, or when the answer is `MIN_VALUE`; `nums` is not modified |
| Better.FindSecondLargest | dsa/Better.java:15-32 | returns the second largest value, `MIN_VALUE` included, or -1 when there is none; `arr` is not modified |
| BruteForce.MinIndex | dsa/BruteForce.java:18 | the position of a smallest element of the unsorted suffix |
| BruteForce.Swap | dsa/BruteForce.java:18 | exchanges two elements and keeps the multiset of elements |
| BruteForce.SortAscending | dsa/BruteForce.java:18 | the array ends up ascending and a permutation of its original contents |
| BruteForce.SortedScanFinds | dsa/BruteForce.java:20-23 | in the sorted array, the element just before the trailing run of maxima is the original's second largest value |
| BruteForce.SortedScanFindsNone | dsa/BruteForce.java:25 | a sorted array of one repeated value has no second largest value |
| BruteForce.FindSecondLargest | dsa/BruteForce.java:15-26 | returns the same answer as `Better` on the original array; from two elements on, the caller's array is left sorted and a permutation of the original |
| TodoModel.Todo.Empty | backend/src/main/java/com/example/todo/model/Todo.java:6-11 | the no-argument constructor leaves every field null and `completed` false |
| TodoModel.Todo.constructor | backend/src/main/java/com/example/todo/model/Todo.java:13-18 | the four arguments are stored as given |
| TodoModel.Todo.SetId | backend/src/main/java/com/example/todo/model/Todo.java:22 | sets the id and changes no other field |
| TodoModel.Todo.SetTitle | backend/src/main/java/com/example/todo/model/Todo.java:24 | sets the title and changes no other field |
| TodoModel.Todo.SetCompleted | backend/src/main/java/com/example/todo/model/Todo.java:26 | sets completed and changes no other field |
| TodoModel.Todo.SetCreatedAt | backend/src/main/java/com/example/todo/model/Todo.java:28 | sets createdAt and changes no other field |
| TodoRepository.ValuesOfInjective | backend/src/main/java/com/example/todo/repository/InMemoryTodoRepository.java:16-18 | a map whose ids hold different objects has as many values as ids |
| TodoRepository.InMemoryTodoRepository.constructor | backend/src/main/java/com/example/todo/repository/InMemoryTodoRepository.java:13 | the store starts empty |
| TodoRepository.InMemoryTodoRepository.ValidIsInjective | backend/src/main/java/com/example/todo/repository/InMemoryTodoRepository.java:26-29 | when every Todo is stored under its own id, different ids hold different objects |
| TodoRepository.InMemoryTodoRepository.ContentsAfterChangeAt | backend/src/main/java/com/example/todo/service/TodoService.java:34-37 | mutating only the Todo stored under an id changes the stored values at that id only |
| TodoRepository.InMemoryTodoRepository.FindAll | backend/src/main/java/com/example/todo/repository/InMemoryTodoRepository.java:16-18 | exactly the stored Todos |
| TodoRepository.InMemoryTodoRepository.FindAllOnePerKey | backend/src/main/java/com/example/todo/repository/InMemoryTodoRepository.java:16-18 | `findAll` yields one Todo per stored id |
| TodoRepository.InMemoryTodoRepository.FindById | backend/src/main/java/com/example/todo/repository/InMemoryTodoRepository.java:21-23 | the Todo stored under the id, or empty when the id is absent |
| TodoRepository.InMemoryTodoRepository.Save | backend/src/main/java/com/example/todo/repository/InMemoryTodoRepository.java:26-29 | maps the Todo's id to it, overwriting any previous entry, and returns it; a lookup of that id then finds it |
| TodoRepository.InMemoryTodoRepository.DeleteById | backend/src/main/java/com/example/todo/repository/InMemoryTodoRepository.java:32-34 | removes only that id; an absent id is a no-op |
| TodoService.PatchedFields | backend/src/main/java/com/example/todo/service/TodoService.java:35-36 | update never changes id or createdAt; a null argument keeps its field and a non-null one sets it |
| TodoService.PatchedIdempotent | backend/src/main/java/com/example/todo/service/TodoService.java:35-36 | applying the same update twice is the same as applying it once |
| TodoService.TodoService.constructor | backend/src/main/java/com/example/todo/service/TodoService.java:16-18 | the service uses the repository it is given |
| TodoService.TodoService.GetAll | backend/src/main/java/com/example/todo/service/TodoService.java:20-22 | exactly the stored Todos |
| TodoService.TodoService.Create | backend/src/main/java/com/example/todo/service/TodoService.java:24-29 | stores a new Todo under the given id, with the title, `completed` or false when null, and the given time; no other entry changes, and with a fresh id the store grows by one |
| TodoService.TodoService.Update | backend/src/main/java/com/example/todo/service/TodoService.java:31-39 | an absent id gives empty and changes nothing; a present id gives its Todo, patched by the non-null arguments, and no other entry changes |
| TodoService.TodoService.Delete | backend/src/main/java/com/example/todo/service/TodoService.java:41-46 | returns whether the id was present; a present id is removed and nothing else changes; an absent id changes nothing |

## Left out

- Network and rendering: `fetch`, `response.json()`, `console.log`, React's `useEffect`/`useState` scheduling and all JSX are not modelled. The fetch outcome is an input (`FetchResult`), and each effect is a method called explicitly.
- The stale-response race between overlapping page fetches: the model is sequential.
- Case mapping covers ASCII letters only. JavaScript's full Unicode `toLowerCase`/`toUpperCase` is not modelled.
- JavaScript compares and slices strings by UTF-16 code unit. Here a `char` is a Unicode scalar value, so strings outside the Basic Multilingual Plane may order differently.
- DirectoryView.Compare: the sort column is one of first name, last name and email, the three columns the page's buttons pass to `toggleSort`. `String(a[sortField])` on `id` or `avatar` is not modelled.
- DirectoryView.SortBy: JavaScript's in-place `sort` is modelled as a stable sort on a sequence. `filtered` is a fresh copy, so no other value observes the update in place.
- The text inputs' setters (`setSearchTerm`, `setDomainFilter`, `setLetterFilter`) are plain field assignments and have no methods of their own.
- DirectoryPage.Domains: an e-mail without `@` gives `undefined` (None), and a missing domain is not filtered out, just as in the page.
- The `main` methods of the three `dsa` classes read standard input and print, so they are left out.
- BruteForce.SortAscending: a selection sort stands in for `Arrays.sort`. Only its result is modelled (sorted, and a permutation), not its algorithm.
- TodoRepository.InMemoryTodoRepository.FindAll: returns a set snapshot of the stored Todos. `store.values()` is a live view that lists an object once per id and shows later `put`/`remove` calls. The model keeps neither the live view nor the multiplicity. The multiplicity comes back under `Valid`, where `FindAllOnePerKey` proves one Todo per id.
- TodoService.TodoService.GetAll: the same set snapshot as `FindAll`, not a live view.
- ConcurrentHashMap's concurrency guarantees are not modelled; the store is a sequential map.
- TodoRepository.InMemoryTodoRepository.Save: requires a non-null id. A null key in `ConcurrentHashMap.put` throws `NullPointerException`, and that exception is not modelled as a result. Likewise every other id parameter (`FindById`, `DeleteById`, `TodoService.Update`, `TodoService.Delete`) is a `string` and so cannot be null, so the `NullPointerException` of `get(null)` and `remove(null)` is not modelled either; the ids reaching them are path variables.
- TodoService.TodoService.Update: requires the store invariant `Valid` (every Todo is stored under its own id). Every operation of the service preserves it. Without the invariant, `save` could file the mutated Todo under a different id.
- `UUID.randomUUID()` and `Instant.now()` become parameters of `Create`. An instant is an integer.
- Java getters are field reads in Dafny, so the getters have no members of their own.
- TodoController.java (HTTP routing), UpdateTodoRequest.java (the 255-character limit enforced by bean validation) and the TodoRepository interface (no logic) are not part of this model.
