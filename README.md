# Paginated user query pipeline — Dafny model

This project models the query pipeline of a Spring service that serves paginated, filterable
lists of users fetched from an upstream API. The pipeline validates a `UserQuery` (page,
size and two optional text filters), builds a composite `UserSpecification` from the active
filters, filters the cached user list with it (a stable selection), and cuts one page out of
the result into a `PaginationResponse`. It also models `MissingArray.missingArraySort`, an
in-place sort followed by a scan for the first index whose element differs from the index.

Modules, one per source component:

- `Wrappers` (wrappers.dfy): `Option` for Java `null`, `Result` for thrown exceptions.
- `Users` (users.dfy): the `User` record reduced to `id`, `firstName`, `lastName`, `username`.
- `JavaText` (java_text.dfy): `String.trim`, `toLowerCase` and `contains`.
- `Queries` (user_query.dfy): `UserQuery` validation, `of`, `hasNameFilter`, `hasUsernameFilter`, `normalizedName`.
- `Specifications` (specifications.dfy): `NameSpecification`, `UsernameSpecification` and `UserSpecification.and`.
  A specification is a datatype value; `IsSatisfiedBy` interprets it.
- `SpecificationFactory` (specification_factory.dfy): `build`, written imperatively like the
  source's `ArrayList`. It is proved equal to `CompositeOf`. Also `filter`, built on `Select`,
  a generic model of `stream().filter(...).toList()`.
- `UserService` (user_service.dfy): `getUsers`. It is modelled twice: with unbounded
  integers (`Paginate`, `GetUsers`) and exactly as written in 32-bit `int` (`PaginateInt32`).
- `MissingArray` (missing_array.dfy): `missingArraySort` as a method on an `array<int>`.
- `ServiceScenarios` (scenarios.dfy): the fixed scenarios of the service's unit tests.

Assumptions about Java behaviour:

- `String.trim()` removes every character at or below U+0020 from both ends, as the JDK does.
- `String.toLowerCase()` is modelled as ASCII lowercasing. Other letters are left unchanged.
- `(int) Math.ceil((double) totalItems / size)` is modelled as exact integer ceiling
  division. It is exact for every totalItems >= 0 and size >= 1 that fit in an `int`, which is every input the service reaches. A valid query has size >= 1, and totalItems is a list length. `CeilDiv` computes it by
  repeated subtraction, and `CeilDivClosedForm` proves it equal to `(totalItems + size - 1) / size`.
- The product `(page - 1) * size` is written `Mul(page - 1, size)`, multiplication by repeated
  addition, and `MulIsProduct` proves it equal to `*`. This keeps the solver's nonlinear
  arithmetic out of the proofs about pages.
- The cached user list is a parameter (`allUsers`). The call to `UserCacheService.getAllUsers`
  is not part of this model.

## Model

| member | source | states |
|---|---|---|
| `Queries.NewUserQuery` | src/main/java/com/example/pagination/dto/UserQuery.java:16-23 | a query exists iff page >= 1 and size >= 1; page <= 0 fails with the page error even when size is also bad; page >= 1 and size <= 0 fails with the size error |
| `Queries.Of` | src/main/java/com/example/pagination/dto/UserQuery.java:28-34 | an absent page becomes 1 and an absent size 10; given values and both filters pass through; a non-positive page or size fails with the message "Page must be greater than 0" or "Size must be greater than 0" |
| `Queries.ActiveFilterIff` | src/main/java/com/example/pagination/dto/UserQuery.java:39-48 | a text filter is active iff it is present and holds a character above U+0020 |
| `Queries.HasNameFilter` | src/main/java/com/example/pagination/dto/UserQuery.java:39-41 | true iff the name is present and not blank after trim |
| `Queries.HasUsernameFilter` | src/main/java/com/example/pagination/dto/UserQuery.java:46-48 | true iff the username is present and not blank after trim |
| `Queries.NormalizedName` | src/main/java/com/example/pagination/dto/UserQuery.java:53-55 | absent exactly when there is no name filter; otherwise lowercase(trim(name)), non-empty, with no upper-case ASCII letter and no whitespace at either end |
| `JavaText.Trim` | src/main/java/com/example/pagination/dto/UserQuery.java:40 | trim returns a contiguous slice of its input; only characters <= U+0020 are cut from either end; the result neither starts nor ends with one |
| `JavaText.TrimStart` | src/main/java/com/example/pagination/dto/UserQuery.java:40 | the leading loop drops only characters <= U+0020 from the front and stops at the first other character |
| `JavaText.TrimEnd` | src/main/java/com/example/pagination/dto/UserQuery.java:40 | the trailing loop drops only characters <= U+0020 from the back and stops at the last other character |
| `JavaText.TrimIsSlice` | src/main/java/com/example/pagination/dto/UserQuery.java:40 | whatever the two loops leave is a slice of the input with only characters <= U+0020 cut off either end, starting and ending with a character above U+0020 |
| `JavaText.Lower` | src/main/java/com/example/pagination/specification/NameSpecification.java:14 | same length; each character lowercased on its own |
| `JavaText.LowerChar` | src/main/java/com/example/pagination/specification/NameSpecification.java:24 | A-Z move up by 32 to a-z, every other character is kept; no result is an upper-case ASCII letter, and characters <= U+0020 stay exactly those |
| `JavaText.Contains` | src/main/java/com/example/pagination/specification/NameSpecification.java:27 | String.contains: the term occurs at some index of the string; the empty term occurs in every string, a term longer than the string never does |
| `JavaText.TrimEmptyIff` | src/main/java/com/example/pagination/dto/UserQuery.java:40 | trim yields the empty string iff every character is <= U+0020 |
| `JavaText.TrimIgnoresPadding` | src/main/java/com/example/pagination/specification/NameSpecification.java:14 | surrounding whitespace does not change what trim returns |
| `JavaText.TrimLoopsIgnorePadding` | src/main/java/com/example/pagination/specification/NameSpecification.java:14 | the leading and trailing loops of trim pass over surrounding whitespace |
| `JavaText.TrimLowerCommute` | src/main/java/com/example/pagination/specification/NameSpecification.java:14 | trimming and lowercasing commute |
| `Specifications.NameSpecification` | src/main/java/com/example/pagination/specification/NameSpecification.java:13-15 | the stored search term is lowercase(trim(name)), or absent when the name is absent |
| `Specifications.UsernameSpecification` | src/main/java/com/example/pagination/specification/UsernameSpecification.java:13-15 | the stored search term is lowercase(trim(username)), or absent |
| `Specifications.LowerOrEmpty` | src/main/java/com/example/pagination/specification/NameSpecification.java:24-25 | a null attribute compares as "", a present one as Lower of its text (its toLowerCase), of the same length |
| `Specifications.Normalize` | src/main/java/com/example/pagination/specification/NameSpecification.java:14 | null stays null; a present text becomes lowercase(trim(text)), which holds no upper-case ASCII letter and neither starts nor ends with a character <= U+0020 |
| `Specifications.IsSatisfiedBy` | src/main/java/com/example/pagination/specification/NameSpecification.java:17-28 | the verdict of each specification lambda; what it means is stated by NameMatchIff, UsernameMatchIff, And and AllOfIff |
| `Specifications.NameIgnoredMatchesEveryone` | src/main/java/com/example/pagination/specification/NameSpecification.java:20-22 | an absent or empty term is satisfied by every user |
| `Specifications.NameMatchIff` | src/main/java/com/example/pagination/specification/NameSpecification.java:24-27 | with a non-empty term, a user matches iff the term occurs in the lowercased first name or in the lowercased last name |
| `Specifications.NullNamesNeverMatch` | src/main/java/com/example/pagination/specification/NameSpecification.java:24-25 | null first and last names count as "", so such a user never matches a non-empty term |
| `Specifications.NameVerdictIgnoresPaddingAndCase` | src/main/java/com/example/pagination/specification/NameSpecification.java:14 | names that differ only in surrounding whitespace or letter case accept the same users |
| `Specifications.UsernameIgnoredMatchesEveryone` | src/main/java/com/example/pagination/specification/UsernameSpecification.java:20-22 | an absent or empty term is satisfied by every user |
| `Specifications.UsernameMatchIff` | src/main/java/com/example/pagination/specification/UsernameSpecification.java:24-26 | with a non-empty term, a user matches iff the term occurs in the lowercased username |
| `Specifications.NullUsernameNeverMatches` | src/main/java/com/example/pagination/specification/UsernameSpecification.java:24 | a null username counts as "" and never matches a non-empty term |
| `Specifications.UsernameVerdictReadsOnlyUsername` | src/main/java/com/example/pagination/specification/UsernameSpecification.java:24-26 | two users with the same username get the same verdict, whatever their other fields |
| `Specifications.And` | src/main/java/com/example/pagination/specification/UserSpecification.java:22-24 | `a.and(b)` holds for a user iff a holds and b holds |
| `Specifications.AndFalseIfEitherFalse` | src/main/java/com/example/pagination/specification/UserSpecification.java:23 | `a.and(b)` is false whenever either operand is false |
| `Specifications.AndWithAlwaysTrue` | src/main/java/com/example/pagination/specification/UserSpecification.java:22-24 | AND with the always-true specification, on either side, leaves the verdict unchanged |
| `Specifications.AndAssociative` | src/main/java/com/example/pagination/specification/UserSpecification.java:23 | `(a.and(b)).and(c)` and `a.and(b.and(c))` give the same verdict |
| `SpecificationFactory.AllOf` | src/main/java/com/example/pagination/specification/UserSpecificationFactory.java:21-34 | allMatch over the switched-on sub-specifications: the name one is included iff switched on, likewise the username one, and nothing else |
| `SpecificationFactory.CompositeOf` | src/main/java/com/example/pagination/specification/UserSpecificationFactory.java:20-35 | the name sub-filter is included iff hasNameFilter, the username sub-filter iff hasUsernameFilter, and nothing else is included |
| `SpecificationFactory.Build` | src/main/java/com/example/pagination/specification/UserSpecificationFactory.java:20-35 | the list built step by step is exactly the composite of the active sub-filters |
| `SpecificationFactory.AllOfIff` | src/main/java/com/example/pagination/specification/UserSpecificationFactory.java:34 | allMatch over the switched-on sub-specifications holds for a user iff each switched-on one holds |
| `SpecificationFactory.CompositeIff` | src/main/java/com/example/pagination/specification/UserSpecificationFactory.java:34 | build(q) holds for a user iff every included sub-filter holds |
| `SpecificationFactory.NoActiveFilterMatchesEveryone` | src/main/java/com/example/pagination/specification/UserSpecificationFactory.java:20-34 | with no active filter, build(q) is satisfied by every user |
| `SpecificationFactory.BothFiltersRequired` | src/main/java/com/example/pagination/specification/UserSpecificationFactory.java:24-34 | with both filters active, a user failing the username filter is rejected even if the name matches |
| `SpecificationFactory.Select` | src/main/java/com/example/pagination/specification/UserSpecificationFactory.java:42-44 | the stream filter keeps no more elements than it is given, and every element it keeps is accepted |
| `SpecificationFactory.SelectCounts` | src/main/java/com/example/pagination/specification/UserSpecificationFactory.java:42-44 | every copy of an accepted element is kept and no copy of a rejected one |
| `SpecificationFactory.SelectMembers` | src/main/java/com/example/pagination/specification/UserSpecificationFactory.java:42-44 | every kept element is accepted and comes from the input |
| `SpecificationFactory.SelectIsSubsequence` | src/main/java/com/example/pagination/specification/UserSpecificationFactory.java:42-44 | the kept elements form a subsequence of the input, so relative order is kept |
| `SpecificationFactory.SelectAppend` | src/main/java/com/example/pagination/specification/UserSpecificationFactory.java:42-44 | filtering a concatenation is the concatenation of the filtered parts (stable selection) |
| `SpecificationFactory.SelectKeepsAllAccepted` | src/main/java/com/example/pagination/specification/UserSpecificationFactory.java:42-44 | a list whose every element is accepted passes through unchanged |
| `SpecificationFactory.SelectNoneAccepted` | src/main/java/com/example/pagination/specification/UserSpecificationFactory.java:42-44 | a list with no accepted element filters to the empty list |
| `SpecificationFactory.SelectSingleAccepted` | src/main/java/com/example/pagination/specification/UserSpecificationFactory.java:42-44 | when exactly one position is accepted, the result is that one element |
| `SpecificationFactory.Filter` | src/main/java/com/example/pagination/specification/UserSpecificationFactory.java:40-45 | filter(users, q) is no longer than its input and every user it returns satisfies build(q) |
| `SpecificationFactory.FilterCounts` | src/main/java/com/example/pagination/specification/UserSpecificationFactory.java:40-45 | filter keeps every copy of a user build(q) accepts and no copy of one it rejects |
| `SpecificationFactory.FilterMembers` | src/main/java/com/example/pagination/specification/UserSpecificationFactory.java:40-45 | every user filter returns satisfies build(q) and comes from the input |
| `SpecificationFactory.FilterIsSubsequence` | src/main/java/com/example/pagination/specification/UserSpecificationFactory.java:40-45 | the filtered list is a subsequence of the input, so the relative order is kept |
| `SpecificationFactory.FilterAppend` | src/main/java/com/example/pagination/specification/UserSpecificationFactory.java:40-45 | filtering a concatenation with a query is the concatenation of the filtered parts |
| `SpecificationFactory.FilterIdempotent` | src/main/java/com/example/pagination/specification/UserSpecificationFactory.java:40-45 | filtering an already filtered list with the same query returns it unchanged |
| `SpecificationFactory.FilterWithoutActiveFilter` | src/main/java/com/example/pagination/specification/UserSpecificationFactory.java:20-45 | with no active filter, filter returns its input unchanged |
| `UserService.MulIsProduct` | src/main/java/com/example/pagination/service/impl/UserServiceImpl.java:45 | the repeated-addition product Mul(a, b) used for startIndex equals a * b |
| `UserService.StartIndex` | src/main/java/com/example/pagination/service/impl/UserServiceImpl.java:45 | startIndex is 0 exactly on page 1 and at least size on every later page |
| `UserService.StartIndexIsProduct` | src/main/java/com/example/pagination/service/impl/UserServiceImpl.java:45 | startIndex equals (page - 1) * size |
| `UserService.Min` | src/main/java/com/example/pagination/service/impl/UserServiceImpl.java:46 | Math.min: the result is one of its arguments and no larger than either |
| `UserService.CeilDiv` | src/main/java/com/example/pagination/service/impl/UserServiceImpl.java:44 | totalPages is the ceiling of totalItems / size: (r - 1) * size < totalItems <= r * size |
| `UserService.CeilDivClosedForm` | src/main/java/com/example/pagination/service/impl/UserServiceImpl.java:44 | the ceiling equals (totalItems + size - 1) / size, the exact value of Math.ceil((double) totalItems / size) |
| `UserService.Paginate` | src/main/java/com/example/pagination/service/impl/UserServiceImpl.java:44-63 | page and size are echoed; totalItems is the list length; totalPages is its ceiling over size; a start index at or past the end gives empty data; otherwise data is the slice from (page - 1) * size of length min(size, remaining); never more than size users |
| `UserService.PageDataIsDrawnFrom` | src/main/java/com/example/pagination/service/impl/UserServiceImpl.java:50-54 | every user on a page comes from the filtered list |
| `UserService.GetUsers` | src/main/java/com/example/pagination/service/impl/UserServiceImpl.java:31-64 | page and size are echoed; totalItems is the filtered count and at most the dataset size; totalPages is its ceiling over size; at most size users are returned, each drawn from the dataset and satisfying build(q) |
| `UserService.GetUsersPaginatesFiltered` | src/main/java/com/example/pagination/service/impl/UserServiceImpl.java:38-63 | the response is the pagination arithmetic applied to filter(allUsers, q) with the query's page and size |
| `UserService.DataNonEmptyIff` | src/main/java/com/example/pagination/service/impl/UserServiceImpl.java:44-56 | data is non-empty iff page <= totalPages; a later page is empty and no error is raised |
| `UserService.NoItemsNoPages` | src/main/java/com/example/pagination/service/impl/UserServiceImpl.java:44 | zero items give zero pages, not one, and empty data |
| `UserService.UnfilteredTotals` | src/main/java/com/example/pagination/service/impl/UserServiceImpl.java:38-44 | with no active filter, totalItems is the dataset size and totalPages its ceiling over size |
| `UserService.PagesUpToStep` | src/main/java/com/example/pagination/service/impl/UserServiceImpl.java:45-54 | the data of pages 1..n is that of pages 1..n - 1 followed by page n |
| `UserService.PageIsSlice` | src/main/java/com/example/pagination/service/impl/UserServiceImpl.java:45-54 | a non-empty page n is the slice from (n - 1) * size up to n * size or the end of the list |
| `UserService.PagesUpToPrefix` | src/main/java/com/example/pagination/service/impl/UserServiceImpl.java:45-54 | when page n is non-empty, the data of pages 1..n concatenated is the list up to min(n * size, total) |
| `UserService.PagesReassemble` | src/main/java/com/example/pagination/service/impl/UserServiceImpl.java:44-54 | concatenating pages 1..totalPages reproduces the paginated list exactly |
| `UserService.FilterIgnoresPage` | src/main/java/com/example/pagination/service/impl/UserServiceImpl.java:38 | the filtered list does not depend on the requested page |
| `UserService.ResponseIsPage` | src/main/java/com/example/pagination/service/impl/UserServiceImpl.java:38-54 | the response for page n carries page n of the filtered list |
| `UserService.ResponsesArePages` | src/main/java/com/example/pagination/service/impl/UserServiceImpl.java:38-54 | the responses to pages 1..n carry the pages of the filtered list |
| `UserService.ResponsesReassembleFiltered` | src/main/java/com/example/pagination/service/impl/UserServiceImpl.java:31-64 | requesting pages 1..totalPages in order returns every filtered user once, in filter order |
| `UserService.Wrap32` | src/main/java/com/example/pagination/service/impl/UserServiceImpl.java:45-46 | Java int wrap-around: an int32 value congruent to the input modulo 2^32, equal to it when it fits |
| `UserService.PaginateInt32` | src/main/java/com/example/pagination/service/impl/UserServiceImpl.java:44-56 | with int arithmetic, subList throws exactly when the wrapped start index is negative, with IndexOutOfBounds(start), or when it is inside the list and start + size overflows, with IllegalArgument(start, wrapped start + size); otherwise page, size and totalItems are echoed, totalPages is the ceiling of totalItems / size, and data is empty when the wrapped start is at or past the end and is the slice from the wrapped start to min(start + size, totalItems) otherwise |
| `UserService.Int32AgreesWithoutOverflow` | src/main/java/com/example/pagination/service/impl/UserServiceImpl.java:45-46 | whenever page * size fits in an int, the int computation equals the exact one |
| `UserService.StartIndexWrapsToFirstPage` | src/main/java/com/example/pagination/service/impl/UserServiceImpl.java:45-54 | page 1073741825 of size 4 wraps startIndex to 0 and returns the first four users, although the exact computation gives an empty page |
| `UserService.StartIndexWrapsNegative` | src/main/java/com/example/pagination/service/impl/UserServiceImpl.java:45-54 | page 1073741825 of size 2 wraps startIndex to -2^31 and subList throws |
| `MissingArray.IndexOfMin` | src/main/java/com/example/pagination/service/MissingArray.java:26 | returns a position of a smallest element of the unsorted suffix |
| `MissingArray.Swap` | src/main/java/com/example/pagination/service/MissingArray.java:26 | exchanges two elements, leaves every other element in place and keeps the multiset of elements |
| `MissingArray.Sort` | src/main/java/com/example/pagination/service/MissingArray.java:26 | Arrays.sort leaves the array ascending and a permutation of what it held |
| `MissingArray.FirstMismatchFrom` | src/main/java/com/example/pagination/service/MissingArray.java:29-34 | the first index at or after a start index whose element differs from it; none iff every later element equals its index |
| `MissingArray.FirstMismatch` | src/main/java/com/example/pagination/service/MissingArray.java:29-34 | the smallest index i with s[i] != i, or none iff every element equals its index |
| `MissingArray.FindMismatch` | src/main/java/com/example/pagination/service/MissingArray.java:29-34 | the scan loop, which writes nothing, reports the first mismatching index and stops there |
| `MissingArray.MissingArraySort` | src/main/java/com/example/pagination/service/MissingArray.java:24-35 | the array ends sorted and a permutation of its old contents; the report is the first index of the sorted array that is off, or nothing |
| `MissingArray.SortedArrangementOf301` | src/main/java/com/example/pagination/service/MissingArray.java:25-26 | the only ascending arrangement of {3, 0, 1} is [0, 1, 3] |
| `MissingArray.MissingArraySortDemo` | src/main/java/com/example/pagination/service/MissingArray.java:25-33 | on the hard-coded array {3, 0, 1} the reported number is 2 |
| `MissingArray.MissingNumber` | src/main/java/com/example/pagination/service/MissingArray.java:15-22 | the number the documentation promises: the first mismatching index, or n when every index matches; never above n |
| `MissingArray.AtLeastIndex` | src/main/java/com/example/pagination/service/MissingArray.java:15-16 | on sorted distinct numbers from 0..n, the element at index i is at least i |
| `MissingArray.AtMostIndexPlusOne` | src/main/java/com/example/pagination/service/MissingArray.java:15-16 | on sorted distinct numbers from 0..n, the element at index i is at most i + 1 |
| `MissingArray.OneAboveFrom` | src/main/java/com/example/pagination/service/MissingArray.java:15-21 | once an element is one above its index, every later element is too |
| `MissingArray.MissingNumberIsAbsent` | src/main/java/com/example/pagination/service/MissingArray.java:15-22 | on sorted distinct numbers from 0..n, MissingNumber is in 0..n, does not occur, and every other number of 0..n does |
| `MissingArray.ScanMissesLargestNumber` | src/main/java/com/example/pagination/service/MissingArray.java:22-35 | for {1, 0}, where 2 is the absent number, the scan as written reports nothing |
| `ServiceScenarios.UnfilteredQuery` | src/test/java/com/example/pagination/service/impl/UserServiceImplTest.java:37-53 | a query from `of` without filters paginates the whole mock list |
| `ServiceScenarios.FirstPageScenario` | src/test/java/com/example/pagination/service/impl/UserServiceImplTest.java:37-53 | 100 users, page 1 of size 10: 100 items, 10 pages, 10 users, first id 1 |
| `ServiceScenarios.SecondPageScenario` | src/test/java/com/example/pagination/service/impl/UserServiceImplTest.java:55-71 | page 2 of size 10: 10 users, first id 11 |
| `ServiceScenarios.LastPageScenario` | src/test/java/com/example/pagination/service/impl/UserServiceImplTest.java:73-89 | page 10 of size 10: 10 users, first id 91 |
| `ServiceScenarios.PageBeyondTotalScenario` | src/test/java/com/example/pagination/service/impl/UserServiceImplTest.java:91-106 | page 100 of size 10: empty data, 10 pages, page and size echoed |
| `ServiceScenarios.InvalidQueryScenarios` | src/test/java/com/example/pagination/service/impl/UserServiceImplTest.java:108-142 | page 0, page -1, size 0 and size -1 fail with the expected messages |
| `ServiceScenarios.CustomPageSizeScenario` | src/test/java/com/example/pagination/service/impl/UserServiceImplTest.java:144-159 | page 1 of size 25: 4 pages, 25 users |
| `ServiceScenarios.PartialLastPageScenario` | src/test/java/com/example/pagination/service/impl/UserServiceImplTest.java:161-177 | 23 users, page 3 of size 10: 3 users, 3 pages |
| `ServiceScenarios.SearchTermOfFirstName50` | src/test/java/com/example/pagination/service/impl/UserServiceImplTest.java:187 | the search term "FirstName50" normalises to "firstname50" |
| `ServiceScenarios.QueryForFirstName50` | src/test/java/com/example/pagination/service/impl/UserServiceImplTest.java:179-194 | the query for "FirstName50" builds a composite holding only the name specification "firstname50" |
| `ServiceScenarios.MockUserMatchesFirstName50` | src/test/java/com/example/pagination/service/impl/UserServiceImplTest.java:179-194 | among users 1..100, only user 50 matches "firstname50" |
| `ServiceScenarios.OnlyUser50Matches` | src/test/java/com/example/pagination/service/impl/UserServiceImplTest.java:179-194 | of the 100 mock users, the composite for "FirstName50" accepts only the one at index 49 |
| `ServiceScenarios.FilterByFirstName50` | src/test/java/com/example/pagination/service/impl/UserServiceImplTest.java:179-194 | filtering the 100 users by "FirstName50" leaves exactly user 50 |
| `ServiceScenarios.FilterByNameScenario` | src/test/java/com/example/pagination/service/impl/UserServiceImplTest.java:179-194 | the response has 1 item and its first name is "FirstName50" |
| `ServiceScenarios.MockUser50FirstName` | src/test/java/com/example/pagination/service/impl/UserServiceImplTest.java:179-194 | mock user 50 has first name "FirstName50" |
| `ServiceScenarios.MockUsers` | src/test/java/com/example/pagination/service/impl/UserServiceImplTest.java:196-227 | the mock list has count users and the one at index k has id k + 1 |

## Left out

- `UserCacheService` and its Caffeine/Spring cache: the TTL, capacity and single-flight behaviour live in libraries and involve concurrency. The dataset is a parameter.
- Upstream fetching (`ExternalApiClientImpl`), the HTTP controller, the exception handler, the OpenAPI and configuration classes: framework plumbing around the pipeline.
- Logging in `getUsers` and the `System.out.println` and `main` of `MissingArray`: the printed number is returned instead.
- `User` fields other than `id`, `firstName`, `lastName` and `username`: they pass through untouched. `id` is an unbounded `int` rather than a nullable `Long`.
- `JavaText.Lower`: does not model Unicode or locale-sensitive lowercasing; only ASCII A-Z are lowered.
- `JavaText.LowerChar`: lowers only ASCII A-Z; characters outside ASCII keep their case.
- `UserService.GetUsers`: uses unbounded integers. The 32-bit behaviour of `(page - 1) * size` and `startIndex + size` is modelled separately by `UserService.PaginateInt32` (see Findings).
- `MissingArray.Sort`: the JDK's dual-pivot quicksort is not part of this model. A selection sort stands in for it, and only its contract (sorted, a permutation) is relied on.
- The advisory maximum page size from configuration is never enforced by the source and is not modelled.

## Findings
| source | as written | input that shows it | evidently intended | confidence | as-written member | corrected member |
|---|---|---|---|---|---|---|
| src/main/java/com/example/pagination/service/impl/UserServiceImpl.java:45 | `startIndex = (page - 1) * size` in 32-bit `int` | page 1073741825, size 4, at least 4 users: startIndex wraps to 0 and the first four users are returned for a page far beyond totalPages | a page past the end returns empty data | not executed; medium (needs a huge page number) | `UserService.StartIndexWrapsToFirstPage` | `UserService.DataNonEmptyIff` |
| src/main/java/com/example/pagination/service/MissingArray.java:29-35 | the loop falls through and reports nothing when every index matches | {1, 0}: sorted [0, 1], no index is off, yet 2 is the absent number | report n, the array length (step 4 of the method's documentation) | not executed; high | `MissingArray.ScanMissesLargestNumber` | `MissingArray.MissingNumberIsAbsent` |
