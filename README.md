# Member search of the dating app's user repository, in Dafny

This project models the query logic of `UserRepository` in the dating app's
ASP.NET back end.

- **Member search** (`GetMembersAsync`). It removes the current user. It keeps
  the requested gender. It turns the age range into a date-of-birth window:
  from `today.AddYears(-MaxAge - 1)` to `today.AddYears(-MinAge)`, both ends
  included. It then orders the members newest first, by `Created` when
  `OrderBy` is `"created"` and by `LastActive` otherwise. Finally it hands the
  projected members, with the page number and page size, to the pager.
- **Look-up by user name** (`GetMemberAsync`, `GetUserByUsernameAsync`). This
  is `SingleOrDefault`: it returns the one user with that name, or nothing
  when there is none, and throws when there are several.

Modules:

- `Wrappers` (`wrappers.dfy`): `Option`, `Result`, and the two .NET
  exceptions the code can let escape.
- `CSharpInt` (`csharp_int.dfy`): C# `int` and unchecked wrap-around
  arithmetic, used for the offsets `-MaxAge - 1` and `-MinAge`.
- `Calendar` (`calendar.dfy`): the part of `DateTime` the search uses. A
  DateTime is a valid Gregorian date in years 1..9999 plus a time of day. The
  module gives the order on instants and `AddYears`. `AddYears` moves 29
  February to 28 February in a common year, and throws
  `ArgumentOutOfRangeException` when the year leaves 1..9999. It also defines
  an age-in-completed-years reference.
- `Linq` (`linq.dfy`): `Where`, `Select`, `OrderByDescending` (an insertion
  sort) and `SingleOrDefault`, on the sequence a query yields.
- `UserRepository` (`user_repository.dfy`): the user row, the search
  parameters, the search pipeline, the two look-ups, and their properties.

The user table is the sequence `users`. "Today" (`DateTime.Today`) is the
parameter `today`. The AutoMapper projection to `MemberDto` is the function
parameter `project`.

About the example search (1 June 2024, ages 25 to 30): a design description
of this search gives its oldest birth date as 2 June 1993. The code computes
1 June 1993 and includes it. The model follows the code (`MaxAgeExample`, and
the finding below).

## Model

| member | source | states |
|---|---|---|
| `CSharpInt.NegateMinusOneExact` | API/Data/UserRepository.cs:43 | `-MaxAge - 1` in unchecked `int` arithmetic equals the mathematical value for every `int`: the two overflows at `int.MinValue` cancel |
| `CSharpInt.NegateOverflow` | API/Data/UserRepository.cs:44 | unchecked `-MinAge` differs from the mathematical value only at `int.MinValue`, where it gives `int.MinValue` |
| `Calendar.AddYears` | API/Data/UserRepository.cs:43-44 | succeeds exactly when the target year is in 1..9999, otherwise ArgumentOutOfRange; keeps month and time of day; keeps the day except that 29 February in a common year becomes 28 |
| `Calendar.AddYearsRoundTrip` | API/Data/UserRepository.cs:43-44 | going `n` years away and back returns the same instant, for every date except 29 February |
| `Calendar.AddYearsStrictlyIncreasing` | API/Data/UserRepository.cs:43-44 | `d.AddYears(m)` is before `d.AddYears(n)` iff `m < n`, and at most it iff `m <= n` |
| `Calendar.KeyOrdersCalendar` | API/Data/UserRepository.cs:46 | the numeric key used for DateTime comparison orders instants by year, month, day, then time, and is injective |
| `Calendar.BornByIffAtLeast` | API/Data/UserRepository.cs:44-46 | for midnight instants, born no later than `today.AddYears(-k)` iff aged at least `k` (29 February handled) |
| `Calendar.BornSinceAtMost` | API/Data/UserRepository.cs:43-46 | for midnight instants, born no earlier than `today.AddYears(-k)` implies aged at most `k` |
| `Linq.Where` | API/Data/UserRepository.cs:40-46 | the result holds exactly the elements satisfying the filter, each as many times as in the input |
| `Linq.WhereWhere` | API/Data/UserRepository.cs:40-46 | two chained `Where` calls equal one `Where` with the conjunction |
| `Linq.WhereExtensional` | API/Data/UserRepository.cs:40-46 | `Where` with two filters that agree on every value gives the same sequence |
| `Linq.Select` | API/Data/UserRepository.cs:55-56 | same length; element `i` is the projection of input element `i` |
| `Linq.InsertDescending` | API/Data/UserRepository.cs:49-53 | inserting into a non-increasing sequence keeps it non-increasing and adds only the new element |
| `Linq.InsertDescendingAdds` | API/Data/UserRepository.cs:49-53 | inserting adds exactly one occurrence of the element (multiset) |
| `Linq.OrderByDescending` | API/Data/UserRepository.cs:49-53 | the result is non-increasing by the key and is a permutation of the input |
| `Linq.SingleOrDefault` | API/Data/UserRepository.cs:67-69 | none when no element matches; the element when exactly one matches; InvalidOperation iff two positions match |
| `Linq.SingleOfWhere` | API/Data/UserRepository.cs:28-31 | `Where(p).SingleOrDefault()` equals `SingleOrDefault(p)` |
| `Linq.SingleOfSelect` | API/Data/UserRepository.cs:29-31 | projecting before `SingleOrDefault()` is projecting its answer; the exception is unchanged |
| `UserRepository.DobWindowFor` | API/Data/UserRepository.cs:43-44 | the bounds are exactly `today.AddYears(-MaxAge - 1)` and `today.AddYears(-MinAge)` with mathematical offsets; fails (ArgumentOutOfRange) iff either bound's year leaves 1..9999 |
| `UserRepository.MemberQuery` | API/Data/UserRepository.cs:37-53 | fails only when the window does; otherwise a user is in the result iff in the table and admitted (not the current user, requested gender, birth date in the window), with the table's multiplicity, ordered non-increasing by Created for "created" and by LastActive for any other OrderBy |
| `UserRepository.FilterCounts` | API/Data/UserRepository.cs:40-46 | the three `Where` clauses keep each admitted user with its multiplicity and drop all others |
| `UserRepository.GetMembers` | API/Data/UserRepository.cs:35-57 | PageNumber and PageSize reach the pager unchanged; the items are the projections of the ordered members, in order; the same failure as the query |
| `UserRepository.CurrentUserExcluded` | API/Data/UserRepository.cs:40 | no result has the current user's name |
| `UserRepository.ResultsHaveGender` | API/Data/UserRepository.cs:41 | every result has the requested gender |
| `UserRepository.ResultsBornInWindow` | API/Data/UserRepository.cs:43-46 | every result's birth date is between the window's bounds, both included |
| `UserRepository.EmptyWhenAgesCross` | API/Data/UserRepository.cs:43-46 | when `MinAge >= MaxAge + 2` and the bounds exist, the result is empty and no exception is raised |
| `UserRepository.WindowNonEmptyWhenAgesOrdered` | API/Data/UserRepository.cs:43-46 | when `MinAge <= MaxAge + 1`, `minDob <= maxDob`, and a matching user born on either bound is found |
| `UserRepository.ResultsPermuteFiltered` | API/Data/UserRepository.cs:40-53 | the ordered result is a permutation of the three-fold filtered table, which equals filtering once by the admission predicate |
| `UserRepository.AdmittedAges` | API/Data/UserRepository.cs:43-46 | for midnight instants, every admitted user is aged between MinAge and MaxAge + 1 |
| `UserRepository.OldestBoundAdmitsMaxAgePlusOne` | API/Data/UserRepository.cs:43-46 | a matching user born exactly on `minDob` is found although aged MaxAge + 1 |
| `UserRepository.MaxAgeExample` | API/Data/UserRepository.cs:43-46 | on 2024-06-01 with ages 25..30 the window is 1993-06-01..1999-06-01, and a woman born 1993-06-01 (aged 31) is returned |
| `UserRepository.AgedWithinIsAgeRange` | API/Data/UserRepository.cs:43-46 | with the lower bound excluded, a midnight birth date is admitted iff the age is in MinAge..MaxAge |
| `UserRepository.GetUserByUsername` | API/Data/UserRepository.cs:65-70 | none iff no user has the name; the user when exactly one has it; InvalidOperation iff two rows have it |
| `UserRepository.GetMember` | API/Data/UserRepository.cs:25-32 | the same three cases as the look-up, with the projected user as the answer |

## Left out

- Entity Framework (`_context.Users`, `AsQueryable`, `AsNoTracking`, SQL translation): a deferred query is modelled by the sequence it yields.
- `Include(p => p.Photos)`: eager loading of related rows; the user row here has no photo collection.
- AutoMapper `ProjectTo<MemberDto>`: configured outside these files; it is the opaque parameter `project`.
- `PagedList<MemberDto>.CreateAsync`: its source is not part of this model, so only the pass-through of the items, PageNumber and PageSize is stated.
- `GetUserByIdAsync`, `GetusersAsync`, `SaveAllAsync`, `Update`: primary-key lookup, full listing, saving and change tracking are database plumbing with no logic of their own.
- `async`/`Task` wrappers: they add no logic.
- `DateTime.Today`: the clock is the parameter `today`.
- Null strings: `CurrentUsername`, `Gender` and `OrderBy` are never null here. A null `OrderBy` would take the LastActive branch, like any other value that is not "created".
- String comparison follows the model's exact character equality. A database collation that ignores case is not modelled.
- Order of ties: the model keeps equal keys in table order, as LINQ's stable sort does. SQL `ORDER BY ... DESC` leaves ties unordered. The contracts state only the non-increasing order and the permutation.
- `Calendar.AddYears`: clamping 29 February can swap two instants of 28 and 29 February that differ in time of day. The search applies AddYears only to `today`, so no lemma on monotonicity in the date is stated.
- The client files `nav.component.ts` and `text-input.component.ts`: UI plumbing with no behaviour to state.

## Findings

| source | as written | input that shows it | evidently intended | confidence | as-written member | corrected member |
|---|---|---|---|---|---|---|
| API/Data/UserRepository.cs:43-46 | `minDob = today.AddYears(-MaxAge - 1)` with `DateOfBirth >= minDob` admits someone whose (MaxAge+1)-th birthday is today | today 2024-06-01, MinAge 25, MaxAge 30, born 1993-06-01: aged 31, returned | only ages MinAge..MaxAge, i.e. `DateOfBirth > minDob` | not executed; high (the bound is reached exactly on the birthday) | `UserRepository.OldestBoundAdmitsMaxAgePlusOne` | `UserRepository.AgedWithinIsAgeRange` |

The search pipeline (`MemberQuery`) keeps the code's inclusive bound, since it
models the code. The corrected filter `IsAgedWithin` sits beside it with its
age property proved.
