/** The queries of the user repository: the filtered, ordered member search
    and the look-up of one user by user name. The user table is the sequence
    `users`; "today" is a parameter. */
module UserRepository {
  import opened Wrappers
  import opened CSharpInt
  import opened Calendar
  import opened Linq

  /** The columns of a user row that the queries read. */
  datatype AppUser = AppUser(
    id: int,
    userName: string,
    gender: string,
    dateOfBirth: DateTime,
    created: DateTime,
    lastActive: DateTime)

  /** The search request, as bound from the query string. */
  datatype UserParams = UserParams(
    currentUsername: string,
    gender: string,
    minAge: Int32,
    maxAge: Int32,
    orderBy: string,
    pageNumber: Int32,
    pageSize: Int32)

  /** The arguments the search hands to the pager: the ordered, projected
      members and the requested page. */
  datatype PageRequest<T> = PageRequest(source: seq<T>, pageNumber: Int32, pageSize: Int32)

  /** The inclusive range of admitted dates of birth. */
  datatype DobWindow = DobWindow(minDob: DateTime, maxDob: DateTime)

  /** The birth-date bounds: `today.AddYears(-MaxAge - 1)` and
      `today.AddYears(-MinAge)`, with the offsets computed in unchecked 32-bit
      arithmetic as C# does. Either AddYears may throw. */
  function DobWindowFor(p: UserParams, today: DateTime): (r: Result<DobWindow, Exception>)
    ensures r.Success? <==>
      1 <= today.year - p.maxAge - 1 <= 9999 && 1 <= today.year - p.minAge <= 9999
    ensures r.Failure? ==> r.error == ArgumentOutOfRange
    ensures r.Success? ==>
      && r.value.minDob == AddYears(today, -(p.maxAge as int) - 1).value
      && r.value.maxDob == AddYears(today, -(p.minAge as int)).value
  {
    var lowOffset := Subtract(Negate(p.maxAge), 1);
    var highOffset := Negate(p.minAge);
    NegateMinusOneExact(p.maxAge);
    NegateOverflow(p.minAge);
    match AddYears(today, lowOffset)
    case Failure(e) => Failure(e)
    case Success(minDob) =>
      match AddYears(today, highOffset)
      case Failure(e) => Failure(e)
      case Success(maxDob) => Success(DobWindow(minDob, maxDob))
  }

  /** `u => u.UserName != userParams.CurrentUsername` */
  function IsNotCurrentUser(currentUsername: string): AppUser -> bool {
    (u: AppUser) => u.userName != currentUsername
  }

  /** `u => u.Gender == userParams.Gender` */
  function HasGender(gender: string): AppUser -> bool {
    (u: AppUser) => u.gender == gender
  }

  /** `u => u.DateOfBirth >= minDob && u.DateOfBirth <= maxDob` */
  function IsBornWithin(w: DobWindow): AppUser -> bool {
    (u: AppUser) => AtMost(w.minDob, u.dateOfBirth) && AtMost(u.dateOfBirth, w.maxDob)
  }

  /** The ordering column: Created for "created", LastActive for anything else. */
  function OrderKey(orderBy: string): AppUser -> int {
    if orderBy == "created" then (u: AppUser) => Key(u.created) else (u: AppUser) => Key(u.lastActive)
  }

  /** The search criteria as one statement about a user: someone else, of the
      requested gender, born inside the window. */
  predicate Admitted(u: AppUser, p: UserParams, w: DobWindow) {
    && u.userName != p.currentUsername
    && u.gender == p.gender
    && Key(w.minDob) <= Key(u.dateOfBirth) <= Key(w.maxDob)
  }

  /** Members ordered by the requested column, newest first. */
  ghost predicate OrderedBy(members: seq<AppUser>, orderBy: string) {
    && (orderBy == "created" ==>
          forall i, j :: 0 <= i < j < |members| ==> Key(members[i].created) >= Key(members[j].created))
    && (orderBy != "created" ==>
          forall i, j :: 0 <= i < j < |members| ==> Key(members[i].lastActive) >= Key(members[j].lastActive))
  }

  /** The member query before projection and paging: three Where clauses and a
      descending sort. It fails only when a birth-date bound falls outside the
      calendar; otherwise it holds exactly the admitted users, each as often as
      in the table, ordered by the requested column. */
  function MemberQuery(users: seq<AppUser>, p: UserParams, today: DateTime): (r: Result<seq<AppUser>, Exception>)
    ensures r.Success? <==> DobWindowFor(p, today).Success?
    ensures r.Failure? ==> r.error == ArgumentOutOfRange
    ensures r.Success? ==>
      var w := DobWindowFor(p, today).value;
      && (forall u :: u in r.value <==> u in users && Admitted(u, p, w))
      && (forall u :: multiset(r.value)[u] == if Admitted(u, p, w) then multiset(users)[u] else 0)
      && OrderedBy(r.value, p.orderBy)
  {
    var w :- DobWindowFor(p, today);
    var query := Where(users, IsNotCurrentUser(p.currentUsername));
    var query := Where(query, HasGender(p.gender));
    var query := Where(query, IsBornWithin(w));
    var sorted := OrderByDescending(query, OrderKey(p.orderBy));
    FilterCounts(users, p, w);
    assert forall u :: u in sorted <==> u in multiset(query);
    Success(sorted)
  }

  /** The three Where clauses keep each admitted user as often as the table
      holds it, and drop everyone else. */
  lemma FilterCounts(users: seq<AppUser>, p: UserParams, w: DobWindow)
    ensures
      var query := Where(Where(Where(users, IsNotCurrentUser(p.currentUsername)), HasGender(p.gender)), IsBornWithin(w));
      && (forall u :: multiset(query)[u] == if Admitted(u, p, w) then multiset(users)[u] else 0)
      && (forall u :: u in query <==> u in users && Admitted(u, p, w))
  {
  }

  /** GetMembersAsync up to the pager: the ordered members, each projected to
      its public shape by `project`, with PageNumber and PageSize passed on
      unchanged. */
  function GetMembers<D>(users: seq<AppUser>, p: UserParams, today: DateTime, project: AppUser -> D)
    : (r: Result<PageRequest<D>, Exception>)
    ensures r.Success? <==> MemberQuery(users, p, today).Success?
    ensures r.Failure? ==> r.error == ArgumentOutOfRange
    ensures r.Success? ==>
      var members := MemberQuery(users, p, today).value;
      && r.value.pageNumber == p.pageNumber
      && r.value.pageSize == p.pageSize
      && |r.value.source| == |members|
      && forall i :: 0 <= i < |members| ==> r.value.source[i] == project(members[i])
  {
    var members :- MemberQuery(users, p, today);
    Success(PageRequest(Select(members, project), p.pageNumber, p.pageSize))
  }

  /** The current user never appears among the results. */
  lemma {:induction false} CurrentUserExcluded(users: seq<AppUser>, p: UserParams, today: DateTime)
    requires MemberQuery(users, p, today).Success?
    ensures forall u :: u in MemberQuery(users, p, today).value ==> u.userName != p.currentUsername
  {
  }

  /** Every result has the requested gender. */
  lemma {:induction false} ResultsHaveGender(users: seq<AppUser>, p: UserParams, today: DateTime)
    requires MemberQuery(users, p, today).Success?
    ensures forall u :: u in MemberQuery(users, p, today).value ==> u.gender == p.gender
  {
  }

  /** Every result was born inside the window, both bounds included; the
      window's bounds are `today.AddYears(-MaxAge - 1)` and
      `today.AddYears(-MinAge)` (DobWindowFor). */
  lemma {:induction false} ResultsBornInWindow(users: seq<AppUser>, p: UserParams, today: DateTime)
    requires MemberQuery(users, p, today).Success?
    ensures
      var w := DobWindowFor(p, today).value;
      forall u :: u in MemberQuery(users, p, today).value ==>
        AtMost(w.minDob, u.dateOfBirth) && AtMost(u.dateOfBirth, w.maxDob)
  {
  }

  /** With `MinAge >= MaxAge + 2` the youngest admitted birth date lies before
      the oldest one, so the search returns no one and raises nothing. */
  lemma EmptyWhenAgesCross(users: seq<AppUser>, p: UserParams, today: DateTime)
    requires p.minAge as int >= p.maxAge as int + 2
    requires DobWindowFor(p, today).Success?
    ensures MemberQuery(users, p, today) == Success([])
  {
  }

  /** With `MinAge <= MaxAge + 1` the window is a non-empty interval of birth
      dates, and an otherwise matching user born on either bound is found. */
  lemma WindowNonEmptyWhenAgesOrdered(users: seq<AppUser>, p: UserParams, today: DateTime, u: AppUser)
    requires p.minAge as int <= p.maxAge as int + 1
    requires DobWindowFor(p, today).Success?
    requires u in users && u.userName != p.currentUsername && u.gender == p.gender
    requires u.dateOfBirth == DobWindowFor(p, today).value.minDob
          || u.dateOfBirth == DobWindowFor(p, today).value.maxDob
    ensures AtMost(DobWindowFor(p, today).value.minDob, DobWindowFor(p, today).value.maxDob)
    ensures u in MemberQuery(users, p, today).value
  {
  }

  /** Sorting only reorders: the results are a permutation of the users that
      pass the three Where clauses, in table order. */
  lemma ResultsPermuteFiltered(users: seq<AppUser>, p: UserParams, today: DateTime)
    requires MemberQuery(users, p, today).Success?
    ensures
      var w := DobWindowFor(p, today).value;
      var filtered := Where(Where(Where(users, IsNotCurrentUser(p.currentUsername)), HasGender(p.gender)), IsBornWithin(w));
      && multiset(MemberQuery(users, p, today).value) == multiset(filtered)
      && filtered == Where(users, (u: AppUser) => Admitted(u, p, w))
  {
    var w := DobWindowFor(p, today).value;
    var a, b, c := IsNotCurrentUser(p.currentUsername), HasGender(p.gender), IsBornWithin(w);
    WhereWhere(users, a, b);
    WhereWhere(users, Both(a, b), c);
    WhereExtensional(users, Both(Both(a, b), c), (u: AppUser) => Admitted(u, p, w));
  }

  /** Ages of admitted users, for midnight instants (DateTime.Today is
      midnight, and so is a date of birth stored without a time): between
      MinAge and MaxAge + 1. */
  lemma AdmittedAges(u: AppUser, p: UserParams, today: DateTime)
    requires today.timeOfDay == 0 && u.dateOfBirth.timeOfDay == 0
    requires DobWindowFor(p, today).Success?
    requires IsBornWithin(DobWindowFor(p, today).value)(u)
    ensures p.minAge <= Age(u.dateOfBirth, today) <= p.maxAge as int + 1
  {
  }

  /** The lower bound is inclusive, so whoever turns MaxAge + 1 today is found
      although older than MaxAge. */
  lemma OldestBoundAdmitsMaxAgePlusOne(users: seq<AppUser>, p: UserParams, today: DateTime, u: AppUser)
    requires today.timeOfDay == 0
    requires p.minAge as int <= p.maxAge as int + 1
    requires DobWindowFor(p, today).Success?
    requires u in users && u.userName != p.currentUsername && u.gender == p.gender
    requires u.dateOfBirth == DobWindowFor(p, today).value.minDob
    ensures u in MemberQuery(users, p, today).value
    ensures Age(u.dateOfBirth, today) == p.maxAge as int + 1
  {
    WindowNonEmptyWhenAgesOrdered(users, p, today, u);
    var k := p.maxAge as int + 1;
    var bound := AddYears(today, -k).value;
    assert u.dateOfBirth == bound;
    assert u.dateOfBirth.timeOfDay == 0;
    BornByIffAtLeast(u.dateOfBirth, today, k);
    BornSinceAtMost(u.dateOfBirth, today, k);
  }

  /** The example search: on 1 June 2024, ages 25 to 30 give the birth dates
      1 June 1993 to 1 June 1999, and a woman born on 1 June 1993, aged 31, is
      found. */
  lemma MaxAgeExample()
    ensures
      var today: DateTime := DateTimeParts(2024, 6, 1, 0);
      var dob: DateTime := DateTimeParts(1993, 6, 1, 0);
      var p := UserParams("alice", "female", 25, 30, "lastActive", 1, 10);
      var u := AppUser(2, "carol", "female", dob, today, today);
      && DobWindowFor(p, today) == Success(DobWindow(dob, DateTimeParts(1999, 6, 1, 0)))
      && MemberQuery([u], p, today) == Success([u])
      && Age(dob, today) == 31
  {
  }

  /** The age filter as the bounds evidently intend it: the lower bound
      excluded, the upper bound included. */
  function IsAgedWithin(w: DobWindow): AppUser -> bool {
    (u: AppUser) => Key(w.minDob) < Key(u.dateOfBirth) && AtMost(u.dateOfBirth, w.maxDob)
  }

  /** With the lower bound excluded the window holds exactly the users aged
      MinAge to MaxAge on `today`. */
  lemma AgedWithinIsAgeRange(u: AppUser, p: UserParams, today: DateTime)
    requires today.timeOfDay == 0 && u.dateOfBirth.timeOfDay == 0
    requires DobWindowFor(p, today).Success?
    ensures IsAgedWithin(DobWindowFor(p, today).value)(u) <==>
      p.minAge <= Age(u.dateOfBirth, today) <= p.maxAge
  {
  }

  /** `x => x.UserName == username` */
  function HasUserName(username: string): AppUser -> bool {
    (u: AppUser) => u.userName == username
  }

  /** The index of the only user called `username`. */
  ghost predicate OnlyUserAt(users: seq<AppUser>, username: string, i: int) {
    && 0 <= i < |users|
    && users[i].userName == username
    && forall j :: 0 <= j < |users| && j != i ==> users[j].userName != username
  }

  /** GetUserByUsernameAsync: SingleOrDefault over the users with that name
      (their photos are loaded alongside, which is not modelled). */
  function GetUserByUsername(users: seq<AppUser>, username: string): (r: Result<Option<AppUser>, Exception>)
    ensures r == Success(None) <==> forall i :: 0 <= i < |users| ==> users[i].userName != username
    ensures r.Failure? <==>
      exists i, j :: 0 <= i < j < |users| && users[i].userName == username && users[j].userName == username
    ensures r.Failure? ==> r.error == InvalidOperation
    ensures forall i :: OnlyUserAt(users, username, i) ==> r == Success(Some(users[i]))
    ensures r.Success? && r.value.Some? ==> exists i :: OnlyUserAt(users, username, i) && users[i] == r.value.value
  {
    var r := SingleOrDefault(users, HasUserName(username));
    assert forall i :: OnlyUserAt(users, username, i) <==> OnlyMatchAt(users, HasUserName(username), i);
    r
  }

  /** GetMemberAsync: the users with that name, projected, then
      SingleOrDefault(): the projection of the only such user, nothing when
      there is none, InvalidOperationException when there are several. */
  function GetMember<D>(users: seq<AppUser>, username: string, project: AppUser -> D)
    : (r: Result<Option<D>, Exception>)
    ensures r == Success(None) <==> forall i :: 0 <= i < |users| ==> users[i].userName != username
    ensures r.Failure? <==>
      exists i, j :: 0 <= i < j < |users| && users[i].userName == username && users[j].userName == username
    ensures r.Failure? ==> r.error == InvalidOperation
    ensures forall i :: OnlyUserAt(users, username, i) ==> r == Success(Some(project(users[i])))
    ensures r.Success? && r.value.Some? ==>
      exists i :: OnlyUserAt(users, username, i) && project(users[i]) == r.value.value
  {
    var matches := Where(users, HasUserName(username));
    SingleOfSelect(matches, project);
    SingleOfWhere(users, HasUserName(username));
    var found := GetUserByUsername(users, username);
    Single(Select(matches, project))
  }
}
