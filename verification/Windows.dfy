/**
 The day, week and month windows of the application, for dates in UTC.
 */
module Windows {
  import opened Domain
  import opened Civil
  import opened Listings
  import opened MemoryStorage
  import opened StoreAgreement

  // ----- windows and the listings of the application

  /** beginningOfDay */
  ghost function BeginningOfDay(t: Time): Time {
    var c := DateOf(DayOf(t));
    Days(DayNumber(c.year, c.month, c.day))
  }

  ghost function BeginningOfMonth(t: Time): Time {
    var c := DateOf(DayOf(t));
    Days(DayNumber(c.year, c.month, 1))
  }

  /** What ListEvents answers from a calendar. */
  ghost function ListWindow(m: Calendar, userId: string, from: Time, to: Time): Reply {
    MemoryReply(m, List(userId, from, to))
  }

  ghost function ListDay(m: Calendar, userId: string, date: Time): Reply {
    var from := BeginningOfDay(date);
    ListWindow(m, userId, from, AddDate(from, 0, 0, 1))
  }

  ghost function ListWeek(m: Calendar, userId: string, weekStart: Time): Reply {
    var from := BeginningOfDay(weekStart);
    ListWindow(m, userId, from, AddDate(from, 0, 0, 7))
  }

  ghost function ListMonth(m: Calendar, userId: string, date: Time): Reply {
    var from := BeginningOfMonth(date);
    ListWindow(m, userId, from, AddDate(from, 0, 1, 0))
  }

  /** The events a reply lists. */
  ghost function Listed(r: Reply): set<Event> {
    Elements(r.listing)
  }

  lemma ListedIsWindow(m: Calendar, userId: string, from: Time, to: Time)
    requires Consistent(m) && ValidQuery(userId, from, to)
    ensures ListWindow(m, userId, from, to).outcome == Done
    ensures Listed(ListWindow(m, userId, from, to)) == InWindow(m, userId, from, to)
  {
    StringLessIsOrder();
    ListingExists(StringLess, InWindow(m, userId, from, to));
  }

  // ----- a window of n days from a midnight

  /** The k-th midnight from `from`. */
  function Later(from: Time, k: int): Time {
    from + Days(k)
  }

  /** No midnight up to n days later is Go's zero time, which a query refuses. */
  ghost predicate AvoidsZero(from: Time, n: nat) {
    forall k | 0 <= k <= n :: Later(from, k) != ZERO_TIME
  }

  /** The listing of the k-th day from a midnight. */
  ghost function DayListing(m: Calendar, userId: string, from: Time, k: int): Reply {
    ListWindow(m, userId, Later(from, k), Later(from, k + 1))
  }

  /** The events of the listings of n days. */
  ghost function UnionOfDays(m: Calendar, userId: string, from: Time, n: nat): set<Event> {
    set k, e | 0 <= k < n && e in Listed(DayListing(m, userId, from, k)) :: e
  }

  lemma DayOfInstant(from: Time, n: nat, instant: Time) returns (k: int)
    requires from <= instant < Later(from, n)
    ensures 0 <= k < n && Later(from, k) <= instant < Later(from, k + 1)
  {
    k := DayOf(instant - from);
  }

  lemma WindowToDay(m: Calendar, userId: string, from: Time, n: nat, e: Event) returns (k: int)
    requires n > 0 && e.startAt < e.endAt && e in InWindow(m, userId, from, Later(from, n))
    ensures 0 <= k < n && e in InWindow(m, userId, Later(from, k), Later(from, k + 1))
  {
    var instant := if e.startAt < from then from else e.startAt;
    k := DayOfInstant(from, n, instant);
  }

  lemma DayToWindow(m: Calendar, userId: string, from: Time, n: nat, k: int, e: Event)
    requires 0 <= k < n && e in InWindow(m, userId, Later(from, k), Later(from, k + 1))
    ensures e in InWindow(m, userId, from, Later(from, n))
  {
  }

  lemma DaysSucceed(m: Calendar, userId: string, from: Time, n: nat, k: int)
    requires Consistent(m) && !Blank(userId) && AvoidsZero(from, n) && 0 <= k < n
    ensures DayListing(m, userId, from, k).outcome == Done
    ensures Listed(DayListing(m, userId, from, k)) == InWindow(m, userId, Later(from, k), Later(from, k + 1))
  {
    ListedIsWindow(m, userId, Later(from, k), Later(from, k + 1));
  }

  lemma WindowSucceeds(m: Calendar, userId: string, from: Time, n: nat)
    requires Consistent(m) && !Blank(userId) && AvoidsZero(from, n) && n > 0
    ensures ListWindow(m, userId, from, Later(from, n)).outcome == Done
    ensures Listed(ListWindow(m, userId, from, Later(from, n))) == InWindow(m, userId, from, Later(from, n))
  {
    assert Later(from, 0) != ZERO_TIME && Later(from, n) != ZERO_TIME;
    ListedIsWindow(m, userId, from, Later(from, n));
  }

  /** A window of n days lists exactly the events of its day listings. */
  lemma WindowIsItsDays(m: Calendar, userId: string, from: Time, n: nat)
    requires Consistent(m) && !Blank(userId) && AvoidsZero(from, n) && n > 0
    ensures ListWindow(m, userId, from, Later(from, n)).outcome == Done
    ensures forall k | 0 <= k < n :: DayListing(m, userId, from, k).outcome == Done
    ensures Listed(ListWindow(m, userId, from, Later(from, n))) == UnionOfDays(m, userId, from, n)
  {
    WindowSucceeds(m, userId, from, n);
    forall k | 0 <= k < n ensures DayListing(m, userId, from, k).outcome == Done
      && Listed(DayListing(m, userId, from, k)) == InWindow(m, userId, Later(from, k), Later(from, k + 1))
    {
      DaysSucceed(m, userId, from, n, k);
    }
    forall e | e in InWindow(m, userId, from, Later(from, n)) ensures e in UnionOfDays(m, userId, from, n) {
      assert ValidEvent(m[e.id]);
      var k := WindowToDay(m, userId, from, n, e);
      assert e in Listed(DayListing(m, userId, from, k));
    }
    forall e | e in UnionOfDays(m, userId, from, n) ensures e in InWindow(m, userId, from, Later(from, n)) {
      var k :| 0 <= k < n && e in Listed(DayListing(m, userId, from, k));
      DayToWindow(m, userId, from, n, k, e);
    }
  }

  /** The condition on the zero time is exact: otherwise one of the day queries is refused. */
  lemma DaysSucceedIff(m: Calendar, userId: string, from: Time, n: nat)
    requires Consistent(m) && !Blank(userId) && n > 0
    ensures (forall k | 0 <= k < n :: DayListing(m, userId, from, k).outcome == Done) <==> AvoidsZero(from, n)
  {
    if AvoidsZero(from, n) {
      WindowIsItsDays(m, userId, from, n);
    } else {
      var k :| 0 <= k <= n && Later(from, k) == ZERO_TIME;
      assert DayListing(m, userId, from, if k < n then k else n - 1).outcome == Failed(Invalid);
    }
  }

  // ----- the application's windows are windows of days

  lemma DayStart(t: Time)
    ensures BeginningOfDay(t) == Days(DayOf(t)) && BeginningOfDay(t) <= t < Later(BeginningOfDay(t), 1)
  {
  }

  lemma ListDayWindow(m: Calendar, userId: string, date: Time)
    ensures ListDay(m, userId, date) == ListWindow(m, userId, Days(DayOf(date)), Days(DayOf(date) + 1))
  {
    DayStart(date);
    AddDays(Days(DayOf(date)), 1);
  }

  lemma DayAfter(from: Time, date: Time, k: int)
    requires TimeOfDay(from) == 0 && Later(from, k) <= date < Later(from, k + 1)
    ensures Later(from, k) == Days(DayOf(date)) && Later(from, k + 1) == Days(DayOf(date) + 1)
  {
  }

  /** ListEventsForDay, asked for any instant of the k-th day from a midnight, lists that day. */
  lemma ListDayIsDay(m: Calendar, userId: string, from: Time, date: Time, k: int)
    requires TimeOfDay(from) == 0 && Later(from, k) <= date < Later(from, k + 1)
    ensures ListDay(m, userId, date) == DayListing(m, userId, from, k)
  {
    ListDayWindow(m, userId, date);
    DayAfter(from, date, k);
  }

  /** The events ListEventsForDay answers for n days from a midnight, asked at each midnight. */
  ghost function EventsOfDays(m: Calendar, userId: string, from: Time, n: nat): set<Event> {
    set k, e | 0 <= k < n && e in Listed(ListDay(m, userId, Later(from, k))) :: e
  }

  lemma EventsOfDaysIsUnion(m: Calendar, userId: string, from: Time, n: nat)
    requires TimeOfDay(from) == 0
    ensures forall k | 0 <= k < n :: ListDay(m, userId, Later(from, k)) == DayListing(m, userId, from, k)
    ensures EventsOfDays(m, userId, from, n) == UnionOfDays(m, userId, from, n)
  {
    forall k | 0 <= k < n ensures ListDay(m, userId, Later(from, k)) == DayListing(m, userId, from, k) {
      ListDayIsDay(m, userId, from, Later(from, k), k);
    }
  }

  lemma ListWeekWindow(m: Calendar, userId: string, weekStart: Time, from: Time)
    requires from == BeginningOfDay(weekStart)
    ensures ListWeek(m, userId, weekStart) == ListWindow(m, userId, from, Later(from, 7))
  {
    DayStart(weekStart);
    AddDays(from, 7);
  }

  lemma MidnightOf(t: Time, from: Time)
    requires from == BeginningOfDay(t)
    ensures from == Days(DayOf(t)) && TimeOfDay(from) == 0
  {
    DayStart(t);
    Midnight(DayOf(t));
  }

  /** The week listing holds exactly the events ListEventsForDay answers for its seven days. */
  lemma WeekIsSevenDays(m: Calendar, userId: string, weekStart: Time, from: Time)
    requires Consistent(m) && !Blank(userId)
    requires from == BeginningOfDay(weekStart) && AvoidsZero(from, 7)
    ensures ListWeek(m, userId, weekStart).outcome == Done
    ensures forall k | 0 <= k < 7 :: ListDay(m, userId, Later(from, k)).outcome == Done
    ensures Listed(ListWeek(m, userId, weekStart)) == EventsOfDays(m, userId, from, 7)
  {
    ListWeekWindow(m, userId, weekStart, from);
    MidnightOf(weekStart, from);
    WindowIsItsDays(m, userId, from, 7);
    EventsOfDaysIsUnion(m, userId, from, 7);
  }

  /** Days of the month a date falls in. */
  ghost function MonthLength(t: Time): (n: nat)
    ensures 28 <= n <= 31
  {
    var c := DateOf(DayOf(t));
    MonthLengths(c.year, c.month);
    MonthStart(c.year, c.month + 1) - MonthStart(c.year, c.month)
  }

  lemma MonthLengths(y: int, m: int)
    requires 1 <= m <= 12
    ensures 28 <= MonthStart(y, m + 1) - MonthStart(y, m) <= 31
  {
  }

  lemma Midnight(n: int)
    ensures DayOf(Days(n)) == n && TimeOfDay(Days(n)) == 0
  {
  }

  /** The first of the month after December is January 1 of the next year. */
  lemma NextMonth(y: int, m: int)
    requires 1 <= m <= 12
    ensures DayNumber(y, m + 1, 1) == MonthStart(y, m + 1)
  {
    YearLength(y);
    if m < 12 { InMonth(y, m + 1, 1); }
  }

  lemma MonthOfDate(t: Time, c: Date)
    requires ValidDate(c) && DayOf(t) == DayNumber(c.year, c.month, c.day)
    ensures BeginningOfMonth(t) == Days(MonthStart(c.year, c.month))
    ensures MonthLength(t) == MonthStart(c.year, c.month + 1) - MonthStart(c.year, c.month)
  {
    DateOfDayNumber(c);
    InMonth(c.year, c.month, 1);
  }

  lemma AddMonth(y: int, m: int, first: int, next: int)
    requires 1 <= m <= 12 && first == MonthStart(y, m) && next == MonthStart(y, m + 1)
    ensures AddDate(Days(first), 0, 1, 0) == Days(next)
  {
    FirstIsValid(y, m);
    Midnight(first);
    NextMonth(y, m);
    AddDateFrom(Days(first), Date(y, m, 1), 0, 1, 0, next);
  }

  lemma FirstIsValid(y: int, m: int)
    requires 1 <= m <= 12
    ensures ValidDate(Date(y, m, 1)) && DayNumber(y, m, 1) == MonthStart(y, m)
  {
    InMonth(y, m, 1);
    MonthLengths(y, m);
  }

  /** A month's window spans its days, and contains the date it was asked for. */
  lemma MonthSpan(t: Time)
    ensures AddDate(BeginningOfMonth(t), 0, 1, 0) == Later(BeginningOfMonth(t), MonthLength(t))
    ensures BeginningOfMonth(t) <= t < Later(BeginningOfMonth(t), MonthLength(t))
  {
    var c := DateOf(DayOf(t));
    MonthOfDate(t, c);
    AddMonth(c.year, c.month, MonthStart(c.year, c.month), MonthStart(c.year, c.month + 1));
    InMonth(c.year, c.month, c.day);
  }

  lemma ListMonthWindow(m: Calendar, userId: string, date: Time, from: Time, n: nat)
    requires from == BeginningOfMonth(date) && n == MonthLength(date)
    ensures ListMonth(m, userId, date) == ListWindow(m, userId, from, Later(from, n))
    ensures TimeOfDay(from) == 0
  {
    MonthSpan(date);
    Midnight(DayNumber(DateOf(DayOf(date)).year, DateOf(DayOf(date)).month, 1));
  }

  /** The month listing holds exactly the events ListEventsForDay answers for all its days. */
  lemma MonthIsItsDays(m: Calendar, userId: string, date: Time, from: Time, n: nat)
    requires Consistent(m) && !Blank(userId)
    requires from == BeginningOfMonth(date) && n == MonthLength(date) && AvoidsZero(from, n)
    ensures ListMonth(m, userId, date).outcome == Done
    ensures forall k | 0 <= k < n :: ListDay(m, userId, Later(from, k)).outcome == Done
    ensures Listed(ListMonth(m, userId, date)) == EventsOfDays(m, userId, from, n)
  {
    ListMonthWindow(m, userId, date, from, n);
    WindowIsItsDays(m, userId, from, n);
    EventsOfDaysIsUnion(m, userId, from, n);
  }

  // ----- when the listings are refused

  /** A query is answered exactly when the user is named, the window not empty and no bound is zero. */
  lemma AnsweredIff(m: Calendar, userId: string, from: Time, to: Time)
    requires Consistent(m)
    ensures ListWindow(m, userId, from, to).outcome == if ValidQuery(userId, from, to) then Done else Failed(Invalid)
  {
    if ValidQuery(userId, from, to) { ListedIsWindow(m, userId, from, to); }
  }

  /** The day listing is refused for the day of Go's zero time and for the day before it, and for no other. */
  lemma ListDayIff(m: Calendar, userId: string, date: Time)
    requires Consistent(m)
    ensures ListDay(m, userId, date).outcome ==
      if !Blank(userId) && DayOf(date) != 0 && DayOf(date) != -1 then Done else Failed(Invalid)
  {
    ListDayWindow(m, userId, date);
    AnsweredIff(m, userId, Days(DayOf(date)), Days(DayOf(date) + 1));
  }

  /** The week listing is refused only when its first midnight, or its last, is the zero time. */
  lemma ListWeekIff(m: Calendar, userId: string, weekStart: Time)
    requires Consistent(m)
    ensures ListWeek(m, userId, weekStart).outcome ==
      if !Blank(userId) && DayOf(weekStart) != 0 && DayOf(weekStart) != -7 then Done else Failed(Invalid)
  {
    var from := BeginningOfDay(weekStart);
    ListWeekWindow(m, userId, weekStart, from);
    MidnightOf(weekStart, from);
    AnsweredIff(m, userId, from, Later(from, 7));
  }

  /** The month listing is refused only for January of year 1 and December of year 0. */
  lemma ListMonthIff(m: Calendar, userId: string, date: Time, c: Date)
    requires Consistent(m) && c == DateOf(DayOf(date))
    ensures ListMonth(m, userId, date).outcome ==
      if !Blank(userId) && (c.year, c.month) != (1, 1) && (c.year, c.month) != (0, 12) then Done else Failed(Invalid)
  {
    var from, n := BeginningOfMonth(date), MonthLength(date);
    var first, next := MonthStart(c.year, c.month), MonthStart(c.year, c.month + 1);
    ListMonthWindow(m, userId, date, from, n);
    AnsweredIff(m, userId, from, Later(from, n));
    MonthOfDate(date, c);
    assert from == Days(first) && Later(from, n) == Days(next);
    ZeroIsJanuary(c.year, c.month);
    NextIsZero(c.year, c.month);
  }

  lemma ZeroIsJanuary(y: int, m: int)
    requires 1 <= m <= 12
    ensures MonthStart(y, m) == 0 <==> y == 1 && m == 1
  {
    FirstIsValid(y, m);
    FirstIsValid(1, 1);
    if MonthStart(y, m) == 0 { SameDay(Date(y, m, 1), Date(1, 1, 1)); }
  }

  lemma NextIsZero(y: int, m: int)
    requires 1 <= m <= 12
    ensures MonthStart(y, m + 1) == 0 <==> y == 0 && m == 12
  {
    YearLength(y);
    if m == 12 { ZeroIsJanuary(y + 1, 1); } else { ZeroIsJanuary(y, m + 1); }
  }

  /** A week can be answered although one of its days is refused: the week from 0000-12-29 holds 0001-01-01. */
  lemma WeekWithoutItsDay(m: Calendar, userId: string, weekStart: Time, from: Time, date: Time)
    requires Consistent(m) && !Blank(userId)
    requires weekStart == Days(-3) && from == BeginningOfDay(weekStart) && date == ZERO_TIME
    ensures ListWeek(m, userId, weekStart).outcome == Done
    ensures from <= date < Later(from, 7) && ListDay(m, userId, date).outcome == Failed(Invalid)
  {
    Midnight(-3);
    MidnightOf(weekStart, from);
    ListWeekIff(m, userId, weekStart);
    ListDayIff(m, userId, date);
  }

  // ----- month windows tile the timeline

  /** Every instant of a month's window has that same window. */
  lemma MonthWindowUnique(t: Time, t': Time)
    requires BeginningOfMonth(t) <= t' < AddDate(BeginningOfMonth(t), 0, 1, 0)
    ensures BeginningOfMonth(t') == BeginningOfMonth(t)
  {
    MonthSpan(t);
    var c := DateOf(DayOf(t));
    MonthOfDate(t, c);
    var c' := Date(c.year, c.month, DayOf(t') - MonthStart(c.year, c.month) + 1);
    InMonth(c'.year, c'.month, c'.day);
    MonthOfDate(t', c');
  }

  lemma SameMonth(n: int, c: Date, r: Date)
    requires ValidDate(c) && Dates(r, n) && MonthStart(c.year, c.month) <= n < MonthStart(c.year, c.month + 1)
    ensures r.year == c.year && r.month == c.month
  {
    var c' := Date(c.year, c.month, n - MonthStart(c.year, c.month) + 1);
    InMonth(c'.year, c'.month, c'.day);
    SameDay(c', r);
  }

  lemma WindowOfMonth(t: Time, c: Date, first: Time, next: Time)
    requires c == DateOf(DayOf(t))
    requires first == BeginningOfMonth(t) && next == AddDate(first, 0, 1, 0)
    ensures first == Days(MonthStart(c.year, c.month)) && next == Days(MonthStart(c.year, c.month + 1))
    ensures first <= t < next
  {
    MonthSpan(t);
    MonthOfDate(t, c);
  }

  lemma BetweenMidnights(t: Time, a: int, b: int)
    ensures Days(a) <= t < Days(b) <==> a <= DayOf(t) < b
  {
  }

  /** The window of a month holds exactly the instants of the same year and month. */
  lemma MonthWindowIff(t: Time, t': Time, c: Date, c': Date, first: Time, next: Time)
    requires c == DateOf(DayOf(t)) && c' == DateOf(DayOf(t'))
    requires first == BeginningOfMonth(t) && next == AddDate(first, 0, 1, 0)
    ensures first <= t' < next <==> c'.year == c.year && c'.month == c.month
  {
    WindowOfMonth(t, c, first, next);
    var a, b := MonthStart(c.year, c.month), MonthStart(c.year, c.month + 1);
    BetweenMidnights(t', a, b);
    if first <= t' < next { SameMonth(DayOf(t'), c, c'); }
    if c'.year == c.year && c'.month == c.month { InMonth(c'.year, c'.month, c'.day); }
  }

  /** Each month's window ends where the next month's begins, so the windows tile the timeline. */
  lemma MonthsTile(t: Time)
    ensures BeginningOfMonth(t) <= t < AddDate(BeginningOfMonth(t), 0, 1, 0)
    ensures BeginningOfMonth(AddDate(BeginningOfMonth(t), 0, 1, 0)) == AddDate(BeginningOfMonth(t), 0, 1, 0)
  {
    MonthSpan(t);
    var c := DateOf(DayOf(t));
    MonthOfDate(t, c);
    AddMonth(c.year, c.month, MonthStart(c.year, c.month), MonthStart(c.year, c.month + 1));
    FirstOfNext(c.year, c.month);
  }

  lemma FirstOfNext(y: int, m: int)
    requires 1 <= m <= 12
    ensures BeginningOfMonth(Days(MonthStart(y, m + 1))) == Days(MonthStart(y, m + 1))
  {
    var next := if m == 12 then Date(y + 1, 1, 1) else Date(y, m + 1, 1);
    YearLength(y);
    YearLength(y + 1);
    Midnight(MonthStart(y, m + 1));
    InMonth(next.year, next.month, 1);
    MonthLengths(next.year, next.month);
    MonthOfDate(Days(MonthStart(y, m + 1)), next);
  }
}
