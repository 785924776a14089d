/**
 * Daily check-in records (model/checkin.go).
 *
 * A record says that a user checked in on a day and what quota it earned.
 * Days are integer day numbers: the `YYYY-MM-DD` strings the table stores
 * compare in the same order. The table is a sequence in insertion order, so
 * ids increase along it.
 */
module CheckIns {
  import opened Wrappers
  import opened Seqs
  import Accounts

  /** A row of the check_ins table. `createdAt` is a Unix time. */
  datatype CheckIn = CheckIn(id: nat, userId: int, checkDate: int, reward: int, createdAt: int)

  /** The check-in settings stored as JSON under the option `CheckInConfig`. */
  datatype CheckInConfig = CheckInConfig(
    enabled: bool,
    minReward: int,
    maxReward: int,            // 0 means a fixed reward of minReward
    authCodeEnabled: bool,
    authCode: string,
    continuousEnabled: bool,
    continuousReward: int,     // bonus per completed run of continuousDays
    continuousDays: int)

  datatype CheckInError = AlreadyCheckedIn   // 今日已签到

  /** How far back the streak query reads: dates on or after today - 30. */
  const WindowDays: int := 30

  // ---------------------------------------------------------------------
  // Today's record
  // ---------------------------------------------------------------------

  /**
   * `GetUserCheckInToday`: the first record (lowest id) of this user dated
   * today, if any.
   */
  function TodayRecord(records: seq<CheckIn>, userId: int, today: int): (r: Option<CheckIn>)
    ensures r.Some? <==> exists c <- records :: c.userId == userId && c.checkDate == today
    ensures r.Some? ==> r.value in records && r.value.userId == userId && r.value.checkDate == today
  {
    if records == [] then None
    else if records[0].userId == userId && records[0].checkDate == today then Some(records[0])
    else
      var r := TodayRecord(records[1..], userId, today);
      assert forall c <- records[1..] :: c in records;
      assert forall c <- records :: c == records[0] || c in records[1..];
      r
  }

  // ---------------------------------------------------------------------
  // Streak of consecutive days
  // ---------------------------------------------------------------------

  function Dates(s: seq<CheckIn>): (d: seq<int>)
    ensures |d| == |s| && forall i :: 0 <= i < |s| ==> d[i] == s[i].checkDate
  {
    seq(|s|, i requires 0 <= i < |s| => s[i].checkDate)
  }

  function DateDesc(c: CheckIn): int { -c.checkDate }
  function DateAsc(c: CheckIn): int { c.checkDate }

  /** The user's records the streak query reads, newest date first. */
  function StreakWindow(records: seq<CheckIn>, userId: int, today: int): (w: seq<CheckIn>)
    ensures SortedBy(w, DateDesc)
    ensures forall c <- w :: c in records && c.userId == userId && c.checkDate >= today - WindowDays
    ensures forall c <- records :: c.userId == userId && c.checkDate >= today - WindowDays ==> c in w
  {
    var found := Filter(records, (c: CheckIn) => c.userId == userId && c.checkDate >= today - WindowDays);
    var w := SortBy(found, DateDesc);
    assert forall c <- w :: c in found by {
      forall c | c in w ensures c in found { assert c in multiset(w); }
    }
    assert forall c <- found :: c in w by {
      forall c | c in found ensures c in w { assert c in multiset(found); }
    }
    w
  }

  /**
   * The length of the run of `dates` that counts down one day at a time from
   * `expected`; it stops at the first date that does not fit.
   */
  function RunFrom(dates: seq<int>, expected: int): (n: nat)
    ensures n <= |dates|
    ensures forall i :: 0 <= i < n ==> dates[i] == expected - i
    ensures n < |dates| ==> dates[n] != expected - n
  {
    if dates == [] || dates[0] != expected then 0
    else 1 + RunFrom(dates[1..], expected - 1)
  }

  /**
   * The streak over dates sorted newest first: none unless the newest is
   * today or yesterday, else the run back from the newest.
   */
  function Streak(dates: seq<int>, today: int): nat
  {
    if dates == [] then 0
    else if dates[0] != today && dates[0] != today - 1 then 0
    else RunFrom(dates, dates[0])
  }

  /** The streak of `userId` as of `today`. */
  function UserStreak(records: seq<CheckIn>, userId: int, today: int): nat
  {
    Streak(Dates(StreakWindow(records, userId, today)), today)
  }

  /** No record in the window, or a newest record older than yesterday: no streak. */
  lemma StreakZero(dates: seq<int>, today: int)
    requires dates == [] || (dates[0] != today && dates[0] != today - 1)
    ensures Streak(dates, today) == 0
  {
  }

  /** A run of n days ends on exactly the n consecutive days back from the newest date. */
  lemma StreakIsRun(dates: seq<int>, today: int)
    requires dates != [] && (dates[0] == today || dates[0] == today - 1)
    ensures var n := Streak(dates, today);
      && 1 <= n <= |dates|
      && (forall i :: 0 <= i < n ==> dates[i] == dates[0] - i)
      && (n < |dates| ==> dates[n] != dates[0] - n)
  {
  }

  /** Two records on the same day end the run at the first of them. */
  lemma DuplicateEndsRun(dates: seq<int>, expected: int, i: nat)
    requires i + 1 < |dates| && dates[i] == dates[i + 1]
    ensures RunFrom(dates, expected) <= i + 1
  {
  }

  /** Only dates from today - 30 on are read, so a streak is at most 31 days. */
  lemma StreakAtMostWindow(dates: seq<int>, today: int)
    requires forall d <- dates :: d >= today - WindowDays
    ensures Streak(dates, today) <= WindowDays + 1
  {
    var n := Streak(dates, today);
    if n > 0 {
      assert dates[n - 1] in dates;
    }
  }

  lemma UserStreakAtMostWindow(records: seq<CheckIn>, userId: int, today: int)
    ensures UserStreak(records, userId, today) <= WindowDays + 1
  {
    var w := StreakWindow(records, userId, today);
    var d := Dates(w);
    forall x <- d ensures x >= today - WindowDays {
      var i :| 0 <= i < |d| && d[i] == x;
      assert w[i] in w;
    }
    StreakAtMostWindow(d, today);
  }

  // ---------------------------------------------------------------------
  // Monthly history
  // ---------------------------------------------------------------------

  /** The day number of a date of the proleptic Gregorian calendar; 1970-01-01 is 0. */
  function DayNumber(year: int, month: int, day: int): int
    requires 1 <= month <= 12
  {
    var y := if month <= 2 then year - 1 else year;
    var era := y / 400;
    var yoe := y - era * 400;
    var mp := if month > 2 then month - 3 else month + 9;
    var doy := (153 * mp + 2) / 5 + day - 1;
    var doe := yoe * 365 + yoe / 4 - yoe / 100 + doy;
    era * 146097 + doe - 719468
  }

  /** The first day of a month; a month outside 1..12 rolls into the neighbouring years. */
  function MonthStart(year: int, month: int): int
  {
    DayNumber(year + (month - 1) / 12, (month - 1) % 12 + 1, 1)
  }

  /** The month after December is January of the next year. */
  lemma DecemberRollsOver(year: int)
    ensures MonthStart(year, 13) == MonthStart(year + 1, 1)
  {
  }

  /**
   * `GetUserCheckInHistory`: the user's records dated from the first of the
   * month up to, not including, the first of the next month, oldest first.
   */
  function History(records: seq<CheckIn>, userId: int, year: int, month: int): (h: seq<CheckIn>)
    ensures SortedBy(h, DateAsc)
    ensures forall c <- h ::
      c in records && c.userId == userId && MonthStart(year, month) <= c.checkDate < MonthStart(year, month + 1)
    ensures forall c <- records ::
      (c.userId == userId && MonthStart(year, month) <= c.checkDate < MonthStart(year, month + 1)) ==> c in h
    ensures multiset(h) <= multiset(records)
  {
    var start := MonthStart(year, month);
    var end := MonthStart(year, month + 1);
    var found := Filter(records, (c: CheckIn) => c.userId == userId && start <= c.checkDate < end);
    var h := SortBy(found, DateAsc);
    assert forall c <- h :: c in found by {
      forall c | c in h ensures c in found { assert c in multiset(h); }
    }
    assert forall c <- found :: c in h by {
      forall c | c in found ensures c in h { assert c in multiset(found); }
    }
    h
  }

  // ---------------------------------------------------------------------
  // Admin listing
  // ---------------------------------------------------------------------

  /**
   * `GetAllCheckIns`: the records newest id first, `pageSize` of them from
   * position `startIdx`, and the total number of records.
   */
  function AllCheckIns(records: seq<CheckIn>, startIdx: nat, pageSize: nat): (r: (seq<CheckIn>, nat))
    ensures r.1 == |records|
    ensures |r.0| == Min(pageSize, |records| - Min(startIdx, |records|))
    ensures forall i :: 0 <= i < |r.0| ==> r.0[i] == records[|records| - 1 - (startIdx + i)]
  {
    var n := |records|;
    var skip := Min(startIdx, n);
    var take := Min(pageSize, n - skip);
    (seq(take, i requires 0 <= i < take => records[n - 1 - (skip + i)]), n)
  }

  // ---------------------------------------------------------------------
  // Leaderboard
  // ---------------------------------------------------------------------

  /** One leaderboard row. */
  datatype LeaderboardRow = LeaderboardRow(
    userId: int,
    username: string,
    totalCheckIns: nat,
    continuousDays: nat,
    totalRewards: int,
    lastCheckInDate: int,
    rank: nat)

  /** The users that have records, each once. */
  function UserIds(records: seq<CheckIn>): (r: seq<int>)
    ensures NoDup(r)
    ensures forall u <- r :: exists c <- records :: c.userId == u
    ensures forall c <- records :: c.userId in r
  {
    if records == [] then []
    else
      var rest := UserIds(records[1..]);
      assert forall c <- records :: c == records[0] || c in records[1..];
      assert forall c <- records[1..] :: c in records;
      if records[0].userId in rest then rest else [records[0].userId] + rest
  }

  function SumRewards(s: seq<CheckIn>): int
  {
    if s == [] then 0 else s[0].reward + SumRewards(s[1..])
  }

  function MaxDate(s: seq<CheckIn>): (m: int)
    requires s != []
    ensures m in Dates(s) && forall c <- s :: c.checkDate <= m
  {
    if |s| == 1 then s[0].checkDate
    else
      var m := MaxDate(s[1..]);
      assert forall c <- s :: c == s[0] || c in s[1..];
      assert Dates(s) == [s[0].checkDate] + Dates(s[1..]);
      if s[0].checkDate >= m then s[0].checkDate else m
  }

  function RecordsOf(records: seq<CheckIn>, userId: int): seq<CheckIn>
  {
    Filter(records, (c: CheckIn) => c.userId == userId)
  }

  /**
   * The row the grouping query returns for one user: count, reward sum,
   * latest date and the username from the users table (empty when the left
   * join finds no user row). The streak and the rank are filled in later.
   */
  function Aggregate(records: seq<CheckIn>, usernames: map<int, string>, userId: int): (row: LeaderboardRow)
    ensures row.userId == userId
  {
    var mine := RecordsOf(records, userId);
    LeaderboardRow(userId,
      if userId in usernames then usernames[userId] else "",
      |mine|,
      0,
      SumRewards(mine),
      if mine == [] then 0 else MaxDate(mine),
      0)
  }

  /** `GROUP BY c.user_id`: one aggregated row per user. */
  function Grouped(records: seq<CheckIn>, usernames: map<int, string>): (rows: seq<LeaderboardRow>)
    ensures var users := UserIds(records);
      && |rows| == |users|
      && forall i :: 0 <= i < |users| ==> rows[i] == Aggregate(records, usernames, users[i])
  {
    var users := UserIds(records);
    seq(|users|, i requires 0 <= i < |users| => Aggregate(records, usernames, users[i]))
  }

  function CountDesc(r: LeaderboardRow): int { -(r.totalCheckIns as int) }

  /** `ORDER BY total_checkins DESC LIMIT limit`, numbering the rows from 1. */
  function Ranked(rows: seq<LeaderboardRow>, limit: nat): (b: seq<LeaderboardRow>)
    ensures |b| == Min(limit, |rows|)
    ensures forall i :: 0 <= i < |b| ==> b[i] == SortBy(rows, CountDesc)[i].(rank := i + 1)
  {
    var sorted := SortBy(rows, CountDesc);
    var n := Min(limit, |sorted|);
    seq(n, i requires 0 <= i < n => sorted[i].(rank := i + 1))
  }

  /** The loop that sets each row's streak after the query. */
  function WithStreaks(rows: seq<LeaderboardRow>, records: seq<CheckIn>, today: int): (b: seq<LeaderboardRow>)
    ensures |b| == |rows|
    ensures forall i :: 0 <= i < |rows| ==>
      b[i] == rows[i].(continuousDays := UserStreak(records, rows[i].userId, today))
  {
    seq(|rows|, i requires 0 <= i < |rows| => rows[i].(continuousDays := UserStreak(records, rows[i].userId, today)))
  }

  /** `GetCheckInLeaderboard`. */
  function Leaderboard(records: seq<CheckIn>, usernames: map<int, string>, limit: nat, today: int): seq<LeaderboardRow>
  {
    WithStreaks(Ranked(Grouped(records, usernames), limit), records, today)
  }

  /** Reordering rows that belong to distinct users keeps them distinct. */
  lemma {:induction false} DistinctUsersPermuted(rows: seq<LeaderboardRow>, sorted: seq<LeaderboardRow>)
    requires forall i, j :: 0 <= i < j < |rows| ==> rows[i].userId != rows[j].userId
    requires multiset(sorted) == multiset(rows)
    ensures forall i, j :: 0 <= i < j < |sorted| ==> sorted[i].userId != sorted[j].userId
  {
    assert NoDup(rows);
    NoDupPermutation(rows, sorted);
    forall i, j | 0 <= i < j < |sorted| ensures sorted[i].userId != sorted[j].userId {
      assert sorted[i] in multiset(rows) && sorted[j] in multiset(rows);
      var p :| 0 <= p < |rows| && rows[p] == sorted[i];
      var q :| 0 <= q < |rows| && rows[q] == sorted[j];
    }
  }

  /** Each kept row is an input row, numbered by its position from 1. */
  lemma RankedRowsComeFromInput(rows: seq<LeaderboardRow>, limit: nat)
    requires forall r <- rows :: r.rank == 0
    ensures var b := Ranked(rows, limit);
      forall i :: 0 <= i < |b| ==> b[i].rank == i + 1 && b[i].(rank := 0) in rows
  {
    var sorted := SortBy(rows, CountDesc);
    var b := Ranked(rows, limit);
    forall i | 0 <= i < |b| ensures b[i].(rank := 0) in rows {
      assert sorted[i] in multiset(rows);
      assert b[i].(rank := 0) == sorted[i];
    }
  }

  /** Kept rows belong to distinct users when the input rows do. */
  lemma RankedDistinct(rows: seq<LeaderboardRow>, limit: nat)
    requires forall i, j :: 0 <= i < j < |rows| ==> rows[i].userId != rows[j].userId
    ensures var b := Ranked(rows, limit);
      forall i, j :: 0 <= i < j < |b| ==> b[i].userId != b[j].userId
  {
    DistinctUsersPermuted(rows, SortBy(rows, CountDesc));
  }

  /** Kept rows run from most to fewest check-ins. */
  lemma RankedDescending(rows: seq<LeaderboardRow>, limit: nat)
    ensures var b := Ranked(rows, limit);
      forall i, j :: 0 <= i < j < |b| ==> b[i].totalCheckIns >= b[j].totalCheckIns
  {
    var sorted := SortBy(rows, CountDesc);
    var b := Ranked(rows, limit);
    forall i, j | 0 <= i < j < |b| ensures b[i].totalCheckIns >= b[j].totalCheckIns {
      assert CountDesc(sorted[i]) <= CountDesc(sorted[j]);
    }
  }

  /** A row that is not kept has no more check-ins than the last row kept. */
  lemma RankedIsTop(rows: seq<LeaderboardRow>, limit: nat)
    ensures var b := Ranked(rows, limit);
      forall r <- rows :: limit > 0 && (forall x <- b :: x.userId != r.userId) ==>
        |b| > 0 && r.totalCheckIns <= b[|b| - 1].totalCheckIns
  {
    var sorted := SortBy(rows, CountDesc);
    var b := Ranked(rows, limit);
    forall r | r in rows && limit > 0 && (forall x <- b :: x.userId != r.userId)
      ensures |b| > 0 && r.totalCheckIns <= b[|b| - 1].totalCheckIns
    {
      assert r in multiset(sorted);
      var k :| 0 <= k < |sorted| && sorted[k] == r;
      if k < |b| {
        assert false;
      }
      assert CountDesc(sorted[|b| - 1]) <= CountDesc(sorted[k]);
    }
  }

  /** The grouped rows: row i is user i's, unranked, and users are distinct. */
  lemma GroupedRowsShape(records: seq<CheckIn>, usernames: map<int, string>)
    ensures var rows := Grouped(records, usernames); var users := UserIds(records);
      && |rows| == |users|
      && (forall i :: 0 <= i < |rows| ==> rows[i].userId == users[i] && rows[i].rank == 0)
      && (forall r <- rows :: r.rank == 0)
      && (forall i, j :: 0 <= i < j < |rows| ==> rows[i].userId != rows[j].userId)
  {
  }

  /** Each ranked row is one user's aggregate, numbered by its position. */
  lemma RankedGroupsRows(records: seq<CheckIn>, usernames: map<int, string>, limit: nat)
    ensures var b := Ranked(Grouped(records, usernames), limit);
      forall i :: 0 <= i < |b| ==>
        && b[i].rank == i + 1
        && b[i].userId in UserIds(records)
        && b[i].totalCheckIns == |RecordsOf(records, b[i].userId)|
        && b[i].totalRewards == SumRewards(RecordsOf(records, b[i].userId))
  {
    var users := UserIds(records);
    var rows := Grouped(records, usernames);
    var b := Ranked(rows, limit);
    GroupedRowsShape(records, usernames);
    RankedRowsComeFromInput(rows, limit);
    forall i | 0 <= i < |b|
      ensures b[i].userId in users
      ensures b[i].totalCheckIns == |RecordsOf(records, b[i].userId)|
      ensures b[i].totalRewards == SumRewards(RecordsOf(records, b[i].userId))
    {
      var k :| 0 <= k < |rows| && rows[k] == b[i].(rank := 0);
    }
  }

  /** The ranked rows: min(limit, users) of them, distinct users, most check-ins first. */
  lemma RankedGroupsOrder(records: seq<CheckIn>, usernames: map<int, string>, limit: nat)
    ensures var b := Ranked(Grouped(records, usernames), limit);
      && |b| == Min(limit, |UserIds(records)|)
      && (forall i, j :: 0 <= i < j < |b| ==> b[i].userId != b[j].userId)
      && (forall i, j :: 0 <= i < j < |b| ==> b[i].totalCheckIns >= b[j].totalCheckIns)
  {
    var rows := Grouped(records, usernames);
    GroupedRowsShape(records, usernames);
    RankedDistinct(rows, limit);
    RankedDescending(rows, limit);
  }

  /** A user left out of a non-empty ranking has no more check-ins than its last row. */
  lemma RankedGroupsTop(records: seq<CheckIn>, usernames: map<int, string>, limit: nat)
    ensures var b := Ranked(Grouped(records, usernames), limit);
      forall u <- UserIds(records) :: limit > 0 && (forall r <- b :: r.userId != u) ==>
        |b| > 0 && |RecordsOf(records, u)| <= b[|b| - 1].totalCheckIns
  {
    var users := UserIds(records);
    var rows := Grouped(records, usernames);
    var b := Ranked(rows, limit);
    GroupedRowsShape(records, usernames);
    RankedIsTop(rows, limit);
    forall u | u in users && limit > 0 && (forall r <- b :: r.userId != u)
      ensures |b| > 0 && |RecordsOf(records, u)| <= b[|b| - 1].totalCheckIns
    {
      var k :| 0 <= k < |users| && users[k] == u;
      assert rows[k] in rows;
    }
  }

  /** Each leaderboard row carries its user's count, reward sum and streak. */
  lemma LeaderboardRows(records: seq<CheckIn>, usernames: map<int, string>, limit: nat, today: int)
    ensures var b := Leaderboard(records, usernames, limit, today);
      forall i :: 0 <= i < |b| ==>
        && b[i].rank == i + 1
        && b[i].userId in UserIds(records)
        && b[i].totalCheckIns == |RecordsOf(records, b[i].userId)|
        && b[i].totalRewards == SumRewards(RecordsOf(records, b[i].userId))
        && b[i].continuousDays == UserStreak(records, b[i].userId, today)
  {
    RankedGroupsRows(records, usernames, limit);
  }

  /** Leaderboard rows belong to distinct users and run from most to fewest check-ins. */
  lemma LeaderboardOrder(records: seq<CheckIn>, usernames: map<int, string>, limit: nat, today: int)
    ensures var b := Leaderboard(records, usernames, limit, today);
      && |b| == Min(limit, |UserIds(records)|)
      && (forall i, j :: 0 <= i < j < |b| ==> b[i].userId != b[j].userId)
      && (forall i, j :: 0 <= i < j < |b| ==> b[i].totalCheckIns >= b[j].totalCheckIns)
  {
    RankedGroupsOrder(records, usernames, limit);
  }

  /** Adding streaks keeps every row's user and count, so a user absent after is absent before. */
  lemma WithStreaksKeepsUsers(rows: seq<LeaderboardRow>, records: seq<CheckIn>, today: int, u: int)
    requires forall r <- WithStreaks(rows, records, today) :: r.userId != u
    ensures forall r <- rows :: r.userId != u
    ensures |rows| > 0 ==> WithStreaks(rows, records, today)[|rows| - 1].totalCheckIns == rows[|rows| - 1].totalCheckIns
  {
    var b := WithStreaks(rows, records, today);
    forall r | r in rows ensures r.userId != u {
      var i :| 0 <= i < |rows| && rows[i] == r;
      assert b[i] in b;
    }
  }

  /** A user missing from a non-empty leaderboard has no more check-ins than its last row. */
  lemma LeaderboardIsTop(records: seq<CheckIn>, usernames: map<int, string>, limit: nat, today: int)
    ensures var b := Leaderboard(records, usernames, limit, today);
      forall u <- UserIds(records) :: limit > 0 && (forall r <- b :: r.userId != u) ==>
        |b| > 0 && |RecordsOf(records, u)| <= b[|b| - 1].totalCheckIns
  {
    forall u | u in UserIds(records) && limit > 0 && (forall r <- Leaderboard(records, usernames, limit, today) :: r.userId != u)
      ensures |Leaderboard(records, usernames, limit, today)| > 0
      ensures |RecordsOf(records, u)| <= Leaderboard(records, usernames, limit, today)[|Leaderboard(records, usernames, limit, today)| - 1].totalCheckIns
    {
      LeaderboardIsTopFor(records, usernames, limit, today, u);
    }
  }

  lemma LeaderboardIsTopFor(records: seq<CheckIn>, usernames: map<int, string>, limit: nat, today: int, u: int)
    requires u in UserIds(records) && limit > 0
    requires forall r <- Leaderboard(records, usernames, limit, today) :: r.userId != u
    ensures var b := Leaderboard(records, usernames, limit, today);
      |b| > 0 && |RecordsOf(records, u)| <= b[|b| - 1].totalCheckIns
  {
    var ranked := Ranked(Grouped(records, usernames), limit);
    WithStreaksKeepsUsers(ranked, records, today, u);
    RankedGroupsTop(records, usernames, limit);
  }

  // ---------------------------------------------------------------------
  // The store
  // ---------------------------------------------------------------------

  class CheckInStore {
    /** The check_ins table in insertion order. */
    var records: seq<CheckIn>
    /** The id the next insert receives. */
    var nextId: nat

    /** Ids increase along the table and stay below the next id. */
    ghost predicate Valid()
      reads this
    {
      && (forall i, j :: 0 <= i < j < |records| ==> records[i].id < records[j].id)
      && (forall c <- records :: c.id < nextId)
    }

    constructor ()
      ensures Valid() && records == [] && nextId == 1
    {
      records := [];
      nextId := 1;
    }

    /**
     * `GetUserContinuousCheckInDays`: reads the window newest first and
     * counts the run back from the newest date.
     */
    method GetUserContinuousCheckInDays(userId: int, today: int) returns (continuousDays: nat)
      ensures continuousDays == UserStreak(records, userId, today)
      ensures continuousDays <= WindowDays + 1
    {
      UserStreakAtMostWindow(records, userId, today);
      var checkIns := StreakWindow(records, userId, today);
      ghost var dates := Dates(checkIns);
      if |checkIns| == 0 {
        return 0;
      }
      var lastCheckDate := checkIns[0].checkDate;
      if lastCheckDate != today && lastCheckDate != today - 1 {
        return 0;
      }
      continuousDays := 0;
      var expectedDate := lastCheckDate;
      var i := 0;
      while i < |checkIns|
        invariant 0 <= i <= |checkIns|
        invariant continuousDays == i && expectedDate == lastCheckDate - i
        invariant forall j :: 0 <= j < i ==> dates[j] == lastCheckDate - j
      {
        if checkIns[i].checkDate == expectedDate {
          continuousDays := continuousDays + 1;
          expectedDate := expectedDate - 1;
          i := i + 1;
        } else {
          break;
        }
      }
      assert continuousDays == RunFrom(dates, lastCheckDate);
    }

    /**
     * `CreateCheckIn`: refuses a second check-in on the same day; otherwise
     * inserts the record and credits the reward together.
     */
    method CreateCheckIn(userId: int, reward: int, today: int, now: int, users: Accounts.Users)
      returns (r: Outcome<CheckInError>)
      requires Valid()
      modifies this, users
      ensures Valid()
      ensures TodayRecord(old(records), userId, today).Some? ==>
        r == Fail(AlreadyCheckedIn) && records == old(records) && nextId == old(nextId)
        && users.quota == old(users.quota)
      ensures TodayRecord(old(records), userId, today).None? ==>
        && r == Pass
        && records == old(records) + [CheckIn(old(nextId), userId, today, reward, now)]
        && nextId == old(nextId) + 1
        && users.quota == Accounts.Credit(old(users.quota), userId, reward)
    {
      var existing := TodayRecord(records, userId, today);
      if existing.Some? {
        return Fail(AlreadyCheckedIn);
      }
      var checkIn := CheckIn(nextId, userId, today, reward, now);
      records := records + [checkIn];
      nextId := nextId + 1;
      users.quota := Accounts.Credit(users.quota, userId, reward);
      r := Pass;
    }
  }

  /** After a check-in the user has a record for today, so a second one is refused. */
  lemma CheckedInAfterInsert(records: seq<CheckIn>, c: CheckIn)
    ensures TodayRecord(records + [c], c.userId, c.checkDate).Some?
  {
    assert c in records + [c];
  }
}
