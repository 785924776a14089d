/**
 * Check-in HTTP handlers (controller/checkin.go): the configuration read and
 * update, the reward rule, the input clamps and the gate order of a check-in.
 *
 * The stored option is passed in already decoded; the random draw, today's
 * day number, the current year and month and the clock are parameters.
 */
module CheckInController {
  import opened Wrappers
  import opened Seqs
  import opened CheckIns
  import Accounts

  /** The option `CheckInConfig`: unset (the empty string), not valid JSON, or a config. */
  datatype StoredConfig = Absent | Unparsable | Parsed(config: CheckInConfig)

  datatype ConfigError =
    | ConfigUnparsable   // 配置解析失败
    | BadRequest         // 参数错误
    | NegativeMin        // 最小奖励不能为负数
    | NegativeMax        // 最大奖励不能为负数
    | MaxBelowMin        // 最大奖励不能小于最小奖励

  datatype CheckInRefusal =
    | NotConfigured      // 签到功能未配置
    | Unparsed           // 配置解析失败
    | Disabled           // 签到功能未启用
    | AuthCodeMismatch   // 鉴权码错误
    | AlreadyToday       // 今日已签到

  /** The configuration reported when none is stored: disabled, a fixed reward of 100. */
  const DefaultConfig: CheckInConfig :=
    CheckInConfig(false, 100, 0, false, "", false, 50, 7)

  // ---------------------------------------------------------------------
  // Reading and updating the configuration
  // ---------------------------------------------------------------------

  /** `GetCheckInConfig`: the stored or default configuration, never with its auth code. */
  function GetCheckInConfig(stored: StoredConfig): (r: Result<CheckInConfig, ConfigError>)
    ensures r.Success? ==> r.value.authCode == ""
    ensures r.Failure? <==> stored.Unparsable?
    ensures r.Failure? ==> r.error == ConfigUnparsable
    ensures stored.Absent? ==> r == Success(DefaultConfig)
    ensures stored.Parsed? ==> r.Success? && r.value.(authCode := stored.config.authCode) == stored.config
  {
    match stored
    case Absent => Success(DefaultConfig)
    case Unparsable => Failure(ConfigUnparsable)
    case Parsed(config) => Success(config.(authCode := ""))
  }

  /** The bound checks of `UpdateCheckInConfig`, in source order. */
  function ValidateConfig(c: CheckInConfig): Outcome<ConfigError>
  {
    if c.minReward < 0 then Fail(NegativeMin)
    else if c.maxReward < 0 then Fail(NegativeMax)
    else if c.maxReward > 0 && c.maxReward < c.minReward then Fail(MaxBelowMin)
    else Pass
  }

  /** A configuration whose reward bounds the update accepts. */
  predicate WellBounded(c: CheckInConfig)
  {
    c.minReward >= 0 && c.maxReward >= 0 && (c.maxReward == 0 || c.maxReward >= c.minReward)
  }

  /**
   * The update accepts exactly the well-bounded configurations; a maximum of
   * 0 (a fixed reward) is accepted with any non-negative minimum.
   */
  lemma ValidateConfigAccepts(c: CheckInConfig)
    ensures ValidateConfig(c).Pass? <==> WellBounded(c)
    ensures c.minReward >= 0 && c.maxReward == 0 ==> ValidateConfig(c).Pass?
  {
  }

  /**
   * `UpdateCheckInConfig`: an undecodable body or a badly bounded config is
   * refused and the stored option stays; otherwise the config is stored.
   */
  function UpdateCheckInConfig(body: Option<CheckInConfig>, stored: StoredConfig): (r: (Outcome<ConfigError>, StoredConfig))
    ensures r.0.Fail? ==> r.1 == stored
    ensures body.None? ==> r.0 == Fail(BadRequest)
    ensures r.0.Pass? <==> body.Some? && WellBounded(body.value)
    ensures r.0.Pass? ==> r.1 == Parsed(body.value)
  {
    if body.None? then (Fail(BadRequest), stored)
    else
      var check := ValidateConfig(body.value);
      ValidateConfigAccepts(body.value);
      if check.Fail? then (check, stored) else (Pass, Parsed(body.value))
  }

  /** An accepted update reads back as the same configuration with the auth code blanked. */
  lemma UpdateThenGet(body: CheckInConfig, stored: StoredConfig)
    requires UpdateCheckInConfig(Some(body), stored).0.Pass?
    ensures GetCheckInConfig(UpdateCheckInConfig(Some(body), stored).1) == Success(body.(authCode := ""))
  {
  }

  // ---------------------------------------------------------------------
  // Reward
  // ---------------------------------------------------------------------

  /** Whether the reward is drawn at random rather than fixed at the minimum. */
  predicate RandomReward(c: CheckInConfig)
  {
    c.maxReward > 0 && c.maxReward > c.minReward
  }

  /** `draw` stands for `rand.Intn(max - min + 1)`, a value in 0..max - min. */
  predicate DrawFits(c: CheckInConfig, draw: int)
  {
    RandomReward(c) ==> 0 <= draw <= c.maxReward - c.minReward
  }

  function BaseReward(c: CheckInConfig, draw: int): int
    requires DrawFits(c, draw)
  {
    if RandomReward(c) then c.minReward + draw else c.minReward
  }

  /**
   * The base reward is the minimum unless a larger maximum is set, and then
   * lies between the two; every value in between is some draw's reward.
   */
  lemma BaseRewardBounds(c: CheckInConfig, draw: int)
    requires DrawFits(c, draw)
    ensures !RandomReward(c) ==> BaseReward(c, draw) == c.minReward
    ensures RandomReward(c) ==> c.minReward <= BaseReward(c, draw) <= c.maxReward
  {
  }

  /** Every value between the minimum and the maximum is the reward of some draw. */
  lemma EveryRewardReachable(c: CheckInConfig, v: int)
    requires RandomReward(c) && c.minReward <= v <= c.maxReward
    ensures DrawFits(c, v - c.minReward) && BaseReward(c, v - c.minReward) == v
  {
  }

  /** The additive bonus: one `continuousReward` per completed run of `continuousDays`. */
  function ContinuousBonus(c: CheckInConfig, streak: nat): int
  {
    if c.continuousEnabled && c.continuousReward > 0 && c.continuousDays > 0 && streak > 0 then
      var bonusTimes := streak / c.continuousDays;
      if bonusTimes > 0 then bonusTimes * c.continuousReward else 0
    else 0
  }

  function Reward(c: CheckInConfig, draw: int, streak: nat): int
    requires DrawFits(c, draw)
  {
    BaseReward(c, draw) + ContinuousBonus(c, streak)
  }

  /**
   * With the bonus switched on the reward grows by (streak / days) * reward
   * per day completed, with integer division; otherwise not at all.
   */
  lemma BonusIsAdditive(c: CheckInConfig, draw: int, streak: nat)
    requires DrawFits(c, draw)
    ensures c.continuousEnabled && c.continuousReward > 0 && c.continuousDays > 0 ==>
      Reward(c, draw, streak) == BaseReward(c, draw) + (streak / c.continuousDays) * c.continuousReward
    ensures !(c.continuousEnabled && c.continuousReward > 0 && c.continuousDays > 0) ==>
      Reward(c, draw, streak) == BaseReward(c, draw)
  {
    if c.continuousEnabled && c.continuousReward > 0 && c.continuousDays > 0 && streak == 0 {
      assert streak / c.continuousDays == 0;
    }
  }

  /** A longer streak never earns a smaller bonus, and no bonus is negative. */
  lemma {:induction false} BonusMonotone(c: CheckInConfig, s1: nat, s2: nat)
    requires s1 <= s2
    ensures 0 <= ContinuousBonus(c, s1) <= ContinuousBonus(c, s2)
  {
    if c.continuousEnabled && c.continuousReward > 0 && c.continuousDays > 0 {
      DivMonotone(s1, s2, c.continuousDays);
      MulMonotone(s1 / c.continuousDays, s2 / c.continuousDays, c.continuousReward);
    }
  }

  lemma DivMonotone(a: nat, b: nat, d: int)
    requires a <= b && d > 0
    ensures a / d <= b / d
  {
    var qa, qb := a / d, b / d;
    assert qa * d <= a;
    assert b < qb * d + d == (qb + 1) * d;
    MulCancel(qa, qb + 1, d);
  }

  lemma MulCancel(x: int, y: int, d: int)
    requires d > 0 && x * d < y * d
    ensures x < y
  {
    if x >= y {
      MulMonotoneAny(y, x, d);
    }
  }

  lemma MulMonotoneAny(a: int, b: int, k: int)
    requires a <= b && k > 0
    ensures a * k <= b * k
  {
    assert b * k - a * k == (b - a) * k;
  }

  lemma MulMonotone(a: int, b: int, k: int)
    requires 0 <= a <= b && k > 0
    ensures 0 <= a * k <= b * k
  {
  }

  /** A well-bounded configuration with a fitting draw pays at least the minimum, never less than 0. */
  lemma RewardAtLeastMinimum(c: CheckInConfig, draw: int, streak: nat)
    requires WellBounded(c) && DrawFits(c, draw)
    ensures Reward(c, draw, streak) >= c.minReward >= 0
  {
    BonusMonotone(c, 0, streak);
  }

  // ---------------------------------------------------------------------
  // Clamping of query parameters
  // ---------------------------------------------------------------------

  /** A year that does not parse or lies outside 2020..2100 becomes the current year. */
  function ClampYear(parsed: Option<int>, currentYear: int): (year: int)
    ensures parsed.Some? && 2020 <= parsed.value <= 2100 ==> year == parsed.value
    ensures 2020 <= currentYear <= 2100 ==> 2020 <= year <= 2100
    ensures !(parsed.Some? && 2020 <= parsed.value <= 2100) ==> year == currentYear
  {
    if parsed.None? || parsed.value < 2020 || parsed.value > 2100 then currentYear else parsed.value
  }

  /** A month that does not parse or lies outside 1..12 becomes the current month. */
  function ClampMonth(parsed: Option<int>, currentMonth: int): (month: int)
    requires 1 <= currentMonth <= 12
    ensures 1 <= month <= 12
    ensures parsed.Some? && 1 <= parsed.value <= 12 ==> month == parsed.value
    ensures !(parsed.Some? && 1 <= parsed.value <= 12) ==> month == currentMonth
  {
    if parsed.None? || parsed.value < 1 || parsed.value > 12 then currentMonth else parsed.value
  }

  /** Admin paging: a page of 0 or less is page 1 (an unparsable value reads as 0). */
  function ClampPage(page: int): (p: nat)
    ensures p >= 1
    ensures page >= 1 ==> p == page
    ensures page <= 0 ==> p == 1
  {
    if page <= 0 then 1 else page
  }

  /** Admin paging: a page size outside 1..100 is 10. */
  function ClampPageSize(pageSize: int): (n: nat)
    ensures 1 <= n <= 100
    ensures 1 <= pageSize <= 100 ==> n == pageSize
    ensures !(1 <= pageSize <= 100) ==> n == 10
  {
    if pageSize <= 0 || pageSize > 100 then 10 else pageSize
  }

  /** The first record of a page, as `common.PageInfo` computes it: `(page - 1) * pageSize`. */
  function PageStart(page: int, pageSize: int): nat
  {
    MulMonotone(0, ClampPage(page) - 1, ClampPageSize(pageSize));
    (ClampPage(page) - 1) * ClampPageSize(pageSize)
  }

  /**
   * `GetAllCheckIns` handler: the clamped page of the records, newest first,
   * starting at `(page - 1) * pageSize`, and the total.
   */
  function AllCheckInsPage(records: seq<CheckIn>, page: int, pageSize: int): (r: (seq<CheckIn>, nat))
    ensures r.1 == |records|
    ensures var size := ClampPageSize(pageSize); var start := PageStart(page, pageSize);
      && |r.0| == Min(size, |records| - Min(start, |records|)) <= 100
      && forall i :: 0 <= i < |r.0| ==> r.0[i] == records[|records| - 1 - (start + i)]
  {
    AllCheckIns(records, PageStart(page, pageSize), ClampPageSize(pageSize))
  }

  /** `GetUserCheckInHistory` handler: the month's records after clamping year and month. */
  function HistoryPage(records: seq<CheckIn>, userId: int, year: Option<int>, month: Option<int>,
                       currentYear: int, currentMonth: int): (h: seq<CheckIn>)
    requires 1 <= currentMonth <= 12
    ensures SortedBy(h, DateAsc)
    ensures var y := ClampYear(year, currentYear); var m := ClampMonth(month, currentMonth);
      forall c <- h :: c in records && c.userId == userId && MonthStart(y, m) <= c.checkDate < MonthStart(y, m + 1)
    ensures var y := ClampYear(year, currentYear); var m := ClampMonth(month, currentMonth);
      forall c <- records :: c.userId == userId && MonthStart(y, m) <= c.checkDate < MonthStart(y, m + 1) ==> c in h
  {
    History(records, userId, ClampYear(year, currentYear), ClampMonth(month, currentMonth))
  }

  // ---------------------------------------------------------------------
  // Status and check-in
  // ---------------------------------------------------------------------

  datatype CheckInStatus = CheckInStatus(checkedIn: bool, continuousDays: nat, todayReward: int)

  /** `GetUserCheckInStatus`: whether the user checked in today, the streak and today's reward. */
  function Status(records: seq<CheckIn>, userId: int, today: int): (s: CheckInStatus)
    ensures s.checkedIn <==> exists c <- records :: c.userId == userId && c.checkDate == today
    ensures !s.checkedIn ==> s.todayReward == 0
    ensures s.checkedIn ==> exists c <- records :: c.userId == userId && c.checkDate == today && c.reward == s.todayReward
    ensures s.continuousDays == UserStreak(records, userId, today) <= WindowDays + 1
  {
    var t := TodayRecord(records, userId, today);
    UserStreakAtMostWindow(records, userId, today);
    CheckInStatus(t.Some?, UserStreak(records, userId, today), if t.Some? then t.value.reward else 0)
  }

  /**
   * The gates of `CheckIn` in source order: no stored config, an unparsable
   * one, the feature switched off, a wrong or missing auth code when one is
   * required (`authCode` is None when the body does not decode), and an
   * existing check-in today.
   */
  function Gate(stored: StoredConfig, authCode: Option<string>, records: seq<CheckIn>, userId: int, today: int): Option<CheckInRefusal>
  {
    match stored
    case Absent => Some(NotConfigured)
    case Unparsable => Some(Unparsed)
    case Parsed(config) =>
      if !config.enabled then Some(Disabled)
      else if config.authCodeEnabled && (authCode.None? || authCode.value != config.authCode) then Some(AuthCodeMismatch)
      else if TodayRecord(records, userId, today).Some? then Some(AlreadyToday)
      else None
  }

  /** The auth code matters only when the config requires one. */
  lemma AuthCodeIgnoredUnlessRequired(config: CheckInConfig, a1: Option<string>, a2: Option<string>,
                                      records: seq<CheckIn>, userId: int, today: int)
    requires !config.authCodeEnabled
    ensures Gate(Parsed(config), a1, records, userId, today) == Gate(Parsed(config), a2, records, userId, today)
  {
  }

  /** A user who has checked in today is refused by every path through the gates. */
  lemma CheckedInIsRefused(stored: StoredConfig, authCode: Option<string>, records: seq<CheckIn>, userId: int, today: int)
    requires exists c <- records :: c.userId == userId && c.checkDate == today
    ensures Gate(stored, authCode, records, userId, today).Some?
  {
  }

  /**
   * `CheckIn`: a refused gate changes nothing; otherwise the reward is the
   * base plus the bonus for the streak taken before today's record, the
   * record is inserted and credited, and the streak after the insert is
   * reported.
   */
  method CheckIn(store: CheckInStore, users: Accounts.Users, stored: StoredConfig,
                 userId: int, authCode: Option<string>, draw: int, today: int, now: int)
    returns (r: Result<(int, nat), CheckInRefusal>)
    requires store.Valid()
    requires stored.Parsed? ==> DrawFits(stored.config, draw)
    modifies store, users
    ensures store.Valid()
    ensures var gate := Gate(stored, authCode, old(store.records), userId, today);
      gate.Some? ==>
        && r == Failure(gate.value)
        && store.records == old(store.records)
        && users.quota == old(users.quota)
    ensures var gate := Gate(stored, authCode, old(store.records), userId, today);
      gate.None? ==>
        var reward := Reward(stored.config, draw, UserStreak(old(store.records), userId, today));
        && r == Success((reward, UserStreak(store.records, userId, today)))
        && store.records == old(store.records) + [CheckIns.CheckIn(old(store.nextId), userId, today, reward, now)]
        && users.quota == Accounts.Credit(old(users.quota), userId, reward)
  {
    if stored.Absent? {
      return Failure(NotConfigured);
    }
    if stored.Unparsable? {
      return Failure(Unparsed);
    }
    var config := stored.config;
    if !config.enabled {
      return Failure(Disabled);
    }
    if config.authCodeEnabled {
      if authCode.None? || authCode.value != config.authCode {
        return Failure(AuthCodeMismatch);
      }
    }
    var todayCheckIn := TodayRecord(store.records, userId, today);
    if todayCheckIn.Some? {
      return Failure(AlreadyToday);
    }

    var reward := ComputeReward(store, config, userId, draw, today);

    var created := store.CreateCheckIn(userId, reward, today, now, users);
    assert created.Pass?;
    var continuousDays := store.GetUserContinuousCheckInDays(userId, today);
    r := Success((reward, continuousDays));
  }

  /** The reward lines of `CheckIn`: the base, plus the bonus for the streak as it stands. */
  method ComputeReward(store: CheckInStore, config: CheckInConfig, userId: int, draw: int, today: int)
    returns (reward: int)
    requires DrawFits(config, draw)
    ensures reward == Reward(config, draw, UserStreak(store.records, userId, today))
  {
    reward := config.minReward;
    if config.maxReward > 0 && config.maxReward > config.minReward {
      reward := config.minReward + draw;
    }
    if config.continuousEnabled && config.continuousReward > 0 && config.continuousDays > 0 {
      var continuousDays := store.GetUserContinuousCheckInDays(userId, today);
      if continuousDays > 0 {
        var bonusTimes := continuousDays / config.continuousDays;
        if bonusTimes > 0 {
          reward := reward + bonusTimes * config.continuousReward;
        }
      }
    }
  }

  /**
   * Once today's record is in, a user with no records dated after today has
   * a streak of at least one day.
   */
  lemma StreakAfterCheckIn(records: seq<CheckIn>, c: CheckIns.CheckIn, today: int)
    requires c.checkDate == today
    requires forall x <- records :: x.userId == c.userId ==> x.checkDate <= today
    ensures UserStreak(records + [c], c.userId, today) >= 1
  {
    var all := records + [c];
    var w := StreakWindow(all, c.userId, today);
    assert c in all;
    assert c in w;
    var d := Dates(w);
    var k :| 0 <= k < |w| && w[k] == c;
    if k > 0 {
      assert DateDesc(w[0]) <= DateDesc(w[k]);
    }
    assert w[0] in w;
    assert d[0] == today;
  }
}
