/**
 * Redemption and gift codes (model/redemption.go).
 *
 * A code is a row of the redemptions table. `Redeem` locks the row, checks it
 * against its type, status, expiry and per-user cap, then in one transaction
 * credits the redeemer's quota and saves the row's new counters and status.
 * After the commit one top-up log line is written; those lines are what later
 * per-user counts of a gift code read.
 */
module Redemptions {
  import opened Wrappers
  import opened Seqs
  import Accounts

  // Status codes (common.RedemptionCodeStatus*): enabled, disabled, used.
  const StatusEnabled: int := 1
  const StatusDisabled: int := 2
  const StatusUsed: int := 3

  // Code types (common.RedemptionType*): single-use code, multi-user gift code.
  const TypeNormal: int := 1
  const TypeGift: int := 2

  /** A row of the redemptions table. Times are Unix seconds. */
  datatype Redemption = Redemption(
    id: nat,
    userId: int,
    key: string,
    status: int,
    name: string,
    quota: int,
    createdTime: int,
    redeemedTime: int,
    usedUserId: int,
    expiredTime: int,        // 0 means the code never expires
    codeType: int,
    maxUses: int,            // gift codes: cap on distinct users, 0 = no cap
    maxUsesPerUser: int,     // gift codes: cap per user, 0 = no cap
    usedCount: int,          // gift codes: successful redemptions
    usedUserCount: int)      // gift codes: distinct users who redeemed

  /**
   * The top-up log line written after a successful redemption,
   * "通过<kind>充值 <quota>，<kind>ID <id>", where kind is 兑换码 for a normal
   * code and 礼品码 for any other type.
   */
  datatype Topup = Topup(userId: int, codeType: int, codeId: nat, quota: int)

  datatype RedeemError =
    | MissingKey           // 未提供兑换码
    | InvalidUserId        // 无效的 user id
    | InvalidCode          // 无效的兑换码: no row with this key
    | NormalCodeUsed       // 该兑换码已被使用
    | GiftCodeDisabled     // 该礼品码已被禁用
    | GiftUsersExhausted   // 该礼品码已达到最大使用人数
    | UnknownType          // 未知的兑换码类型
    | CodeExpired          // 该兑换码已过期
    | PerUserLimitReached  // 您已达到此礼品码的最大使用次数

  datatype LookupError = EmptyId | EmptyName | NotFound

  /** Expiry is derived, never stored: a non-zero expiry time that has passed. */
  predicate Expired(c: Redemption, now: int)
  {
    c.expiredTime != 0 && c.expiredTime < now
  }

  // ---------------------------------------------------------------------
  // Per-user use count of a gift code, read from the top-up log
  // ---------------------------------------------------------------------

  /** A log line that records a use of gift code `codeId` by `userId`. */
  predicate UseOf(t: Topup, userId: int, codeId: nat)
  {
    t.userId == userId && t.codeType == TypeGift && t.codeId == codeId
  }

  /** How many times `userId` has redeemed gift code `codeId`, by the log. */
  function GiftUses(log: seq<Topup>, userId: int, codeId: nat): (n: nat)
    ensures n <= |log|
  {
    if log == [] then 0
    else (if UseOf(log[0], userId, codeId) then 1 else 0) + GiftUses(log[1..], userId, codeId)
  }

  /** Appending a log line raises exactly the count it records a use for. */
  lemma {:induction false} GiftUsesAppend(log: seq<Topup>, t: Topup, userId: int, codeId: nat)
    ensures GiftUses(log + [t], userId, codeId)
         == GiftUses(log, userId, codeId) + (if UseOf(t, userId, codeId) then 1 else 0)
  {
    if log == [] {
      assert [t][1..] == [];
    } else {
      assert (log + [t])[1..] == log[1..] + [t];
      GiftUsesAppend(log[1..], t, userId, codeId);
    }
  }

  /** The decimal digits of `n`, as `%d` prints them. */
  function Decimal(n: nat): (s: string)
    ensures |s| >= 1
  {
    if n < 10 then ["0123456789"[n]] else Decimal(n / 10) + ["0123456789"[n % 10]]
  }

  /**
   * The count as the source writes it: `content LIKE '%礼品码ID <id>%'` also
   * matches the line of any gift code whose id starts with the digits of
   * `codeId` (the line ends with "礼品码ID <its id>").
   */
  function LikeUsesAsWritten(log: seq<Topup>, userId: int, codeId: nat): nat
  {
    if log == [] then 0
    else
      var t := log[0];
      (if t.userId == userId && t.codeType != TypeNormal && Decimal(codeId) <= Decimal(t.codeId) then 1 else 0)
      + LikeUsesAsWritten(log[1..], userId, codeId)
  }

  /**
   * A user who redeemed gift code 12 once is counted as having used gift code
   * 1 as written, and a cap of one use per user then refuses code 1; the exact
   * count does not.
   */
  lemma LikeUsesCountsOtherCodes(c: Redemption)
    requires c.id == 1 && c.codeType == TypeGift && c.maxUsesPerUser == 1
    ensures var log := [Topup(7, TypeGift, 12, 100)];
      && LikeUsesAsWritten(log, 7, 1) == 1
      && GiftUses(log, 7, 1) == 0
      && PerUserGate(c, LikeUsesAsWritten(log, 7, 1)) == Some(PerUserLimitReached)
      && PerUserGate(c, GiftUses(log, 7, 1)) == None
  {
    assert Decimal(1) == "1";
    assert Decimal(12) == Decimal(1) + "2" == "12";
  }

  // ---------------------------------------------------------------------
  // The checks of Redeem, in source order
  // ---------------------------------------------------------------------

  /** The status precheck by code type. */
  function TypeGate(c: Redemption): Option<RedeemError>
  {
    if c.codeType == TypeNormal then
      if c.status != StatusEnabled then Some(NormalCodeUsed) else None
    else if c.codeType == TypeGift then
      if c.status == StatusDisabled then Some(GiftCodeDisabled)
      else if c.maxUses > 0 && c.usedUserCount >= c.maxUses then Some(GiftUsersExhausted)
      else None
    else Some(UnknownType)
  }

  /** The per-user cap of a gift code, given the user's earlier uses. */
  function PerUserGate(c: Redemption, uses: nat): Option<RedeemError>
  {
    if c.maxUsesPerUser > 0 && uses >= c.maxUsesPerUser then Some(PerUserLimitReached) else None
  }

  /** The second "max users reached" test, applied to first-time users only. */
  predicate FirstTimeRecheck(c: Redemption, uses: nat)
  {
    c.maxUses > 0 && c.usedUserCount >= c.maxUses && uses == 0
  }

  /** Every check of `Redeem` after the row is found; None admits the redemption. */
  function Admit(c: Redemption, uses: nat, now: int): Option<RedeemError>
  {
    if TypeGate(c).Some? then TypeGate(c)
    else if Expired(c, now) then Some(CodeExpired)
    else if c.codeType == TypeGift && PerUserGate(c, uses).Some? then PerUserGate(c, uses)
    else if c.codeType == TypeGift && FirstTimeRecheck(c, uses) then Some(GiftUsersExhausted)
    else None
  }

  /** The re-check for first-time users can never fire: the precheck already refused. */
  lemma FirstTimeRecheckUnreachable(c: Redemption, uses: nat)
    requires c.codeType == TypeGift && TypeGate(c) == None
    ensures !FirstTimeRecheck(c, uses)
  {
  }

  /** The row as saved after a successful redemption by `userId`. */
  function RedeemedRow(c: Redemption, userId: int, uses: nat, now: int): Redemption
  {
    if c.codeType == TypeNormal then
      c.(redeemedTime := now, status := StatusUsed, usedUserId := userId)
    else
      var users := if uses == 0 then c.usedUserCount + 1 else c.usedUserCount;
      c.(usedCount := c.usedCount + 1, redeemedTime := now, usedUserCount := users,
         status := if c.maxUses > 0 && users >= c.maxUses then StatusUsed else StatusEnabled)
  }

  // ---------------------------------------------------------------------
  // Redeem as a step on the store's state
  // ---------------------------------------------------------------------

  /** What `Redeem` reads and writes: the codes by key, the top-up log, the users' quota. */
  datatype Ledger = Ledger(codes: map<string, Redemption>, topups: seq<Topup>, quota: map<int, int>)

  /**
   * One call of `Redeem(key, userId)` at time `now`: the credited quota or the
   * error, and the state after the transaction and the log write.
   */
  function RedeemStep(l: Ledger, key: string, userId: int, now: int): (Result<int, RedeemError>, Ledger)
  {
    if key == "" then (Failure(MissingKey), l)
    else if userId == 0 then (Failure(InvalidUserId), l)
    else if key !in l.codes then (Failure(InvalidCode), l)
    else
      var c := l.codes[key];
      var uses := GiftUses(l.topups, userId, c.id);
      var gate := Admit(c, uses, now);
      if gate.Some? then (Failure(gate.value), l)
      else
        (Success(c.quota),
         Ledger(l.codes[key := RedeemedRow(c, userId, uses, now)],
                l.topups + [Topup(userId, c.codeType, c.id, c.quota)],
                Accounts.Credit(l.quota, userId, c.quota)))
  }

  /** A missing key or a zero user id is refused before any lookup, and nothing changes. */
  lemma GuardsComeFirst(l: Ledger, key: string, userId: int, now: int)
    requires key == "" || userId == 0
    ensures RedeemStep(l, key, userId, now).1 == l
    ensures RedeemStep(l, key, userId, now).0 == Failure(if key == "" then MissingKey else InvalidUserId)
  {
  }

  /** Any failure leaves every row, the log and every quota as they were (rollback). */
  lemma FailureChangesNothing(l: Ledger, key: string, userId: int, now: int)
    requires RedeemStep(l, key, userId, now).0.Failure?
    ensures RedeemStep(l, key, userId, now).1 == l
  {
  }

  /** A code whose type is neither normal nor gift is refused, whatever its state. */
  lemma UnknownTypeRefused(l: Ledger, key: string, userId: int, now: int)
    requires key != "" && userId != 0 && key in l.codes
    requires l.codes[key].codeType != TypeNormal && l.codes[key].codeType != TypeGift
    ensures RedeemStep(l, key, userId, now) == (Failure(UnknownType), l)
  {
  }

  /** A successful redemption credits exactly the code's quota and writes exactly one log line. */
  lemma SuccessEffects(l: Ledger, key: string, userId: int, now: int)
    requires RedeemStep(l, key, userId, now).0.Success?
    ensures key in l.codes
    ensures var c := l.codes[key]; var (r, l') := RedeemStep(l, key, userId, now);
      && r == Success(c.quota)
      && l'.quota == Accounts.Credit(l.quota, userId, c.quota)
      && l'.topups == l.topups + [Topup(userId, c.codeType, c.id, c.quota)]
      && l'.codes.Keys == l.codes.Keys
      && (forall k <- l.codes :: k != key ==> l'.codes[k] == l.codes[k])
  {
  }

  /**
   * A normal code redeems exactly while enabled and unexpired; it then
   * becomes used, by this user, at this time.
   */
  lemma NormalCodeRedeem(l: Ledger, key: string, userId: int, now: int)
    requires key != "" && userId != 0 && key in l.codes && l.codes[key].codeType == TypeNormal
    ensures var c := l.codes[key]; var (r, l') := RedeemStep(l, key, userId, now);
      && (r.Success? <==> c.status == StatusEnabled && !Expired(c, now))
      && (c.status != StatusEnabled ==> r == Failure(NormalCodeUsed))
      && (r.Success? ==> l'.codes[key] == c.(status := StatusUsed, usedUserId := userId, redeemedTime := now))
  {
  }

  /**
   * A gift code is refused when disabled, or when a user cap is set and
   * reached, even for users who used it before; otherwise when expired, or
   * when a per-user cap is set and reached by this user's earlier uses.
   */
  lemma GiftCodeRefusals(l: Ledger, key: string, userId: int, now: int)
    requires key != "" && userId != 0 && key in l.codes && l.codes[key].codeType == TypeGift
    ensures var c := l.codes[key]; var uses := GiftUses(l.topups, userId, c.id);
      var r := RedeemStep(l, key, userId, now).0;
      && (c.status == StatusDisabled ==> r == Failure(GiftCodeDisabled))
      && (c.status != StatusDisabled && c.maxUses > 0 && c.usedUserCount >= c.maxUses ==> r == Failure(GiftUsersExhausted))
      && (r.Success? <==>
            && c.status != StatusDisabled
            && (c.maxUses <= 0 || c.usedUserCount < c.maxUses)
            && !Expired(c, now)
            && (c.maxUsesPerUser <= 0 || uses < c.maxUsesPerUser))
  {
  }

  /** A code with a passed non-zero expiry is refused; expiry 0 never refuses. */
  lemma ExpiredRefused(l: Ledger, key: string, userId: int, now: int)
    requires key != "" && userId != 0 && key in l.codes && TypeGate(l.codes[key]) == None
    ensures Expired(l.codes[key], now) ==> RedeemStep(l, key, userId, now).0 == Failure(CodeExpired)
    ensures l.codes[key].expiredTime == 0 ==> RedeemStep(l, key, userId, now).0 != Failure(CodeExpired)
  {
  }

  /**
   * A successful gift redemption adds one use, adds one user exactly when this
   * user had no earlier use, marks the code used exactly when a user cap is set
   * and reached, and never takes the user count past the cap.
   */
  lemma GiftSuccessCounters(l: Ledger, key: string, userId: int, now: int)
    requires key in l.codes && l.codes[key].codeType == TypeGift
    requires RedeemStep(l, key, userId, now).0.Success?
    ensures var c := l.codes[key]; var c' := RedeemStep(l, key, userId, now).1.codes[key];
      var first := GiftUses(l.topups, userId, c.id) == 0;
      && c'.usedCount == c.usedCount + 1
      && c'.usedUserCount == (if first then c.usedUserCount + 1 else c.usedUserCount)
      && (c'.status == StatusUsed <==> c.maxUses > 0 && c'.usedUserCount >= c.maxUses)
      && (c'.status != StatusUsed ==> c'.status == StatusEnabled)
      && (c.maxUses > 0 ==> c'.usedUserCount <= c.maxUses)
      && c'.redeemedTime == now
  {
  }

  /** The log line a gift redemption writes is the one the next per-user count reads. */
  lemma GiftSuccessIsCounted(l: Ledger, key: string, userId: int, now: int)
    requires key in l.codes && l.codes[key].codeType == TypeGift
    requires RedeemStep(l, key, userId, now).0.Success?
    ensures var id := l.codes[key].id; var l' := RedeemStep(l, key, userId, now).1;
      && l'.codes[key].id == id
      && GiftUses(l'.topups, userId, id) == GiftUses(l.topups, userId, id) + 1
      && (forall u :: u != userId ==> GiftUses(l'.topups, u, id) == GiftUses(l.topups, u, id))
  {
    var c := l.codes[key];
    var t := Topup(userId, c.codeType, c.id, c.quota);
    GiftUsesAppend(l.topups, t, userId, c.id);
    forall u | u != userId
      ensures GiftUses(l.topups + [t], u, c.id) == GiftUses(l.topups, u, c.id)
    {
      GiftUsesAppend(l.topups, t, u, c.id);
    }
  }

  /**
   * With one use per user, a user's second redemption of a gift code is
   * refused, by the per-user cap unless the user cap refuses first.
   */
  lemma OneUsePerUser(l: Ledger, key: string, userId: int, now: int)
    requires key in l.codes && l.codes[key].codeType == TypeGift && l.codes[key].maxUsesPerUser == 1
    requires RedeemStep(l, key, userId, now).0.Success?
    ensures var l1 := RedeemStep(l, key, userId, now).1;
      var r2 := RedeemStep(l1, key, userId, now).0;
      && r2.Failure?
      && (TypeGate(l1.codes[key]) == None ==> r2 == Failure(PerUserLimitReached))
  {
    GiftSuccessIsCounted(l, key, userId, now);
  }

  /** Redeems `key` for each user in turn; the number of successes and the final state. */
  function RedeemAll(l: Ledger, key: string, users: seq<int>, now: int): (nat, Ledger)
    decreases |users|
  {
    if users == [] then (0, l)
    else
      var (r, l1) := RedeemStep(l, key, users[0], now);
      var (n, l2) := RedeemAll(l1, key, users[1..], now);
      (n + (if r.Success? then 1 else 0), l2)
  }

  /** The state of a gift code under which distinct first-time users redeem it. */
  ghost predicate OpenGift(l: Ledger, key: string, now: int)
  {
    && key != "" && key in l.codes
    && var c := l.codes[key];
    && c.codeType == TypeGift && c.status != StatusDisabled && !Expired(c, now)
    && c.maxUses > 0 && 0 <= c.usedUserCount <= c.maxUses
  }

  /**
   * Distinct users with no earlier use redeem an open gift code one after the
   * other: exactly as many succeed as the user cap leaves room for, and the
   * user count ends there.
   */
  lemma {:induction false} GiftExhaustion(l: Ledger, key: string, users: seq<int>, now: int)
    requires OpenGift(l, key, now)
    requires NoDup(users) && 0 !in users
    requires forall u <- users :: GiftUses(l.topups, u, l.codes[key].id) == 0
    ensures var c := l.codes[key]; var (n, l') := RedeemAll(l, key, users, now);
      && n == Min(|users|, c.maxUses - c.usedUserCount)
      && key in l'.codes
      && l'.codes[key].usedUserCount == c.usedUserCount + n
    decreases |users|
  {
    if users != [] {
      var c := l.codes[key];
      var u := users[0];
      var (r, l1) := RedeemStep(l, key, u, now);
      assert NoDup(users[1..]);
      if c.usedUserCount < c.maxUses {
        assert r.Success?;
        GiftSuccessIsCounted(l, key, u, now);
        assert l1.codes[key].usedUserCount == c.usedUserCount + 1;
        forall v <- users[1..] ensures GiftUses(l1.topups, v, c.id) == 0 {
          assert v != u;
        }
        GiftExhaustion(l1, key, users[1..], now);
      } else {
        assert l1 == l;
        GiftExhaustion(l1, key, users[1..], now);
      }
    }
  }

  // ---------------------------------------------------------------------
  // Clean-up filter and paging
  // ---------------------------------------------------------------------

  /** The rows `DeleteInvalidRedemptions` removes: used, disabled, or enabled and expired. */
  predicate Invalid(c: Redemption, now: int)
  {
    c.status == StatusUsed || c.status == StatusDisabled || (c.status == StatusEnabled && Expired(c, now))
  }

  /**
   * A row with a known status survives the clean-up exactly when it is
   * enabled and unexpired.
   */
  lemma SurvivorsAreRedeemable(c: Redemption, now: int)
    requires c.status in {StatusEnabled, StatusDisabled, StatusUsed}
    ensures !Invalid(c, now) <==> c.status == StatusEnabled && !Expired(c, now)
  {
  }

  /**
   * The page of names `names[start:end]` with `start` and `end` cut down to
   * the number of names.
   */
  function PageWindow(startIdx: nat, num: nat, count: nat): (w: (nat, nat))
    ensures w.0 <= w.1 <= count
    ensures w.0 == Min(startIdx, count) && w.1 == Min(startIdx + num, count)
  {
    var start := if startIdx > count then count else startIdx;
    var end := if startIdx + num > count then count else startIdx + num;
    (start, end)
  }

  /** One group of the grouped listing: a name and its codes, newest id first. */
  datatype NameGroup = NameGroup(name: string, redemptions: seq<Redemption>, count: nat)

  function IdDesc(c: Redemption): int { -(c.id as int) }

  // ---------------------------------------------------------------------
  // The store
  // ---------------------------------------------------------------------

  class RedemptionStore {
    /** Live rows by their unique key. */
    var codes: map<string, Redemption>
    /** Top-up log lines written by redemptions, oldest first. */
    var topups: seq<Topup>

    /** Rows are filed under their own key and ids are unique. */
    ghost predicate Valid()
      reads this
    {
      && (forall k <- codes :: codes[k].key == k)
      && (forall k1 <- codes, k2 <- codes :: k1 != k2 ==> codes[k1].id != codes[k2].id)
    }

    constructor (codes: map<string, Redemption>)
      requires forall k <- codes :: codes[k].key == k
      requires forall k1 <- codes, k2 <- codes :: k1 != k2 ==> codes[k1].id != codes[k2].id
      ensures Valid() && this.codes == codes && topups == []
    {
      this.codes := codes;
      topups := [];
    }

    /**
     * Redeems `key` for `userId` at time `now`: the guards, then the locked
     * row's checks, then the quota credit, the row update and the log line.
     */
    method Redeem(key: string, userId: int, now: int, users: Accounts.Users) returns (r: Result<int, RedeemError>)
      requires Valid()
      modifies this, users
      ensures Valid()
      ensures (r, Ledger(codes, topups, users.quota))
           == RedeemStep(Ledger(old(codes), old(topups), old(users.quota)), key, userId, now)
    {
      if key == "" {
        return Failure(MissingKey);
      }
      if userId == 0 {
        return Failure(InvalidUserId);
      }
      if key !in codes {
        return Failure(InvalidCode);
      }
      var redemption := codes[key];
      if redemption.codeType == TypeNormal {
        if redemption.status != StatusEnabled {
          return Failure(NormalCodeUsed);
        }
      } else if redemption.codeType == TypeGift {
        if redemption.status == StatusDisabled {
          return Failure(GiftCodeDisabled);
        }
        if redemption.maxUses > 0 && redemption.usedUserCount >= redemption.maxUses {
          return Failure(GiftUsersExhausted);
        }
      } else {
        return Failure(UnknownType);
      }
      if redemption.expiredTime != 0 && redemption.expiredTime < now {
        return Failure(CodeExpired);
      }

      if redemption.codeType == TypeNormal {
        users.quota := Accounts.Credit(users.quota, userId, redemption.quota);
        redemption := redemption.(redeemedTime := now);
        redemption := redemption.(status := StatusUsed);
        redemption := redemption.(usedUserId := userId);
      } else {
        if redemption.maxUsesPerUser > 0 {
          var userUsedCount := GiftUses(topups, userId, redemption.id);
          if userUsedCount >= redemption.maxUsesPerUser {
            return Failure(PerUserLimitReached);
          }
        }
        var userUsageCount := GiftUses(topups, userId, redemption.id);
        var firstTimeUser := userUsageCount == 0;
        // The second "max users" test cannot fire: the precheck above refused
        // every user once the cap was reached.
        assert !(redemption.maxUses > 0 && redemption.usedUserCount >= redemption.maxUses && firstTimeUser);

        users.quota := Accounts.Credit(users.quota, userId, redemption.quota);
        redemption := redemption.(usedCount := redemption.usedCount + 1);
        redemption := redemption.(redeemedTime := now);
        if firstTimeUser {
          redemption := redemption.(usedUserCount := redemption.usedUserCount + 1);
        }
        if redemption.maxUses > 0 && redemption.usedUserCount >= redemption.maxUses {
          redemption := redemption.(status := StatusUsed);
        } else {
          redemption := redemption.(status := StatusEnabled);
        }
      }
      codes := codes[key := redemption];
      topups := topups + [Topup(userId, redemption.codeType, redemption.id, redemption.quota)];
      r := Success(redemption.quota);
    }

    /** Soft-deletes every invalid row; returns how many rows went. */
    method DeleteInvalidRedemptions(now: int) returns (deleted: int)
      requires Valid()
      modifies this`codes
      ensures Valid()
      ensures codes == map k | k in old(codes) && !Invalid(old(codes)[k], now) :: old(codes)[k]
      ensures deleted == |old(codes)| - |codes| && deleted >= 0
    {
      var before := codes;
      codes := map k | k in before && !Invalid(before[k], now) :: before[k];
      assert codes.Keys <= before.Keys;
      SubsetCardinality(codes.Keys, before.Keys);
      deleted := |before| - |codes|;
    }

    /** Looks a code up by id; id 0 is refused before the lookup. */
    method GetRedemptionById(id: int) returns (r: Result<Redemption, LookupError>)
      requires Valid()
      ensures id == 0 ==> r == Failure(EmptyId)
      ensures id != 0 ==> (r.Success? <==> exists k <- codes :: codes[k].id == id)
      ensures r.Success? ==> r.value.id == id && r.value.key in codes && codes[r.value.key] == r.value
      ensures r.Failure? && id != 0 ==> r.error == NotFound
    {
      if id == 0 {
        return Failure(EmptyId);
      }
      if k :| k in codes && codes[k].id == id {
        r := Success(codes[k]);
      } else {
        r := Failure(NotFound);
      }
    }

    /** Deletes the code with this id; id 0 and an unknown id are refused. */
    method DeleteRedemptionById(id: int) returns (r: Outcome<LookupError>)
      requires Valid()
      modifies this`codes
      ensures Valid()
      ensures id == 0 ==> r == Fail(EmptyId) && codes == old(codes)
      ensures id != 0 && (forall k <- old(codes) :: old(codes)[k].id != id) ==> r == Fail(NotFound) && codes == old(codes)
      ensures r.Pass? ==> exists k <- old(codes) :: old(codes)[k].id == id && codes == old(codes) - {k}
      ensures id != 0 && (exists k <- old(codes) :: old(codes)[k].id == id) ==> r.Pass?
    {
      if id == 0 {
        return Fail(EmptyId);
      }
      if k :| k in codes && codes[k].id == id {
        codes := codes - {k};
        r := Pass;
      } else {
        r := Fail(NotFound);
      }
    }

    /** Deletes every code with this name; the empty name is refused. */
    method DeleteRedemptionsByName(name: string) returns (r: Result<int, LookupError>)
      requires Valid()
      modifies this`codes
      ensures Valid()
      ensures name == "" ==> r == Failure(EmptyName) && codes == old(codes)
      ensures name != "" ==> codes == map k | k in old(codes) && old(codes)[k].name != name :: old(codes)[k]
      ensures name != "" ==> r == Success(|old(codes)| - |codes|)
    {
      if name == "" {
        return Failure(EmptyName);
      }
      var before := codes;
      codes := map k | k in before && before[k].name != name :: before[k];
      r := Success(|before| - |codes|);
    }

    /** The non-empty names of the stored codes, as `SELECT DISTINCT name` returns them. */
    ghost function NamesInUse(): set<string>
      reads this
    {
      set k | k in codes && codes[k].name != "" :: codes[k].name
    }

    /** `g` is the group of `name`: every row with that name, newest id first. */
    ghost predicate GroupOf(g: NameGroup, name: string)
      reads this
    {
      && g.name == name
      && g.count == |g.redemptions|
      && NoDup(g.redemptions)
      && SortedBy(g.redemptions, IdDesc)
      && (forall c <- g.redemptions :: c in codes.Values && c.name == name)
      && (forall k <- codes :: codes[k].name == name ==> codes[k] in g.redemptions)
    }

    /** A group's count is the number of stored rows with that name. */
    lemma GroupCountIsRows(g: NameGroup, name: string)
      requires Valid() && GroupOf(g, name)
      ensures g.count == |set k | k in codes && codes[k].name == name|
    {
      var rows := Elems(g.redemptions);
      NoDupCardinality(g.redemptions);
      var keys := set c | c in rows :: c.key;
      forall c <- rows, d <- rows | c.key == d.key ensures c == d {
        var kc :| kc in codes && codes[kc] == c;
        var kd :| kd in codes && codes[kd] == d;
      }
      KeysOfRows(rows);
      assert keys == set k | k in codes && codes[k].name == name by {
        forall k | k in codes && codes[k].name == name ensures k in keys {
          assert codes[k] in rows;
        }
        forall c <- rows ensures c.key in codes && codes[c.key].name == name {
          var kc :| kc in codes && codes[kc] == c;
        }
      }
    }

    /** The rows of one name, `ORDER BY id DESC`, and their count. */
    method GroupNamed(name: string) returns (g: NameGroup)
      requires Valid()
      ensures GroupOf(g, name)
    {
      var found := RowsNamed(name);
      var redemptions := SortBy(found, IdDesc);
      NoDupPermutation(found, redemptions);
      forall c | c in redemptions ensures c in found {
        assert c in multiset(redemptions);
      }
      forall k | k in codes && codes[k].name == name ensures codes[k] in redemptions {
        assert codes[k] in multiset(found);
      }
      g := NameGroup(name, redemptions, |redemptions|);
    }

    /**
     * One page of the listing grouped by name. `names` is what the distinct
     * name query returns: every non-empty name once, in the database's order.
     */
    method GetRedemptionsGroupedByName(startIdx: nat, num: nat, names: seq<string>)
      returns (groups: seq<NameGroup>, total: nat)
      requires Valid()
      requires NoDup(names)
      requires Elems(names) == NamesInUse()
      ensures total == |NamesInUse()|
      ensures |groups| == PageWindow(startIdx, num, |names|).1 - PageWindow(startIdx, num, |names|).0
      ensures forall i :: 0 <= i < |groups| ==> GroupOf(groups[i], names[PageWindow(startIdx, num, |names|).0 + i])
    {
      NoDupCardinality(names);
      total := |names|;
      var (start, end) := PageWindow(startIdx, num, |names|);
      var pagedNames := names[start..end];
      groups := [];
      for i := 0 to |pagedNames|
        invariant |groups| == i
        invariant forall j :: 0 <= j < i ==> GroupOf(groups[j], names[start + j])
      {
        var g := GroupNamed(pagedNames[i]);
        groups := groups + [g];
      }
    }

    /** `WHERE name = ?`: the rows with this name, in no particular order. */
    method RowsNamed(name: string) returns (found: seq<Redemption>)
      requires Valid()
      ensures NoDup(found)
      ensures forall c <- found :: c in codes.Values && c.name == name
      ensures forall k <- codes :: codes[k].name == name ==> codes[k] in found
    {
      found := [];
      var pending := codes.Keys;
      while pending != {}
        invariant pending <= codes.Keys
        invariant NoDup(found)
        invariant forall c <- found :: c in codes.Values && c.name == name && c.key !in pending
        invariant forall k <- codes :: k !in pending && codes[k].name == name ==> codes[k] in found
        decreases pending
      {
        var k :| k in pending;
        if codes[k].name == name {
          found := found + [codes[k]];
        }
        pending := pending - {k};
      }
    }
  }

  /** Rows told apart by their keys have as many keys as rows. */
  lemma {:induction false} KeysOfRows(rows: set<Redemption>)
    requires forall c <- rows, d <- rows :: c.key == d.key ==> c == d
    ensures |set c | c in rows :: c.key| == |rows|
    decreases rows
  {
    if rows != {} {
      var c :| c in rows;
      var rest := rows - {c};
      KeysOfRows(rest);
      assert (set d | d in rows :: d.key) == (set d | d in rest :: d.key) + {c.key};
      assert c.key !in (set d | d in rest :: d.key);
    }
  }

  lemma SubsetCardinality<T>(a: set<T>, b: set<T>)
    requires a <= b
    ensures |a| <= |b|
  {
    assert b == a + (b - a);
  }
}
