/**
 * The rules behind the admin table of redemption codes in grouped mode
 * (web/src/components/table/redemptions/RedemptionsGroupedColumnDefs.jsx):
 * when a code shows as expired, which status label and type label it gets,
 * whether the gift-code details show, and which actions its menu offers.
 * The browser clock is a parameter, in milliseconds.
 */
module RedemptionColumns {
  import opened Wrappers
  import opened Redemptions

  // The front end's status and type codes (REDEMPTION_STATUS,
  // REDEMPTION_TYPE); UNUSED is the back end's enabled status.
  const Unused: int := StatusEnabled
  const Disabled: int := StatusDisabled
  const Used: int := StatusUsed
  const Normal: int := TypeNormal
  const Gift: int := TypeGift

  /** `Math.floor(nowMs / 1000)`: Dafny's division by a positive divisor already floors. */
  function Seconds(nowMs: int): int
  {
    nowMs / 1000
  }

  /** `isExpired`: an unused code with an expiry time that lies before the current second. */
  predicate IsExpired(r: Redemption, nowMs: int)
  {
    r.status == Unused && r.expiredTime != 0 && r.expiredTime < Seconds(nowMs)
  }

  /**
   * In milliseconds: a code shows as expired once a whole second has passed
   * after its expiry second.
   */
  lemma IsExpiredInMilliseconds(r: Redemption, nowMs: int)
    ensures IsExpired(r, nowMs)
        <==> r.status == Unused && r.expiredTime != 0 && (r.expiredTime + 1) * 1000 <= nowMs
  {
    var q := nowMs / 1000;
    var rem := nowMs % 1000;
    assert nowMs == q * 1000 + rem && 0 <= rem < 1000;
    if r.expiredTime < q {
      assert (r.expiredTime + 1) * 1000 <= q * 1000;
    }
    if (r.expiredTime + 1) * 1000 <= nowMs {
      assert (r.expiredTime + 1) * 1000 < (q + 1) * 1000;
    }
  }

  /**
   * The table's expiry agrees with the back end's for unused codes, and
   * every code the table shows as expired is one the back end's clean-up
   * removes.
   */
  lemma IsExpiredAgreesWithStore(r: Redemption, nowMs: int)
    ensures IsExpired(r, nowMs) <==> r.status == StatusEnabled && Expired(r, Seconds(nowMs))
    ensures IsExpired(r, nowMs) ==> Invalid(r, Seconds(nowMs))
  {
  }

  datatype Label = Label(color: string, text: string)

  /** REDEMPTION_STATUS_MAP. */
  function StatusConfig(status: int): Option<Label>
  {
    if status == Unused then Some(Label("green", "未使用"))
    else if status == Disabled then Some(Label("red", "已禁用"))
    else if status == Used then Some(Label("grey", "已使用"))
    else None
  }

  /** REDEMPTION_TYPE_MAP. */
  function TypeConfig(codeType: int): Option<Label>
  {
    if codeType == Normal then Some(Label("blue", "兑换码"))
    else if codeType == Gift then Some(Label("purple", "礼品码"))
    else None
  }

  /** `renderStatus`: expired first, then the mapped status, else unknown. */
  function StatusLabel(r: Redemption, nowMs: int): Label
  {
    if IsExpired(r, nowMs) then Label("orange", "已过期")
    else match StatusConfig(r.status)
      case Some(config) => config
      case None => Label("black", "未知状态")
  }

  /** `renderType`: the mapped type, else unknown. */
  function TypeLabel(codeType: int): Label
  {
    match TypeConfig(codeType)
    case Some(config) => config
    case None => Label("black", "未知类型")
  }

  /** The status label for each kind of code. */
  lemma StatusLabelCases(r: Redemption, nowMs: int)
    ensures StatusLabel(r, nowMs).text == "已过期" <==> IsExpired(r, nowMs)
    ensures r.status == Unused && !IsExpired(r, nowMs) ==> StatusLabel(r, nowMs).text == "未使用"
    ensures r.status == Disabled ==> StatusLabel(r, nowMs).text == "已禁用"
    ensures r.status == Used ==> StatusLabel(r, nowMs).text == "已使用"
    ensures r.status !in {Unused, Disabled, Used} ==> StatusLabel(r, nowMs).text == "未知状态"
  {
  }

  /** Normal and gift codes get their own labels; any other type shows as unknown. */
  lemma TypeLabelCases(codeType: int)
    ensures codeType == Normal ==> TypeLabel(codeType).text == "兑换码"
    ensures codeType == Gift ==> TypeLabel(codeType).text == "礼品码"
    ensures TypeLabel(codeType).text == "未知类型" <==> codeType != Normal && codeType != Gift
  {
  }

  /** The gift-code details: allowed users, uses per user, uses so far. */
  datatype GiftInfo = GiftInfo(maxUses: int, maxUsesPerUser: int, usedCount: int)

  /** `renderGiftInfo`: details only for gift codes. */
  function GiftInfoOf(r: Redemption): Option<GiftInfo>
  {
    if r.codeType == Gift then Some(GiftInfo(r.maxUses, r.maxUsesPerUser, r.usedCount)) else None
  }

  /** Gift details show exactly for gift codes, and show the code's own counters. */
  lemma GiftInfoOnlyForGifts(r: Redemption)
    ensures GiftInfoOf(r).Some? <==> r.codeType == Gift
    ensures GiftInfoOf(r).Some? ==>
      && GiftInfoOf(r).value.maxUses == r.maxUses
      && GiftInfoOf(r).value.maxUsesPerUser == r.maxUsesPerUser
      && GiftInfoOf(r).value.usedCount == r.usedCount
  {
  }

  datatype Action = Delete | Disable | Enable

  datatype MenuItem = MenuItem(action: Action, disabled: bool)

  /** The "more" menu: delete, then disable for a live unused code or enable for any other unexpired one. */
  function MoreMenu(r: Redemption, nowMs: int): seq<MenuItem>
  {
    [MenuItem(Delete, false)]
      + (if r.status == Unused && !IsExpired(r, nowMs) then [MenuItem(Disable, false)]
         else if !IsExpired(r, nowMs) then [MenuItem(Enable, r.status == Used)]
         else [])
  }

  predicate Offers(menu: seq<MenuItem>, a: Action)
  {
    exists i :: 0 <= i < |menu| && menu[i].action == a
  }

  /** Delete is always the first entry, and the menu has one or two entries. */
  lemma DeleteAlwaysOffered(r: Redemption, nowMs: int)
    ensures 1 <= |MoreMenu(r, nowMs)| <= 2
    ensures MoreMenu(r, nowMs)[0] == MenuItem(Delete, false)
  {
  }

  /** Disable is offered exactly for an unused code that has not expired. */
  lemma DisableOfferedIff(r: Redemption, nowMs: int)
    ensures Offers(MoreMenu(r, nowMs), Disable) <==> r.status == Unused && !IsExpired(r, nowMs)
  {
    var menu := MoreMenu(r, nowMs);
    if r.status == Unused && !IsExpired(r, nowMs) {
      assert menu[1].action == Disable;
    }
  }

  /**
   * Enable is offered exactly for a code that is not unused and not expired,
   * which is every code that is not unused; it is greyed out for a used code.
   */
  lemma EnableOfferedIff(r: Redemption, nowMs: int)
    ensures Offers(MoreMenu(r, nowMs), Enable) <==> r.status != Unused && !IsExpired(r, nowMs)
    ensures Offers(MoreMenu(r, nowMs), Enable) <==> r.status != Unused
    ensures forall item <- MoreMenu(r, nowMs) :: item.action == Enable ==> (item.disabled <==> r.status == Used)
  {
    var menu := MoreMenu(r, nowMs);
    if r.status != Unused {
      assert menu[1].action == Enable;
    }
  }

  /** An expired code is offered neither disable nor enable, and no code is offered both. */
  lemma NeverBothToggles(r: Redemption, nowMs: int)
    ensures IsExpired(r, nowMs) ==> !Offers(MoreMenu(r, nowMs), Disable) && !Offers(MoreMenu(r, nowMs), Enable)
    ensures !(Offers(MoreMenu(r, nowMs), Disable) && Offers(MoreMenu(r, nowMs), Enable))
  {
    DisableOfferedIff(r, nowMs);
    EnableOfferedIff(r, nowMs);
  }

  /** The edit button is greyed out unless the code is unused. */
  function EditDisabled(r: Redemption): bool
  {
    r.status != Unused
  }

  /**
   * Edit is enabled exactly when disable or expiry could apply: an unused
   * code is editable even after it expired.
   */
  lemma EditEnabledForUnused(r: Redemption, nowMs: int)
    ensures !EditDisabled(r) <==> Offers(MoreMenu(r, nowMs), Disable) || IsExpired(r, nowMs)
  {
    DisableOfferedIff(r, nowMs);
  }
}
