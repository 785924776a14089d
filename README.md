# Redemption codes, daily check-in and user groups — a Dafny model

This project models five pieces of the back end and admin UI of an API
gateway.

1. **Redemption and gift-code engine** (`model/redemption.go`).
   - A *normal* code (type 1) is used once.
   - A *gift* code (type 2) may be redeemed by several users. It has a cap on distinct users (`MaxUses`) and a cap on uses per user (`MaxUsesPerUser`).
   - A code is enabled (1), disabled (2) or used (3). Expiry is derived from `ExpiredTime` and the clock; it is never stored.
   - `Redeem` checks the code, then updates the row's counters and status and credits the user's quota. It then writes one top-up log line, and the per-user count of a gift code is read from those log lines.
   - The clean-up `DeleteInvalidRedemptions`, the id and name guards, and the paged listing grouped by name are modelled too.
2. **Daily check-in** (`model/checkin.go`, `controller/checkin.go`).
   - A check-in inserts a record if the user has none for today, and credits the reward to the user's quota in the same transaction.
   - The streak is the run of consecutive days read from a 30-day window, newest record first.
   - The reward is a base value in [min, max] plus an additive bonus of `(streak / ContinuousDays) * ContinuousReward`.
   - Also modelled: the config validator, the redacted public config, the order of the check-in gates, the monthly history, the admin paging and the leaderboard aggregation.
3. **Group-setting registry** (`setting/default_user_group.go`, `setting/user_usable_group.go`). It holds four package-level tables:
   - the default group per registration method;
   - the default extra groups per method;
   - the groups each user group may pick;
   - the global table of usable groups (name → description).

   Empty or missing values fall back to `"default"`, and empty list entries are dropped. A group named by any configuration is registered in the usable table, and an existing description is never overwritten. Keys of the available-groups table that are not registered are pruned.
4. **The groups a user may pick** (`controller/group.go`).
   - A user is offered the usable groups of their main group, plus their extra groups.
   - The main group itself is added when its usable map is empty, or holds only a described `"default"`.
   - Each group gets a description and a ratio, both with fallbacks.
   - `"auto"` is added when it is registered.
5. **The redemption table's column rules** (`web/src/components/table/redemptions/RedemptionsGroupedColumnDefs.jsx`): when a code shows as expired, its status and type labels, when gift details show, and which actions its menu offers.

Modelling conventions:
- The database is maps and sequences held by classes: `Redemptions.RedemptionStore`, `CheckIns.CheckInStore`, and `Accounts.Users` for the quota column.
- The settings package's state is one class, `GroupSetting.GroupSettings`.
- Dates are integer day numbers. A `YYYY-MM-DD` string orders like its day number.
- The following are parameters: the current time (`now`, in seconds), today's day number, the random draw, the browser clock (in milliseconds), and the order in which Go visits a map's keys when the outcome depends on it.
- A JSON body or option value is an `Option`: `None` stands for a decode failure.

Files:
- `wrappers.dfy`: Option, Result, Outcome.
- `seqs.dfy`: sequence helpers (filter, stable sort by key, no-duplicates).
- `accounts.dfy`: the users' quota table and the credit of a quota.
- `redemption.dfy`: module `Redemptions`.
- `checkin_model.dfy`: module `CheckIns`.
- `checkin_controller.dfy`: module `CheckInController`.
- `group_setting.dfy`: module `GroupSetting`.
- `group_controller.dfy`: module `GroupController`.
- `redemption_columns.dfy`: module `RedemptionColumns`.

## Model

| member | source | states |
|---|---|---|
| Accounts.Credit | model/redemption.go:273 | Crediting adds the amount to that user's quota only. Every other user's quota is unchanged, and no user row is created: an update of a missing user affects no row. |
| Redemptions.GuardsComeFirst | model/redemption.go:190-195 | An empty key or a zero user id is refused before any lookup, with its own error, and the state is unchanged. |
| Redemptions.UnknownTypeRefused | model/redemption.go:225-227 | A code whose type is neither normal nor gift is refused whatever its status, and nothing changes. |
| Redemptions.NormalCodeRedeem | model/redemption.go:209-241 | A normal code redeems exactly when it is enabled and unexpired; a code that is not enabled fails with "already used". On success the row becomes used, records this user as the redeemer and takes the redemption time. |
| Redemptions.GiftCodeRefusals | model/redemption.go:219-256 | A disabled gift code is refused. A code whose user cap is set and reached is refused, even for users who redeemed it before. Otherwise the code redeems exactly when it is unexpired and the user's earlier uses are below the per-user cap; a cap of 0 means no limit. |
| Redemptions.ExpiredRefused | model/redemption.go:228-230 | A code whose non-zero expiry has passed is refused as expired. Expiry 0 never produces that error. |
| Redemptions.FirstTimeRecheckUnreachable | model/redemption.go:268-270 | The second "max users reached" test for first-time users can never fire, because the precheck at 222-224 has already refused every user once the cap is reached. |
| Redemptions.FailureChangesNothing | model/redemption.go:203-303 | Every failed redemption leaves every row, the log and every quota unchanged (the transaction rolls back). |
| Redemptions.SuccessEffects | model/redemption.go:273-312 | A success returns the code's quota and credits exactly that amount to the redeemer. It appends exactly one top-up log line for (user, type, code id, quota) and changes no other code's row. |
| Redemptions.GiftSuccessCounters | model/redemption.go:273-293 | A successful gift redemption adds one use. It adds one user exactly when this user had no earlier use. The code becomes used exactly when a user cap is set and reached, and is enabled otherwise. The user count never passes the cap. |
| Redemptions.GiftUsesAppend | model/redemption.go:246-256 | A new log line raises a per-(user, code) use count by one exactly when it records that user's use of that gift code. |
| Redemptions.GiftSuccessIsCounted | model/redemption.go:305-312 | The log line a gift redemption writes raises this user's count for this code by exactly one, which is the count the next redemption reads. Every other user's count is unchanged. |
| Redemptions.OneUsePerUser | model/redemption.go:246-256 | With one use per user, the same user's second redemption of a gift code fails. The failure is the per-user cap unless the status or user-cap precheck refuses first. |
| Redemptions.GiftExhaustion | model/redemption.go:219-293 | Distinct first-time users redeem an open gift code in turn. Exactly min(users, cap − current user count) of them succeed, and the user count rises by exactly that number. |
| Redemptions.LikeUsesCountsOtherCodes | model/redemption.go:249 | As written, the `LIKE '%礼品码ID 1%'` count counts a use of gift code 12 against code 1. With one use per user this refuses code 1, while the exact count admits it. |
| Redemptions.RedemptionStore.Redeem | model/redemption.go:189-314 | The method steps through the source's checks and updates in order. It ends exactly in the result and state given by the step function that the lemmas above describe, and it keeps keys and ids unique. |
| Redemptions.SurvivorsAreRedeemable | model/redemption.go:352-356 | A row with a known status survives the clean-up exactly when it is enabled and unexpired. |
| Redemptions.RedemptionStore.DeleteInvalidRedemptions | model/redemption.go:352-356 | Removes exactly the used rows, the disabled rows and the enabled rows that have expired. Keeps every other row unchanged and returns the number removed. |
| Redemptions.RedemptionStore.GetRedemptionById | model/redemption.go:179-187 | Id 0 is refused. Otherwise the lookup succeeds exactly when a row has this id, and returns that row. |
| Redemptions.RedemptionStore.DeleteRedemptionById | model/redemption.go:340-350 | Id 0 and an unknown id are refused and change nothing. A non-zero id that some row has always succeeds, and a success removes exactly the row with that id. |
| Redemptions.RedemptionStore.DeleteRedemptionsByName | model/redemption.go:128-135 | The empty name is refused and changes nothing. Otherwise exactly the rows with that name go, and their number is returned. |
| Redemptions.PageWindow | model/redemption.go:91-100 | The page bounds are start and start + num, each cut down to the number of names, so the slice is always in range. |
| Redemptions.RedemptionStore.RowsNamed | model/redemption.go:105 | The result holds exactly the rows with that name, each once. |
| Redemptions.RedemptionStore.GroupNamed | model/redemption.go:104-115 | The group holds exactly that name's rows, each once, newest id first, and its count is the length of that list. |
| Redemptions.RedemptionStore.GroupCountIsRows | model/redemption.go:104-115 | A group's count equals the number of stored rows with that name. |
| Redemptions.RedemptionStore.GetRedemptionsGroupedByName | model/redemption.go:68-125 | The total is the number of distinct non-empty names among the stored rows. The page has one group per name of the clamped window, in the names' order, and each group is that name's complete group. |
| CheckIns.TodayRecord | model/checkin.go:34-42 | Returns a record exactly when the user has one dated today, and that record belongs to the user and is dated today. |
| CheckIns.StreakWindow | model/checkin.go:64-67 | Holds exactly the user's records dated on or after today − 30, newest first. |
| CheckIns.RunFrom | model/checkin.go:89-101 | The run holds the dates that go back one day at a time from the newest date. It stops at the first date that does not match. |
| CheckIns.StreakZero | model/checkin.go:73-87 | No record in the window, or a newest record that is neither today nor yesterday, gives a streak of 0. |
| CheckIns.StreakIsRun | model/checkin.go:83-101 | Otherwise the streak n is at least 1, and the first n dates are the newest date and the n − 1 days before it. The next date, if any, breaks the run. |
| CheckIns.DuplicateEndsRun | model/checkin.go:91-99 | Two records on the same day end the run at the first of them. |
| CheckIns.StreakAtMostWindow | model/checkin.go:64-67 | When every date lies in the window, the streak is at most 31 days. |
| CheckIns.UserStreakAtMostWindow | model/checkin.go:61-104 | Any user's streak is at most 31 days. |
| CheckIns.CheckInStore.GetUserContinuousCheckInDays | model/checkin.go:61-104 | The loop computes exactly the user's streak, which is at most 31. |
| CheckIns.CheckInStore.CreateCheckIn | model/checkin.go:107-153 | If today's record exists, the call fails with "already checked in today" and changes nothing. Otherwise it appends exactly one record (new id, user, today, reward) and credits the reward, both together. |
| CheckIns.CheckedInAfterInsert | model/checkin.go:111-117 | After a check-in the user has a record for today, so a second one the same day is refused. |
| CheckIns.DecemberRollsOver | model/checkin.go:47-48 | The month after December is January of the next year. |
| CheckIns.History | model/checkin.go:45-58 | Holds exactly the user's records dated from the first of the month up to the first of the next month, oldest first, with no record added. |
| CheckIns.AllCheckIns | model/checkin.go:162-196 | Returns the total count and the page of records, newest id first, skipping the start index and taking at most the page size. |
| CheckIns.UserIds | model/checkin.go:225 | Lists each user with a check-in exactly once. |
| CheckIns.MaxDate | model/checkin.go:221 | The last check-in date is one of the user's dates, and no date of theirs is later. |
| CheckIns.Ranked | model/checkin.go:222-227 | The rows sorted by check-in count, descending, with at most `limit` kept and ranks numbered from 1. |
| CheckIns.RankedDistinct | model/checkin.go:225-227 | The kept rows belong to distinct users. |
| CheckIns.RankedDescending | model/checkin.go:226 | The kept rows run from most to fewest check-ins. |
| CheckIns.RankedIsTop | model/checkin.go:226-227 | A row left out of a non-empty ranking has no more check-ins than the last kept row. |
| CheckIns.WithStreaks | model/checkin.go:235-241 | Each row gets the user's streak, and nothing else about the row changes. |
| CheckIns.LeaderboardRows | model/checkin.go:215-241 | Every row is numbered by its position and belongs to a user who checked in. Its totals are that user's check-in count and reward sum, and its streak is that user's streak. |
| CheckIns.LeaderboardOrder | model/checkin.go:215-230 | The leaderboard has min(limit, users) rows, one per user, ordered by check-in count descending. |
| CheckIns.LeaderboardIsTop | model/checkin.go:226-227 | A user missing from a non-empty leaderboard has no more check-ins than its last row. |
| CheckInController.GetCheckInConfig | controller/checkin.go:16-54 | Nothing stored gives the fixed default: disabled, minimum 100, bonus 50 every 7 days. A stored config that does not decode is an error. Otherwise the stored config is returned with its auth code blanked, so the auth code is never exposed. |
| CheckInController.ValidateConfigAccepts | controller/checkin.go:69-91 | A config passes exactly when the minimum and maximum are non-negative and a non-zero maximum is at least the minimum. A fixed reward (maximum 0) with a non-negative minimum is accepted. |
| CheckInController.UpdateCheckInConfig | controller/checkin.go:57-116 | A body that does not decode, or a config that fails validation, is refused and the stored value is unchanged. Otherwise the stored value becomes the posted config. |
| CheckInController.UpdateThenGet | controller/checkin.go:57-116 | A valid update read back gives the posted config with its auth code blanked. |
| CheckInController.BaseRewardBounds | controller/checkin.go:253-257 | The base reward is the minimum unless a larger positive maximum is set. It then lies between the minimum and the maximum. |
| CheckInController.EveryRewardReachable | controller/checkin.go:253-257 | Every value between the minimum and the maximum is the base reward of some draw. |
| CheckInController.BonusIsAdditive | controller/checkin.go:260-269 | With the bonus switched on, the reward is the base plus `(streak / days) * reward`, using integer division. With it off, the reward is the base. |
| CheckInController.BonusMonotone | controller/checkin.go:260-269 | The bonus is never negative, and a longer streak never earns a smaller bonus. |
| CheckInController.RewardAtLeastMinimum | controller/checkin.go:253-269 | For a validated config the reward is at least the minimum, which is non-negative. |
| CheckInController.ClampYear | controller/checkin.go:161-164 | A parsed year in [2020, 2100] is kept. Anything else becomes the current year. |
| CheckInController.ClampMonth | controller/checkin.go:166-169 | A parsed month in [1, 12] is kept. Anything else becomes the current month. |
| CheckInController.ClampPage | controller/checkin.go:297-299 | A page of 0 or less becomes 1. Any other page is kept. |
| CheckInController.ClampPageSize | controller/checkin.go:300-302 | A page size of 0 or less, or above 100, becomes 10. Any other size is kept. |
| CheckInController.AllCheckInsPage | controller/checkin.go:293-323 | Returns the clamped page, newest first, from `(page − 1) * size`. It holds at most 100 records, and the total is returned with it. |
| CheckInController.HistoryPage | controller/checkin.go:155-184 | After year and month are clamped, the result holds exactly the user's records in that month, in ascending date order. |
| CheckInController.Status | controller/checkin.go:118-152 | `checked_in` holds exactly when a record exists for today. Today's reward is that record's reward, or 0 when there is none. The streak is the user's streak, at most 31. |
| CheckInController.AuthCodeIgnoredUnlessRequired | controller/checkin.go:219-232 | When no auth code is required, the body's auth code cannot change the outcome of the gates. |
| CheckInController.CheckedInIsRefused | controller/checkin.go:191-250 | A user who already checked in today is refused on every path through the gates. |
| CheckInController.ComputeReward | controller/checkin.go:252-269 | The reward lines compute exactly the base reward plus the bonus for the user's streak as it stands before today's record. |
| CheckInController.CheckIn | controller/checkin.go:187-291 | The gates run in source order, and a refused gate creates no record and credits nothing. Otherwise the reward is the base plus the bonus for the streak taken before today's record. The record is inserted and credited, and the streak after the insert is reported. |
| CheckInController.StreakAfterCheckIn | controller/checkin.go:281-289 | Once today's record is in, and no record is dated after today, the reported streak is at least 1. |
| GroupSetting.Registered | setting/default_user_group.go:411-433 | After registration the table's keys are the old keys plus the registered names. |
| GroupSetting.RegisteredKeepsDescriptions | setting/default_user_group.go:422-430 | Existing descriptions are kept, and a new group is described by its own name. |
| GroupSetting.RegisteredCompose | setting/default_user_group.go:436-462 | Registering in two batches equals registering their union. Registering the same names again changes nothing. |
| GroupSetting.GroupSettings.EnsureUserGroupExists | setting/default_user_group.go:411-433 | Always returns true. Registers the name unless it is "" or "default", and keeps every existing description. |
| GroupSetting.GroupSettings.EnsureUserGroupsExist | setting/default_user_group.go:436-462 | Registers every listed name except "" and "default", in one batch, keeping existing descriptions. |
| GroupSetting.GroupSettings.ValidateAndRegisterUserGroups | setting/default_user_group.go:466-483 | Registers every group that the method-to-group config names, except "" and "default". |
| GroupSetting.GroupSettings.SyncUserGroupConfigurations | setting/default_user_group.go:487-511 | Registers every group named by the default groups, the extra groups or the available-group lists, except "" and "default". |
| GroupSetting.GroupSettings.GetDefaultUserGroupsCopy | setting/default_user_group.go:48-57 | The copy equals the table. |
| GroupSetting.GroupSettings.UpdateDefaultUserGroupsByJSONString | setting/default_user_group.go:73-109 | Input that does not decode is an error, and both tables are unchanged. Otherwise the table becomes the decoded map with "" values stored as "default", and every configured group is registered. |
| GroupSetting.DefaultGroupFor | setting/default_user_group.go:118-127 | The configured group of the method is returned when it is present and non-empty. Otherwise the result is "default", so it is never empty. |
| GroupSetting.GroupSettings.GetDefaultUserGroupForMethod | setting/default_user_group.go:112-128 | Returns the method's default group and registers it as usable. |
| GroupSetting.GroupSettings.SetDefaultUserGroupForMethod | setting/default_user_group.go:131-136 | Changes only the entry of the given method. |
| GroupSetting.GroupSettings.GetGroupAvailableGroupsCopy | setting/default_user_group.go:139-151 | The copy equals the table. |
| GroupSetting.AvailableFoldDrops | setting/default_user_group.go:177-190 | The update drops only keys of the decoded map. It never drops "default", nor a key registered before the update. |
| GroupSetting.AvailableFoldPrunes | setting/default_user_group.go:177-190 | Pruning is complete: a visited key other than "default" that is still unregistered when the fold ends has been dropped. |
| GroupSetting.AvailableFoldGrows | setting/default_user_group.go:191-203 | The update only adds groups to the usable table, and never changes a description. |
| GroupSetting.AvailableFoldListed | setting/default_user_group.go:177-212 | After the update, every group listed under a kept key is registered, except "" and "default". |
| GroupSetting.AvailableFoldDependsOnOrder | setting/default_user_group.go:177-203 | Which keys survive depends on the order in which the map is visited. Take {"default": ["team"], "team": []}: "team" is kept when "default" is visited first and dropped otherwise. |
| GroupSetting.GroupSettings.KeepRegisteredKeys | setting/default_user_group.go:177-203 | The loop keeps exactly the keys that are "default" or registered when visited, each with its list unchanged. It leaves the usable table as the fold describes. |
| GroupSetting.GroupSettings.UpdateGroupAvailableGroupsByJSONString | setting/default_user_group.go:167-215 | Input that does not decode is an error, and both tables are unchanged. Otherwise the table becomes the decoded map minus the dropped keys, and the usable table is updated by the same loop. |
| GroupSetting.AvailableFor | setting/default_user_group.go:223-267 | A configured group gets its list minus empty entries, in order. An unconfigured "default" gets ["default", "premium"], and any other unconfigured group gets [itself, "default"]. |
| GroupSetting.GroupSettings.CheckListed | setting/default_user_group.go:226-240 | Returns the list minus empty entries, and whether some listed group other than "" and "default" is unregistered. |
| GroupSetting.GroupSettings.GetAvailableGroupsForUserGroup | setting/default_user_group.go:218-268 | Returns the groups of AvailableFor. A configured group's listed groups are registered; an unconfigured group changes nothing. |
| GroupSetting.GroupSettings.SetAvailableGroupsForUserGroup | setting/default_user_group.go:271-276 | Changes only the given user group's entry. |
| GroupSetting.GroupSettings.GetDefaultExtraUserGroupsCopy | setting/default_user_group.go:279-291 | The copy equals the table. |
| GroupSetting.NonEmpty | setting/default_user_group.go:317-338 | The filtered list holds exactly the non-empty entries of the list. |
| GroupSetting.GroupSettings.FilterAndRegister | setting/default_user_group.go:317-338 | Drops empty entries, keeping order, and registers the list's groups. |
| GroupSetting.GroupSettings.UpdateDefaultExtraUserGroupsByJSONString | setting/default_user_group.go:307-352 | Input that does not decode is an error, and both tables are unchanged. Otherwise every list is stored without its empty entries, and every listed group is registered. |
| GroupSetting.GroupSettings.GetDefaultExtraUserGroupsForMethod | setting/default_user_group.go:355-399 | An unknown method gets an empty list and changes nothing. A known method gets its list minus empty entries, and its groups are registered. |
| GroupSetting.GroupSettings.SetDefaultExtraUserGroupsForMethod | setting/default_user_group.go:402-407 | Changes only the entry of the given method. |
| GroupSetting.GroupSettings.GetUserUsableGroupsCopy | setting/user_usable_group.go:19-28 | The copy equals the table. |
| GroupSetting.GroupSettings.UpdateUserUsableGroupsByJSONString | setting/user_usable_group.go:41-47 | The table is cleared before decoding, so nothing from the previous table survives. A failure is reported, and leaves the table empty. |
| GroupSetting.UsableMap | setting/user_usable_group.go:53-68 | Its keys are exactly the available groups plus "default". A listed group's description comes from the usable table, or is its own name. "默认分组" is added for "default" only when the list lacks it. |
| GroupSetting.GroupSettings.GetUserUsableGroups | setting/user_usable_group.go:49-71 | Returns the usable map of the user group's available groups, after the lookup has registered them. |
| GroupSetting.GroupSettings.DescribeAll | setting/user_usable_group.go:55-63 | The loop builds exactly the usable map of the given list. |
| GroupSetting.GroupSettings.GroupInUserUsableGroups | setting/user_usable_group.go:73-79 | Holds exactly when the name is a key of the usable table. |
| GroupSetting.Describe | setting/user_usable_group.go:81-89 | Gives the stored description, or the name itself when none is stored. |
| GroupSetting.GroupSettings.GetUsableGroupDescription | setting/user_usable_group.go:81-89 | Returns the stored description, or the name itself. |
| GroupController.GetGroups | controller/group.go:14-24 | Lists every group of the ratio table exactly once. |
| GroupController.MainGroupFallbackBySize | controller/group.go:57 | The fallback test holds exactly when the main group's usable map is empty, or has one entry that is a described "default". |
| GroupController.OfferedGroups | controller/group.go:49-73 | The offered set contains every key of the main group's usable map and every extra group. It also contains the main group when the fallback applies. |
| GroupController.CollectOffered | controller/group.go:56-71 | The loops collect exactly the offered set. |
| GroupController.RatioOf | controller/group.go:94-97 | The ratio shown is the configured one, or 1.0 when it is missing or zero, so it is never 0. |
| GroupController.UserGroupsDataKeys | controller/group.go:49-114 | The response has exactly the offered groups, plus "auto" when "auto" is registered, and no other group. |
| GroupController.UserGroupsDataRatio | controller/group.go:94-114 | A registered "auto" carries the auto marker. Every other group carries its non-zero numeric ratio. |
| GroupController.UserGroupsDataDescription | controller/group.go:85-91 | A description comes from the main group's usable map when the group is there, and from the global lookup otherwise. "auto" takes the global one. |
| GroupController.UnconfiguredMainGroupOffered | controller/group.go:52-62 | A user whose main group has no available-groups entry is always offered their main group. |
| GroupController.ConfiguredMainGroupMayBeWithheld | controller/group.go:57-62 | The fallback does not cover a configured list that leaves the main group out. A "vip" user whose list is ["premium"] is not offered "vip". |
| GroupController.BuildGroupsData | controller/group.go:83-114 | The loop gives each offered group its ratio and description, then adds "auto" when it is registered. |
| GroupController.GetUserGroups | controller/group.go:26-121 | A user who cannot be loaded gets a failure with empty data. Otherwise the data is exactly UserGroupsData of the main group's usable map, and the lookup registers the groups the main group's list names. |
| RedemptionColumns.IsExpiredInMilliseconds | web/src/components/table/redemptions/RedemptionsGroupedColumnDefs.jsx:35-41 | An unused code with a non-zero expiry shows as expired once a whole second past its expiry second has passed. |
| RedemptionColumns.IsExpiredAgreesWithStore | web/src/components/table/redemptions/RedemptionsGroupedColumnDefs.jsx:35-41 | For an enabled code, the table's expiry is the back end's expiry taken at the current second. A code the table shows as expired is one the back end's clean-up removes. |
| RedemptionColumns.StatusLabelCases | web/src/components/table/redemptions/RedemptionsGroupedColumnDefs.jsx:53-76 | "已过期" shows exactly for expired codes. Otherwise the label of the code's status shows, and "未知状态" shows for any other status. |
| RedemptionColumns.TypeLabelCases | web/src/components/table/redemptions/RedemptionsGroupedColumnDefs.jsx:81-96 | A normal code is labelled "兑换码" and a gift code "礼品码". "未知类型" shows exactly for the other types. |
| RedemptionColumns.GiftInfoOnlyForGifts | web/src/components/table/redemptions/RedemptionsGroupedColumnDefs.jsx:101-124 | Gift details show exactly for gift codes. They show that code's user cap, per-user cap and used count. |
| RedemptionColumns.DeleteAlwaysOffered | web/src/components/table/redemptions/RedemptionsGroupedColumnDefs.jsx:277-285 | Delete is always the first entry, enabled, and the menu has one or two entries. |
| RedemptionColumns.DisableOfferedIff | web/src/components/table/redemptions/RedemptionsGroupedColumnDefs.jsx:287-295 | Disable is offered exactly for an unused code that has not expired. |
| RedemptionColumns.EnableOfferedIff | web/src/components/table/redemptions/RedemptionsGroupedColumnDefs.jsx:296-306 | Enable is offered exactly for a code that is not unused; such a code never shows as expired. It is greyed out exactly for a used code. |
| RedemptionColumns.NeverBothToggles | web/src/components/table/redemptions/RedemptionsGroupedColumnDefs.jsx:287-306 | An expired code gets neither toggle, and no code gets both. |
| RedemptionColumns.EditEnabledForUnused | web/src/components/table/redemptions/RedemptionsGroupedColumnDefs.jsx:334 | Edit is enabled exactly for unused codes, which are those offered disable plus those shown as expired. |

## Findings

| source | as written | input that shows it | evidently intended | confidence | as-written member | corrected member |
|---|---|---|---|---|---|---|
| model/redemption.go:249 | The per-user count of a gift code's uses is `content LIKE '%礼品码ID <id>%'`. This also matches the log line of any gift code whose id begins with the digits of `<id>`. | User 7 redeemed gift code 12 once. Gift code 1 has `MaxUsesPerUser = 1`, and user 7 then tries code 1. The count for code 1 is 1 and the user is refused. | Count only the log lines of this exact code, so user 7 has 0 uses of code 1 and is admitted. | not executed | Redemptions.LikeUsesCountsOtherCodes | Redemptions.GiftSuccessIsCounted |

The model's `Redeem` uses the exact count (`Redemptions.GiftUses`), and
`Redemptions.GiftSuccessIsCounted` proves that a success raises only that
user's count for that code, by one. The same pattern is used at line 261
for the first-time test, so there too a user of code 12 is counted as a
returning user of code 1.

## Left out

- Locks and concurrency. The settings functions are modelled as sequential.
  - The `sync.RWMutex` locking is not modelled.
  - Two registration branches take a table's write lock and then call `GroupInUserUsableGroups`, which takes the read lock of the mutex already held: setting/default_user_group.go:244-245 and 384-385. In Go that blocks. The model performs the registration those branches evidently intend.
  - The `go` background registrations (setting/default_user_group.go:106, 206-212, 343-349) are modelled as synchronous calls. The update has already registered every group they name, and the model proves that the call then finds nothing left to register.
  - `common.RandomSleep` and `FOR UPDATE` row locking in `Redeem`.
  - The check-then-insert race between concurrent `CreateCheckIn` calls.
- Database and serialisation errors. GORM transactions become all-or-nothing updates of the store, and errors returned by the database or by JSON encoding are not modelled.
  - A JSON body or option value either decodes or does not. A decode that fails halfway, after filling part of a map, is not modelled.
  - The JSON value `null` is not modelled. It decodes without error and leaves the map nil. `UpdateDefaultUserGroupsByJSONString` then stores a nil table (setting/default_user_group.go:77-81, 103), and a later `SetDefaultUserGroupForMethod` panics on its write (line 135). `UpdateUserUsableGroupsByJSONString` leaves the usable table nil (setting/user_usable_group.go:45-46), so every later registration write panics, which inside a `go` goroutine ends the process. The model reads `null` as an empty map, so those writes succeed. Nor is `UserUsableGroups2JSONString` and the other `...2JSONString` encoders.
  - The error path of `GetUserContinuousCheckInDays`, where the leaderboard and the bonus then skip the streak, is not modelled.
- Orders the database or the Go runtime choose.
  - The distinct names of `GetRedemptionsGroupedByName` are an input: no duplicates, and exactly the non-empty names of the stored rows. `ORDER BY name ASC` is the database's string order.
  - `GetGroups` lists the ratio table's keys in some order, and Go's order is not modelled.
  - In `UpdateGroupAvailableGroupsByJSONString`, the visiting order is a parameter because the outcome depends on it (see `GroupSetting.AvailableFoldDependsOnOrder`).
  - Leaderboard ties: `ROW_NUMBER()` and `ORDER BY` may order equal counts differently. The model ranks rows by their position after a stable sort.
- CheckInController.RewardAtLeastMinimum: proved for unbounded integers. Go's `int` is 64 bits, and the validator (controller/checkin.go:69-91) does not bound `ContinuousReward`. With `ContinuousReward` = 2^62, `ContinuousDays` = 1 and a streak of 2, line 266 wraps to a negative reward, which would debit the quota. The model does not capture 64-bit wrap-around of the reward, the quota or the counters.
- CheckInController.EveryRewardReachable: proved for unbounded integers. With `MaxReward` = 2^63 − 1 and `MinReward` = 0, line 256 passes `rand.Intn` a wrapped, negative argument, and Go panics.
- CheckIns.Ranked: the limit is a non-negative number. SQL's treatment of a negative `LIMIT` is not modelled.
- CheckIns.AllCheckIns: the start index of a page is taken to be `(page − 1) * pageSize`, as `common.PageInfo` computes it. `common.PageInfo` is not part of this model.
- Redemptions.PageWindow: the start index and the page size are non-negative. A negative start index panics in Go and is not modelled.
- Time. The wall clock, time zones and date formatting are replaced by integer seconds and day numbers passed in. `time.Now()` at several points of one request is one value.
- `math/rand` is replaced by the `draw` parameter, whose range the precondition states.
- Group ratios are reals, and "自动" is the `AutoRatio` marker; floating-point rounding is not modelled.
- The admin screen's float "multiplier" for the streak bonus is not modelled. The back end never reads it, and its additive rule is the one modelled.
- Log text. `SysLog` lines and the text of `RecordLog` are not modelled. The top-up log is a sequence of (user, type, code id, quota) entries: it stands in for the per-(user, code) use counter read by `Redeem`.
- The check-in page posts `verifyCode`, while the back end reads `auth_code` from the body. The model follows the back end: the auth code is an optional string, `None` when the body does not decode.
- `user.GetExtraGroups()` and `model.GetUserById` are inputs: the user record, or `None` when it cannot be loaded.
- Presentation in the JSX column definitions is not modelled: timestamps, quota rendering, the expand toggle, the "永不过期" expiry text, the "无" used-user text, and translations. Only the rules that decide labels, gift details and menu entries are modelled.
- `GetAllRedemptions`, `SearchRedemptions` and the row helpers `Insert`, `SelectUpdate`, `Update` and `Delete` in model/redemption.go are plain database reads and writes. They are not part of this model.
