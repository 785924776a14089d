/**
 * The group endpoints (controller/group.go): the list of groups that have
 * a ratio, and the groups a signed-in user may pick, each with its ratio
 * and description. The ratio table is a parameter; the user row is an
 * Option, None when it cannot be loaded.
 */
module GroupController {
  import opened Wrappers
  import opened Seqs
  import opened GroupSetting

  /** A group's ratio: a number, or the "自动" marker of the auto group. */
  datatype Ratio = Rate(value: real) | AutoRatio

  datatype GroupInfo = GroupInfo(ratio: Ratio, desc: string)

  /** The part of a user row the endpoint reads. */
  datatype UserRecord = UserRecord(id: int, group: string, extraGroups: seq<string>)

  datatype GroupsResponse = GroupsResponse(success: bool, data: map<string, GroupInfo>)

  const Auto: string := "auto"

  /** `GetGroups`: every group that has a ratio, each once, in map order. */
  method GetGroups(groupRatios: map<string, real>) returns (groupNames: seq<string>)
    ensures Elems(groupNames) == groupRatios.Keys
    ensures NoDup(groupNames)
    ensures |groupNames| == |groupRatios|
  {
    groupNames := [];
    var rest := groupRatios.Keys;
    while rest != {}
      invariant rest <= groupRatios.Keys
      invariant Elems(groupNames) == groupRatios.Keys - rest
      invariant NoDup(groupNames)
      invariant |groupNames| + |rest| == |groupRatios.Keys|
      decreases rest
    {
      var groupName :| groupName in rest;
      assert groupName !in groupNames;
      assert Elems(groupNames + [groupName]) == Elems(groupNames) + {groupName};
      groupNames := groupNames + [groupName];
      rest := rest - {groupName};
    }
  }

  /**
   * The main group's usable map offers nothing but "default" (with a
   * description), so the main group itself is added.
   */
  predicate MainGroupFallback(mainGroupUsableGroups: map<string, string>)
  {
    || mainGroupUsableGroups == map[]
    || (mainGroupUsableGroups.Keys == {Default} && mainGroupUsableGroups[Default] != "")
  }

  /** The fallback test is the endpoint's test on the map's size: empty, or one entry that is a described "default". */
  lemma MainGroupFallbackBySize(mainGroupUsableGroups: map<string, string>)
    ensures MainGroupFallback(mainGroupUsableGroups)
        <==> (|mainGroupUsableGroups| == 0
              || (|mainGroupUsableGroups| == 1 && Default in mainGroupUsableGroups && mainGroupUsableGroups[Default] != ""))
  {
    var m := mainGroupUsableGroups;
    if |m| == 0 {
      assert m.Keys == {};
    }
    if |m| == 1 && Default in m {
      var rest := m.Keys - {Default};
      assert |m.Keys| == |rest| + 1;
      assert rest == {};
    }
    if m.Keys == {Default} {
      assert |m| == |m.Keys| == 1;
    }
  }

  /** The groups offered: the main group's usable groups, the extra groups, and the main group on fallback. */
  function OfferedGroups(mainGroupUsableGroups: map<string, string>, userGroup: string, extraGroups: seq<string>)
    : (s: set<string>)
    ensures mainGroupUsableGroups.Keys <= s && Elems(extraGroups) <= s
    ensures MainGroupFallback(mainGroupUsableGroups) ==> userGroup in s
  {
    (if MainGroupFallback(mainGroupUsableGroups) then {userGroup} else {})
      + mainGroupUsableGroups.Keys + Elems(extraGroups)
  }

  /** The ratio shown: the configured one, 1.0 when it is missing or zero. */
  function RatioOf(groupRatios: map<string, real>, g: string): (r: real)
    ensures r != 0.0
    ensures g in groupRatios && groupRatios[g] != 0.0 ==> r == groupRatios[g]
    ensures g !in groupRatios || groupRatios[g] == 0.0 ==> r == 1.0
  {
    if g in groupRatios && groupRatios[g] != 0.0 then groupRatios[g] else 1.0
  }

  /** The entry of a group other than a registered "auto". */
  function Entry(mainGroupUsableGroups: map<string, string>, table: map<string, string>,
                 groupRatios: map<string, real>, g: string): GroupInfo
  {
    GroupInfo(Rate(RatioOf(groupRatios, g)),
              if g in mainGroupUsableGroups then mainGroupUsableGroups[g] else Describe(table, g))
  }

  /**
   * The response data for a loaded user: every offered group with its ratio
   * and with the description from the main group's usable map, else the
   * global one; then "auto", when registered, with the auto marker.
   */
  function UserGroupsData(mainGroupUsableGroups: map<string, string>, userGroup: string, extraGroups: seq<string>,
                          table: map<string, string>, groupRatios: map<string, real>): map<string, GroupInfo>
  {
    var base := map g | g in OfferedGroups(mainGroupUsableGroups, userGroup, extraGroups) ::
      Entry(mainGroupUsableGroups, table, groupRatios, g);
    if Auto in table then base[Auto := GroupInfo(AutoRatio, Describe(table, Auto))] else base
  }

  /** The data holds exactly the offered groups, and "auto" when it is registered. */
  lemma UserGroupsDataKeys(main: map<string, string>, userGroup: string, extraGroups: seq<string>,
                           table: map<string, string>, groupRatios: map<string, real>)
    ensures UserGroupsData(main, userGroup, extraGroups, table, groupRatios).Keys
         == OfferedGroups(main, userGroup, extraGroups) + (if Auto in table then {Auto} else {})
  {
  }

  /** Every entry but "auto" carries a non-zero numeric ratio taken from the ratio table or 1.0. */
  lemma UserGroupsDataRatio(main: map<string, string>, userGroup: string, extraGroups: seq<string>,
                            table: map<string, string>, groupRatios: map<string, real>, g: string)
    requires g in UserGroupsData(main, userGroup, extraGroups, table, groupRatios)
    ensures var info := UserGroupsData(main, userGroup, extraGroups, table, groupRatios)[g];
      info.ratio == AutoRatio <==> g == Auto && Auto in table
    ensures var info := UserGroupsData(main, userGroup, extraGroups, table, groupRatios)[g];
      info.ratio.Rate? ==> info.ratio.value == RatioOf(groupRatios, g) && info.ratio.value != 0.0
  {
  }

  /** Descriptions come from the main group's usable map first, then from the global table. */
  lemma UserGroupsDataDescription(main: map<string, string>, userGroup: string, extraGroups: seq<string>,
                                  table: map<string, string>, groupRatios: map<string, real>, g: string)
    requires g in UserGroupsData(main, userGroup, extraGroups, table, groupRatios)
    ensures var info := UserGroupsData(main, userGroup, extraGroups, table, groupRatios)[g];
      && (g == Auto && Auto in table ==> info.desc == Describe(table, Auto))
      && (!(g == Auto && Auto in table) && g in main ==> info.desc == main[g])
      && (!(g == Auto && Auto in table) && g !in main ==> info.desc == Describe(table, g))
  {
  }

  /**
   * A user whose main group has no available-groups entry is always offered
   * that main group.
   */
  lemma UnconfiguredMainGroupOffered(available: map<string, seq<string>>, userGroup: string, extraGroups: seq<string>,
                                     table: map<string, string>, groupRatios: map<string, real>)
    requires userGroup !in available
    ensures userGroup in UserGroupsData(UsableMap(AvailableFor(available, userGroup), table),
                                        userGroup, extraGroups, table, groupRatios)
  {
    var avail := AvailableFor(available, userGroup);
    assert userGroup in avail;
    assert userGroup in Elems(avail);
  }

  /**
   * A configured main group is not offered to its own members when its list
   * leaves it out and the list holds a group besides "default".
   */
  lemma ConfiguredMainGroupMayBeWithheld()
    ensures var available := map["vip" := ["premium"]];
      var table := map["default" := "默认分组", "premium" := "高级分组"];
      "vip" !in UserGroupsData(UsableMap(AvailableFor(available, "vip"), table), "vip", [], table, map[])
  {
    var available := map["vip" := ["premium"]];
    var table := map["default" := "默认分组", "premium" := "高级分组"];
    var avail := AvailableFor(available, "vip");
    assert avail == ["premium"] by {
      assert NonEmpty(["premium"]) == ["premium"] by {
        FilterAppend([], ["premium"], (g: string) => g != "");
      }
    }
    var main := UsableMap(avail, table);
    assert main.Keys == {"premium", Default};
    assert !MainGroupFallback(main);
    assert OfferedGroups(main, "vip", []) == {"premium", Default};
    UserGroupsDataKeys(main, "vip", [], table, map[]);
  }

  /** The offered set, collected as the endpoint does: fallback, main map keys, extra groups. */
  method CollectOffered(mainGroupUsableGroups: map<string, string>, userGroup: string, extraGroups: seq<string>)
    returns (availableGroupsSet: set<string>)
    ensures availableGroupsSet == OfferedGroups(mainGroupUsableGroups, userGroup, extraGroups)
  {
    availableGroupsSet := {};
    if MainGroupFallback(mainGroupUsableGroups) {
      availableGroupsSet := availableGroupsSet + {userGroup};
    }
    ghost var start := availableGroupsSet;
    var rest := mainGroupUsableGroups.Keys;
    while rest != {}
      invariant rest <= mainGroupUsableGroups.Keys
      invariant availableGroupsSet == start + (mainGroupUsableGroups.Keys - rest)
      decreases rest
    {
      var groupName :| groupName in rest;
      availableGroupsSet := availableGroupsSet + {groupName};
      rest := rest - {groupName};
    }
    ghost var mid := availableGroupsSet;
    for i := 0 to |extraGroups|
      invariant availableGroupsSet == mid + set j | 0 <= j < i :: extraGroups[j]
    {
      availableGroupsSet := availableGroupsSet + {extraGroups[i]};
    }
    assert Elems(extraGroups) == set j | 0 <= j < |extraGroups| :: extraGroups[j];
  }

  /** The per-group entries, built as the endpoint does, with "auto" handled last. */
  method BuildGroupsData(availableGroupsSet: set<string>, mainGroupUsableGroups: map<string, string>,
                         settings: GroupSettings, groupRatios: map<string, real>)
    returns (usableGroups: map<string, GroupInfo>)
    ensures usableGroups.Keys == availableGroupsSet + (if Auto in settings.userUsableGroups then {Auto} else {})
    ensures forall g <- usableGroups ::
      usableGroups[g] == (if g == Auto && Auto in settings.userUsableGroups
                          then GroupInfo(AutoRatio, Describe(settings.userUsableGroups, Auto))
                          else Entry(mainGroupUsableGroups, settings.userUsableGroups, groupRatios, g))
  {
    usableGroups := map[];
    var rest := availableGroupsSet;
    while rest != {}
      invariant rest <= availableGroupsSet
      invariant usableGroups.Keys == availableGroupsSet - rest
      invariant forall g <- usableGroups ::
        usableGroups[g] == Entry(mainGroupUsableGroups, settings.userUsableGroups, groupRatios, g)
      decreases rest
    {
      var groupName :| groupName in rest;
      var desc := "";
      if groupName in mainGroupUsableGroups {
        desc := mainGroupUsableGroups[groupName];
      } else {
        desc := settings.GetUsableGroupDescription(groupName);
      }
      var ratio := if groupName in groupRatios then groupRatios[groupName] else 0.0;
      if ratio == 0.0 {
        ratio := 1.0;
      }
      usableGroups := usableGroups[groupName := GroupInfo(Rate(ratio), desc)];
      rest := rest - {groupName};
    }
    var hasAuto := settings.GroupInUserUsableGroups(Auto);
    if hasAuto {
      var desc := settings.GetUsableGroupDescription(Auto);
      usableGroups := usableGroups[Auto := GroupInfo(AutoRatio, desc)];
    }
  }

  /** The entries BuildGroupsData produces over the offered set are UserGroupsData. */
  lemma BuiltIsData(usableGroups: map<string, GroupInfo>, main: map<string, string>, userGroup: string,
                    extraGroups: seq<string>, table: map<string, string>, groupRatios: map<string, real>)
    requires usableGroups.Keys == OfferedGroups(main, userGroup, extraGroups) + (if Auto in table then {Auto} else {})
    requires forall g <- usableGroups ::
      usableGroups[g] == (if g == Auto && Auto in table then GroupInfo(AutoRatio, Describe(table, Auto))
                          else Entry(main, table, groupRatios, g))
    ensures usableGroups == UserGroupsData(main, userGroup, extraGroups, table, groupRatios)
  {
    var expected := UserGroupsData(main, userGroup, extraGroups, table, groupRatios);
    UserGroupsDataKeys(main, userGroup, extraGroups, table, groupRatios);
    forall g | g in usableGroups ensures usableGroups[g] == expected[g] {
    }
  }

  /**
   * `GetUserGroups`: no data when the user cannot be loaded; otherwise the
   * groups of UserGroupsData, after the lookup of the main group's usable
   * groups has registered any unknown group its list names.
   */
  method GetUserGroups(user: Option<UserRecord>, settings: GroupSettings, groupRatios: map<string, real>)
    returns (response: GroupsResponse)
    modifies settings`userUsableGroups
    ensures user.None? ==> response == GroupsResponse(false, map[]) && settings.userUsableGroups == old(settings.userUsableGroups)
    ensures user.Some? ==>
      var g := user.value.group;
      && response.success
      && response.data == UserGroupsData(UsableMap(AvailableFor(settings.groupAvailableGroups, g), settings.userUsableGroups),
                                         g, user.value.extraGroups, settings.userUsableGroups, groupRatios)
      && settings.userUsableGroups == (if g in settings.groupAvailableGroups
           then Registered(old(settings.userUsableGroups), Registrable(Elems(settings.groupAvailableGroups[g])))
           else old(settings.userUsableGroups))
  {
    if user.None? {
      return GroupsResponse(false, map[]);
    }
    var u := user.value;
    var mainGroupUsableGroups := settings.GetUserUsableGroups(u.group);
    var availableGroupsSet := CollectOffered(mainGroupUsableGroups, u.group, u.extraGroups);
    var usableGroups := BuildGroupsData(availableGroupsSet, mainGroupUsableGroups, settings, groupRatios);
    BuiltIsData(usableGroups, mainGroupUsableGroups, u.group, u.extraGroups, settings.userUsableGroups, groupRatios);
    response := GroupsResponse(true, usableGroups);
  }
}
