/**
 * The user-group registry (setting/default_user_group.go and
 * setting/user_usable_group.go): four package-level tables and the rules
 * that read, replace and extend them.
 *
 * - defaultUserGroups: registration method -> the group a new user gets;
 * - defaultExtraUserGroups: registration method -> extra groups a new user gets;
 * - groupAvailableGroups: user group -> the groups that user group may pick;
 * - userUsableGroups: every known group -> its description.
 *
 * A group that is referenced but unknown is registered in userUsableGroups
 * with its own name as description; a registered description is never
 * overwritten by that. Decoded JSON is passed in as an Option (None when it
 * does not parse); Go's map iteration order, where it matters, is a
 * parameter.
 */
module GroupSetting {
  import opened Wrappers
  import opened Seqs

  const Default: string := "default"

  /** Names that registration ignores: the empty name and "default". */
  function Registrable(names: set<string>): set<string>
  {
    names - {"", Default}
  }

  /**
   * The usable-group table after registering `names`: every name becomes a
   * key, a name that was unknown gets itself as description, and existing
   * descriptions stay.
   */
  function Registered(table: map<string, string>, names: set<string>): (t: map<string, string>)
    ensures t.Keys == table.Keys + names
  {
    map g | g in table.Keys + names :: if g in table then table[g] else g
  }

  /** Registration never changes a description that was already there. */
  lemma RegisteredKeepsDescriptions(table: map<string, string>, names: set<string>)
    ensures forall g <- table :: Registered(table, names)[g] == table[g]
    ensures forall g <- names :: g !in table ==> Registered(table, names)[g] == g
  {
  }

  /** Registering twice, or in two batches, is the same as registering once. */
  lemma RegisteredCompose(table: map<string, string>, a: set<string>, b: set<string>)
    ensures Registered(Registered(table, a), b) == Registered(table, a + b)
    ensures Registered(Registered(table, a), a) == Registered(table, a)
  {
  }

  /** Registering names that are all known changes nothing. */
  lemma RegisteredKnown(table: map<string, string>, names: set<string>)
    requires names <= table.Keys
    ensures Registered(table, names) == table
  {
  }

  /** One more name: the table gains it, unless it is already there. */
  lemma RegisteredStep(table: map<string, string>, names: set<string>, g: string)
    ensures Registered(table, names + {g})
         == (var t := Registered(table, names); if g in t then t else t[g := g])
  {
    var t := Registered(table, names);
    var lhs := Registered(table, names + {g});
    var rhs := if g in t then t else t[g := g];
    assert lhs.Keys == rhs.Keys;
    forall x | x in lhs.Keys ensures lhs[x] == rhs[x] {
    }
  }

  /** One more entry of a list whose groups other than "default" are registered. */
  lemma KeepOne(table: map<string, string>, groups: seq<string>, j: nat)
    requires j < |groups|
    ensures Registered(table, Elems(groups[..j + 1]) - {Default})
         == (var t := Registered(table, Elems(groups[..j]) - {Default});
             if groups[j] == Default || groups[j] in t then t else t[groups[j] := groups[j]])
  {
    ElemsStep(groups, j);
    var g := groups[j];
    if g == Default {
      assert Elems(groups[..j + 1]) - {Default} == Elems(groups[..j]) - {Default};
    } else {
      assert Elems(groups[..j + 1]) - {Default} == Elems(groups[..j]) - {Default} + {g};
      RegisteredStep(table, Elems(groups[..j]) - {Default}, g);
    }
  }

  /** A list without its empty entries, order kept. */
  function NonEmpty(groups: seq<string>): (r: seq<string>)
    ensures forall g <- r :: g != "" && g in groups
    ensures forall g <- groups :: g != "" ==> g in r
  {
    Filter(groups, (g: string) => g != "")
  }

  lemma NonEmptyStep(groups: seq<string>, i: nat)
    requires i < |groups|
    ensures NonEmpty(groups[..i + 1]) == NonEmpty(groups[..i]) + (if groups[i] != "" then [groups[i]] else [])
  {
    assert groups[..i + 1] == groups[..i] + [groups[i]];
    FilterAppend(groups[..i], [groups[i]], (g: string) => g != "");
  }


  lemma ElemsStep(s: seq<string>, i: nat)
    requires i < |s|
    ensures Elems(s[..i + 1]) == Elems(s[..i]) + {s[i]}
  {
    assert s[..i + 1] == s[..i] + [s[i]];
  }

  /** Every value of a method -> group table. */
  function Values(m: map<string, string>): set<string>
  {
    set k | k in m :: m[k]
  }

  /** Every group listed anywhere in a key -> list table. */
  function Listed(m: map<string, seq<string>>): set<string>
  {
    set k, g | k in m && g in m[k] :: g
  }

  /** `GetDefaultUserGroupForMethod`: the configured group, "default" when absent or empty. */
  function DefaultGroupFor(config: map<string, string>, authMethod: string): (g: string)
    ensures g != ""
    ensures authMethod in config && config[authMethod] != "" ==> g == config[authMethod]
  {
    if authMethod !in config || config[authMethod] == "" then Default else config[authMethod]
  }

  /**
   * `GetAvailableGroupsForUserGroup`: a configured list without empty
   * entries; unconfigured, "default" may pick default and premium and any
   * other group itself and default.
   */
  function AvailableFor(config: map<string, seq<string>>, userGroup: string): (r: seq<string>)
    ensures userGroup in config ==> r == NonEmpty(config[userGroup])
    ensures userGroup !in config && userGroup == Default ==> r == [Default, "premium"]
    ensures userGroup !in config && userGroup != Default ==> r == [userGroup, Default]
  {
    if userGroup in config then NonEmpty(config[userGroup])
    else if userGroup == Default then [Default, "premium"]
    else [userGroup, Default]
  }

  /** `GetUsableGroupDescription`: the stored description, or the name itself. */
  function Describe(table: map<string, string>, g: string): (d: string)
    ensures g in table ==> d == table[g]
    ensures g !in table ==> d == g
  {
    if g in table then table[g] else g
  }

  /**
   * `GetUserUsableGroups`, given the available list: each listed group with
   * its description, and "default" as 默认分组 if it is not listed.
   */
  function UsableMap(avail: seq<string>, table: map<string, string>): (m: map<string, string>)
    ensures m.Keys == Elems(avail) + {Default}
    ensures forall g <- avail :: m[g] == Describe(table, g)
    ensures Default !in avail ==> m[Default] == "默认分组"
  {
    map g | g in Elems(avail) + {Default} :: if g in avail then Describe(table, g) else "默认分组"
  }

  /**
   * The loop of `UpdateGroupAvailableGroupsByJSONString` over the keys in
   * the order Go happens to visit them: a key that is neither "default" nor
   * registered at its turn is dropped; a kept key's list registers its
   * unknown groups (the empty name included). Returns the dropped keys and
   * the usable-group table afterwards.
   */
  function AvailableFold(order: seq<string>, parsed: map<string, seq<string>>, table: map<string, string>)
    : (r: (set<string>, map<string, string>))
    requires forall k <- order :: k in parsed
    decreases |order|
  {
    if order == [] then ({}, table)
    else
      var k := order[0];
      if k != Default && k !in table then
        var (dropped, t) := AvailableFold(order[1..], parsed, table);
        (dropped + {k}, t)
      else
        AvailableFold(order[1..], parsed, Registered(table, Elems(parsed[k]) - {Default}))
  }

  /** The fold only adds to the usable-group table and never changes a description. */
  lemma {:induction false} AvailableFoldGrows(order: seq<string>, parsed: map<string, seq<string>>, table: map<string, string>)
    requires forall k <- order :: k in parsed
    ensures var t := AvailableFold(order, parsed, table).1;
      table.Keys <= t.Keys && forall g <- table :: t[g] == table[g]
    decreases |order|
  {
    if order != [] {
      var k := order[0];
      if k != Default && k !in table {
        AvailableFoldGrows(order[1..], parsed, table);
      } else {
        var t1 := Registered(table, Elems(parsed[k]) - {Default});
        RegisteredKeepsDescriptions(table, Elems(parsed[k]) - {Default});
        AvailableFoldGrows(order[1..], parsed, t1);
      }
    }
  }

  /**
   * Only visited keys are dropped, never "default" and never a key that was
   * registered before the update.
   */
  lemma {:induction false} AvailableFoldDrops(order: seq<string>, parsed: map<string, seq<string>>, table: map<string, string>)
    requires forall k <- order :: k in parsed
    ensures var dropped := AvailableFold(order, parsed, table).0;
      dropped <= Elems(order) && Default !in dropped && dropped !! table.Keys
    decreases |order|
  {
    if order != [] {
      var k := order[0];
      assert forall x <- order[1..] :: x in order;
      if k != Default && k !in table {
        AvailableFoldDrops(order[1..], parsed, table);
      } else {
        var t1 := Registered(table, Elems(parsed[k]) - {Default});
        AvailableFoldDrops(order[1..], parsed, t1);
      }
    }
  }

  /**
   * Pruning is complete: a visited key other than "default" that is not
   * registered once the fold ends was dropped.
   */
  lemma {:induction false} AvailableFoldPrunes(order: seq<string>, parsed: map<string, seq<string>>, table: map<string, string>)
    requires forall k <- order :: k in parsed
    ensures var r := AvailableFold(order, parsed, table);
      forall k <- order :: k != Default && k !in r.1 ==> k in r.0
    decreases |order|
  {
    if order != [] {
      var k := order[0];
      var rest := order[1..];
      assert forall x <- order :: x == k || x in rest;
      if k != Default && k !in table {
        AvailableFoldPrunes(rest, parsed, table);
      } else {
        var t1 := Registered(table, Elems(parsed[k]) - {Default});
        AvailableFoldPrunes(rest, parsed, t1);
        AvailableFoldGrows(rest, parsed, t1);
      }
    }
  }

  /** Every group listed under a key of `order` that is not in `dropped` is "default" or in `t`. */
  ghost predicate ListsRegistered(order: seq<string>, parsed: map<string, seq<string>>, dropped: set<string>, t: map<string, string>)
    requires forall k <- order :: k in parsed
  {
    forall i, g | 0 <= i < |order| && order[i] !in dropped && g in parsed[order[i]] :: g == Default || g in t
  }

  /** Every group listed under a kept key ends up registered (or is "default"). */
  lemma {:induction false} AvailableFoldRegisters(order: seq<string>, parsed: map<string, seq<string>>, table: map<string, string>)
    requires forall k <- order :: k in parsed
    ensures ListsRegistered(order, parsed, AvailableFold(order, parsed, table).0, AvailableFold(order, parsed, table).1)
    decreases |order|
  {
    if order != [] {
      var k := order[0];
      var rest := order[1..];
      assert forall i | 1 <= i < |order| :: rest[i - 1] == order[i];
      if k != Default && k !in table {
        AvailableFoldRegisters(rest, parsed, table);
        var r := AvailableFold(rest, parsed, table);
        assert ListsRegistered(rest, parsed, r.0, r.1);
        forall i, g | 0 <= i < |order| && order[i] !in r.0 + {k} && g in parsed[order[i]]
          ensures g == Default || g in r.1
        {
          assert rest[i - 1] == order[i];
        }
      } else {
        var t1 := Registered(table, Elems(parsed[k]) - {Default});
        AvailableFoldRegisters(rest, parsed, t1);
        AvailableFoldGrows(rest, parsed, t1);
        var r := AvailableFold(rest, parsed, t1);
        assert ListsRegistered(rest, parsed, r.0, r.1);
        forall i, g | 0 <= i < |order| && order[i] !in r.0 && g in parsed[order[i]]
          ensures g == Default || g in r.1
        {
          if i > 0 {
            assert rest[i - 1] == order[i];
          } else {
            assert g == Default || g in t1;
          }
        }
      }
    }
  }

  /** One step of the fold, from position `i` of the visiting order. */
  lemma AvailableFoldUnfold(order: seq<string>, i: nat, parsed: map<string, seq<string>>, table: map<string, string>)
    requires i < |order| && forall k <- order :: k in parsed
    ensures AvailableFold(order[i..], parsed, table)
         == if order[i] != Default && order[i] !in table then
              (AvailableFold(order[i + 1..], parsed, table).0 + {order[i]}, AvailableFold(order[i + 1..], parsed, table).1)
            else
              AvailableFold(order[i + 1..], parsed, Registered(table, Elems(parsed[order[i]]) - {Default}))
  {
    assert order[i..][0] == order[i];
    assert order[i..][1..] == order[i + 1..];
  }

  /** After the fold, every group the kept keys list is registered, bar "" and "default". */
  lemma AvailableFoldListed(order: seq<string>, parsed: map<string, seq<string>>, table: map<string, string>)
    requires Elems(order) == parsed.Keys
    ensures var r := AvailableFold(order, parsed, table);
      Registrable(Listed(parsed - r.0)) <= r.1.Keys
  {
    var r := AvailableFold(order, parsed, table);
    AvailableFoldRegisters(order, parsed, table);
    assert ListsRegistered(order, parsed, r.0, r.1);
    forall g | g in Registrable(Listed(parsed - r.0)) ensures g in r.1 {
      var k :| k in parsed - r.0 && g in (parsed - r.0)[k];
      assert k in Elems(order);
      var i :| 0 <= i < |order| && order[i] == k;
      assert g in parsed[order[i]];
    }
  }

  /**
   * Which keys survive depends on the visiting order: a key that only an
   * earlier list registers survives after that list and is dropped before it.
   */
  lemma AvailableFoldDependsOnOrder()
    ensures var parsed := map["default" := ["team"], "team" := []];
      var table := map["default" := "默认分组"];
      && AvailableFold(["default", "team"], parsed, table).0 == {}
      && AvailableFold(["team", "default"], parsed, table).0 == {"team"}
  {
    var parsed := map["default" := ["team"], "team" := []];
    var table := map["default" := "默认分组"];
    assert Elems(parsed["default"]) - {Default} == {"team"};
    assert ["default", "team"][1..] == ["team"];
    assert ["team", "default"][1..] == ["default"];
  }

  /** Copies a table entry by entry. */
  method CopyMap<V>(m: map<string, V>) returns (copy: map<string, V>)
    ensures copy == m
  {
    copy := map[];
    var keys := m.Keys;
    while keys != {}
      invariant keys <= m.Keys
      invariant copy.Keys == m.Keys - keys
      invariant forall k <- copy :: copy[k] == m[k]
      decreases keys
    {
      var k :| k in keys;
      copy := copy[k := m[k]];
      keys := keys - {k};
    }
  }


  /** Registering a name already covered, or one registration ignores, changes nothing. */
  lemma RegisteredMinusKnown(table: map<string, string>, names: set<string>)
    ensures Registered(table, names - table.Keys) == Registered(table, names)
  {
  }

  /** One more candidate name, as every registration loop handles it. */
  lemma RegisterOne(table: map<string, string>, names: set<string>, g: string)
    ensures Registered(table, Registrable(names + {g}))
         == (var t := Registered(table, Registrable(names));
             if g == "" || g == Default || g in t then t else t[g := g])
  {
    if g == "" || g == Default {
      assert Registrable(names + {g}) == Registrable(names);
    } else {
      assert Registrable(names + {g}) == Registrable(names) + {g};
      RegisteredStep(table, Registrable(names), g);
    }
  }

  lemma ValuesStep(m: map<string, string>, keys: set<string>, k: string)
    requires k in keys && keys <= m.Keys
    ensures Values(m - (keys - {k})) == Values(m - keys) + {m[k]}
  {
    var a := m - (keys - {k});
    var b := m - keys;
    assert k in a;
    forall g | g in Values(a) ensures g in Values(b) + {m[k]} {
      var j :| j in a && a[j] == g;
      if j != k {
        assert j in b;
      }
    }
    forall g | g in Values(b) ensures g in Values(a) {
      var j :| j in b && b[j] == g;
      assert j in a;
    }
  }

  lemma ListedStep(m: map<string, seq<string>>, keys: set<string>, k: string)
    requires k in keys && keys <= m.Keys
    ensures Listed(m - (keys - {k})) == Listed(m - keys) + Elems(m[k])
  {
    var a := m - (keys - {k});
    var b := m - keys;
    assert k in a;
    forall g | g in Listed(a) ensures g in Listed(b) + Elems(m[k]) {
      var j :| j in a && g in a[j];
      if j != k {
        assert j in b && g in b[j];
      } else {
        assert g in m[k];
        assert g in Elems(m[k]);
      }
    }
    forall g | g in Listed(b) + Elems(m[k]) ensures g in Listed(a) {
      if g in Listed(b) {
        var j :| j in b && g in b[j];
        assert j in a && g in a[j];
      } else {
        assert g in m[k];
        assert k in a && g in a[k];
      }
    }
  }

  /** The groups of a method -> group table that registration does not ignore. */
  method CollectGroups(configGroups: map<string, string>) returns (allGroups: set<string>)
    ensures allGroups == Registrable(Values(configGroups))
  {
    allGroups := {};
    var methods := configGroups.Keys;
    while methods != {}
      invariant methods <= configGroups.Keys
      invariant allGroups == Registrable(Values(configGroups - methods))
      decreases methods
    {
      var authMethod :| authMethod in methods;
      ValuesStep(configGroups, methods, authMethod);
      var group := configGroups[authMethod];
      if group != "" && group != Default {
        allGroups := allGroups + {group};
      }
      methods := methods - {authMethod};
    }
    assert configGroups - {} == configGroups;
  }

  /** The members of a set, listed in some order. */
  method SetToSeq(s: set<string>) returns (r: seq<string>)
    ensures Elems(r) == s
  {
    r := [];
    var rest := s;
    while rest != {}
      invariant rest <= s
      invariant Elems(r) == s - rest
      decreases rest
    {
      var x :| x in rest;
      assert Elems(r + [x]) == Elems(r) + {x};
      r := r + [x];
      rest := rest - {x};
    }
  }

  /** Two registration batches in a row are one batch of their union. */
  lemma RegisterBatches(table: map<string, string>, a: set<string>, b: set<string>)
    ensures Registered(Registered(table, Registrable(a)), Registrable(b)) == Registered(table, Registrable(a + b))
  {
    assert Registrable(a + b) == Registrable(a) + Registrable(b);
    RegisteredCompose(table, Registrable(a), Registrable(b));
  }

  /** Filtering each list lists nothing new. */
  lemma FilteredListed(parsed: map<string, seq<string>>, filtered: map<string, seq<string>>)
    requires filtered == map m | m in parsed :: NonEmpty(parsed[m])
    ensures Listed(filtered) <= Listed(parsed)
  {
    forall g | g in Listed(filtered) ensures g in Listed(parsed) {
      var k :| k in filtered && g in filtered[k];
      assert g in parsed[k];
    }
  }

  /** All lists of a table, concatenated in some order of the keys. */
  method Flatten(m: map<string, seq<string>>) returns (all: seq<string>)
    ensures Elems(all) == Listed(m)
  {
    all := [];
    var keys := m.Keys;
    while keys != {}
      invariant keys <= m.Keys
      invariant Elems(all) == Listed(m - keys)
      decreases keys
    {
      var k :| k in keys;
      ListedStep(m, keys, k);
      all := all + m[k];
      keys := keys - {k};
    }
    assert m - {} == m;
  }

  class GroupSettings {
    var defaultUserGroups: map<string, string>
    var defaultExtraUserGroups: map<string, seq<string>>
    var groupAvailableGroups: map<string, seq<string>>
    var userUsableGroups: map<string, string>

    /** The tables as the package initialises them. */
    constructor ()
      ensures defaultUserGroups == map["email" := "default", "github" := "default", "oidc" := "default",
        "wechat" := "default", "telegram" := "default", "discord" := "default", "linuxdo" := "default"]
      ensures defaultExtraUserGroups == map["email" := [], "github" := [], "oidc" := [],
        "wechat" := [], "telegram" := [], "discord" := [], "linuxdo" := []]
      ensures groupAvailableGroups == map[
        "default" := ["default", "premium", "channel_a", "channel_b"],
        "vip" := ["vip", "premium", "channel_a", "channel_b", "channel_c"]]
      ensures userUsableGroups == map["default" := "默认分组", "vip" := "VIP分组", "premium" := "高级分组",
        "channel_a" := "渠道分组A", "channel_b" := "渠道分组B", "channel_c" := "渠道分组C"]
    {
      defaultUserGroups := map["email" := "default", "github" := "default", "oidc" := "default",
        "wechat" := "default", "telegram" := "default", "discord" := "default", "linuxdo" := "default"];
      defaultExtraUserGroups := map["email" := [], "github" := [], "oidc" := [],
        "wechat" := [], "telegram" := [], "discord" := [], "linuxdo" := []];
      groupAvailableGroups := map[
        "default" := ["default", "premium", "channel_a", "channel_b"],
        "vip" := ["vip", "premium", "channel_a", "channel_b", "channel_c"]];
      userUsableGroups := map["default" := "默认分组", "vip" := "VIP分组", "premium" := "高级分组",
        "channel_a" := "渠道分组A", "channel_b" := "渠道分组B", "channel_c" := "渠道分组C"];
    }

    // -------------------------------------------------------------------
    // The usable-group table (setting/user_usable_group.go)
    // -------------------------------------------------------------------

    method GetUserUsableGroupsCopy() returns (copy: map<string, string>)
      ensures copy == userUsableGroups
    {
      copy := CopyMap(userUsableGroups);
    }

    /**
     * Replaces the table with the decoded JSON; the table is cleared first,
     * so input that does not decode leaves it empty.
     */
    method UpdateUserUsableGroupsByJSONString(parsed: Option<map<string, string>>) returns (ok: bool)
      modifies this`userUsableGroups
      ensures ok <==> parsed.Some?
      ensures userUsableGroups == (if parsed.Some? then parsed.value else map[])
    {
      userUsableGroups := map[];
      if parsed.None? {
        return false;
      }
      userUsableGroups := parsed.value;
      ok := true;
    }

    method GroupInUserUsableGroups(groupName: string) returns (ok: bool)
      ensures ok <==> groupName in userUsableGroups
    {
      ok := groupName in userUsableGroups;
    }

    method GetUsableGroupDescription(groupName: string) returns (desc: string)
      ensures desc == Describe(userUsableGroups, groupName)
    {
      if groupName in userUsableGroups {
        return userUsableGroups[groupName];
      }
      desc := groupName;
    }

    /**
     * The groups `userGroup` may pick, each with its description, plus
     * "default"; the lookup registers unknown listed groups first.
     */
    method GetUserUsableGroups(userGroup: string) returns (result: map<string, string>)
      modifies this`userUsableGroups
      ensures result == UsableMap(AvailableFor(groupAvailableGroups, userGroup), userUsableGroups)
      ensures userGroup in groupAvailableGroups ==>
        userUsableGroups == Registered(old(userUsableGroups), Registrable(Elems(groupAvailableGroups[userGroup])))
      ensures userGroup !in groupAvailableGroups ==> userUsableGroups == old(userUsableGroups)
    {
      var availableGroups := GetAvailableGroupsForUserGroup(userGroup);
      result := DescribeAll(availableGroups);
    }

    /** The loop of `GetUserUsableGroups` over the available list. */
    method DescribeAll(availableGroups: seq<string>) returns (result: map<string, string>)
      ensures result == UsableMap(availableGroups, userUsableGroups)
    {
      result := map[];
      for i := 0 to |availableGroups|
        invariant result.Keys == Elems(availableGroups[..i])
        invariant forall g <- result :: result[g] == Describe(userUsableGroups, g)
      {
        ElemsStep(availableGroups, i);
        var group := availableGroups[i];
        if group in userUsableGroups {
          result := result[group := userUsableGroups[group]];
        } else {
          result := result[group := group];
        }
      }
      assert availableGroups[..|availableGroups|] == availableGroups;
      if Default !in result {
        result := result[Default := "默认分组"];
      }
      ghost var expected := UsableMap(availableGroups, userUsableGroups);
      assert result.Keys == expected.Keys;
      forall g | g in result ensures result[g] == expected[g] {
        if g in availableGroups {
          assert g in Elems(availableGroups);
        }
      }
    }

    // -------------------------------------------------------------------
    // Registration
    // -------------------------------------------------------------------

    /** Registers one group unless it is empty, "default" or known; always answers true. */
    method EnsureUserGroupExists(groupName: string) returns (ok: bool)
      modifies this`userUsableGroups
      ensures ok
      ensures userUsableGroups == Registered(old(userUsableGroups), Registrable({groupName}))
    {
      RegisterOne(userUsableGroups, {}, groupName);
      RegisteredKnown(userUsableGroups, {});
      assert Registrable({}) == {} && {} + {groupName} == {groupName};
      if groupName == "" || groupName == Default {
        return true;
      }
      var known := GroupInUserUsableGroups(groupName);
      if known {
        return true;
      }
      if groupName !in userUsableGroups {
        userUsableGroups := userUsableGroups[groupName := groupName];
        return true;
      }
      ok := true;
    }

    /** Registers every listed group that is not empty, "default" or known. */
    method EnsureUserGroupsExist(groupNames: seq<string>)
      modifies this`userUsableGroups
      ensures userUsableGroups == Registered(old(userUsableGroups), Registrable(Elems(groupNames)))
    {
      if |groupNames| == 0 {
        assert Registrable(Elems(groupNames)) == {};
        RegisteredKnown(userUsableGroups, {});
        return;
      }
      var needsRegistration: seq<string> := [];
      for i := 0 to |groupNames|
        invariant userUsableGroups == old(userUsableGroups)
        invariant Elems(needsRegistration) == Registrable(Elems(groupNames[..i])) - userUsableGroups.Keys
      {
        ElemsStep(groupNames, i);
        var groupName := groupNames[i];
        var known := GroupInUserUsableGroups(groupName);
        if groupName != "" && groupName != Default && !known {
          assert Elems(needsRegistration + [groupName]) == Elems(needsRegistration) + {groupName};
          needsRegistration := needsRegistration + [groupName];
        }
      }
      assert groupNames[..|groupNames|] == groupNames;
      RegisteredMinusKnown(userUsableGroups, Registrable(Elems(groupNames)));
      if |needsRegistration| > 0 {
        ghost var before := userUsableGroups;
        for i := 0 to |needsRegistration|
          invariant userUsableGroups == Registered(before, Elems(needsRegistration[..i]))
        {
          ElemsStep(needsRegistration, i);
          RegisteredStep(before, Elems(needsRegistration[..i]), needsRegistration[i]);
          var groupName := needsRegistration[i];
          if groupName !in userUsableGroups {
            userUsableGroups := userUsableGroups[groupName := groupName];
          }
        }
        assert needsRegistration[..|needsRegistration|] == needsRegistration;
      } else {
        RegisteredKnown(userUsableGroups, {});
      }
    }

    /** Registers every group a method -> group table names. */
    method ValidateAndRegisterUserGroups(configGroups: map<string, string>)
      modifies this`userUsableGroups
      ensures userUsableGroups == Registered(old(userUsableGroups), Registrable(Values(configGroups)))
    {
      var allGroups := CollectGroups(configGroups);
      if |allGroups| > 0 {
        var groupsToRegister := SetToSeq(allGroups);
        EnsureUserGroupsExist(groupsToRegister);
      } else {
        RegisteredKnown(userUsableGroups, {});
      }
    }

    /** Registers every group that any of the three configuration tables names. */
    method SyncUserGroupConfigurations()
      modifies this`userUsableGroups
      ensures userUsableGroups == Registered(old(userUsableGroups),
        Registrable(Values(defaultUserGroups) + Listed(defaultExtraUserGroups) + Listed(groupAvailableGroups)))
    {
      var defaultGroups := GetDefaultUserGroupsCopy();
      ValidateAndRegisterUserGroups(defaultGroups);

      var extraGroups := GetDefaultExtraUserGroupsCopy();
      var allExtraGroups := Flatten(extraGroups);
      EnsureUserGroupsExist(allExtraGroups);
      RegisterBatches(old(userUsableGroups), Values(defaultGroups), Elems(allExtraGroups));

      var availableGroups := GetGroupAvailableGroupsCopy();
      var allAvailableGroups := Flatten(availableGroups);
      EnsureUserGroupsExist(allAvailableGroups);
      RegisterBatches(old(userUsableGroups), Values(defaultGroups) + Elems(allExtraGroups), Elems(allAvailableGroups));
    }

    // -------------------------------------------------------------------
    // Default group per registration method
    // -------------------------------------------------------------------

    method GetDefaultUserGroupsCopy() returns (copy: map<string, string>)
      ensures copy == defaultUserGroups
    {
      copy := CopyMap(defaultUserGroups);
    }

    /**
     * Replaces the table with the decoded JSON, storing "default" for empty
     * values and registering every other named group.
     */
    method UpdateDefaultUserGroupsByJSONString(parsed: Option<map<string, string>>) returns (ok: bool)
      modifies this`defaultUserGroups, this`userUsableGroups
      ensures ok <==> parsed.Some?
      ensures !ok ==> defaultUserGroups == old(defaultUserGroups) && userUsableGroups == old(userUsableGroups)
      ensures ok ==> defaultUserGroups == map m | m in parsed.value :: if parsed.value[m] == "" then Default else parsed.value[m]
      ensures ok ==> userUsableGroups == Registered(old(userUsableGroups), Registrable(Values(parsed.value)))
    {
      if parsed.None? {
        return false;
      }
      var newGroups := parsed.value;
      var methods := newGroups.Keys;
      ghost var before := userUsableGroups;
      RegisteredKnown(before, {});
      while methods != {}
        invariant methods <= parsed.value.Keys && newGroups.Keys == parsed.value.Keys
        invariant forall m <- newGroups ::
          newGroups[m] == (if m in methods || parsed.value[m] != "" then parsed.value[m] else Default)
        invariant userUsableGroups == Registered(before, Registrable(Values(parsed.value - methods)))
        decreases methods
      {
        var authMethod :| authMethod in methods;
        var group := newGroups[authMethod];
        ValuesStep(parsed.value, methods, authMethod);
        RegisterOne(before, Values(parsed.value - methods), group);
        if group == "" {
          newGroups := newGroups[authMethod := Default];
        } else {
          var known := GroupInUserUsableGroups(group);
          if group != Default && !known {
            if group !in userUsableGroups {
              userUsableGroups := userUsableGroups[group := group];
            }
          }
        }
        methods := methods - {authMethod};
      }
      assert parsed.value - {} == parsed.value;
      defaultUserGroups := newGroups;
      // The registration the source starts in the background finds every
      // group already registered.
      ghost var after := userUsableGroups;
      assert Values(newGroups) <= Values(parsed.value) + {Default};
      assert Registrable(Values(newGroups)) <= after.Keys;
      RegisteredKnown(after, Registrable(Values(newGroups)));
      ValidateAndRegisterUserGroups(newGroups);
      ok := true;
    }

    /** The group for a method, registered if unknown; "default" when unset or empty. */
    method GetDefaultUserGroupForMethod(authMethod: string) returns (group: string)
      modifies this`userUsableGroups
      ensures group == DefaultGroupFor(defaultUserGroups, authMethod)
      ensures userUsableGroups == Registered(old(userUsableGroups), Registrable({group}))
    {
      if authMethod !in defaultUserGroups || defaultUserGroups[authMethod] == "" {
        assert Registrable({Default}) == {};
        RegisteredKnown(userUsableGroups, {});
        return Default;
      }
      group := defaultUserGroups[authMethod];
      var known := GroupInUserUsableGroups(group);
      if group != Default && !known {
        var _ := EnsureUserGroupExists(group);
      } else {
        assert Registrable({group}) <= userUsableGroups.Keys;
        RegisteredKnown(userUsableGroups, Registrable({group}));
      }
    }

    method SetDefaultUserGroupForMethod(authMethod: string, group: string)
      modifies this`defaultUserGroups
      ensures defaultUserGroups == old(defaultUserGroups)[authMethod := group]
    {
      defaultUserGroups := defaultUserGroups[authMethod := group];
    }

    // -------------------------------------------------------------------
    // Available groups per user group
    // -------------------------------------------------------------------

    method GetGroupAvailableGroupsCopy() returns (copy: map<string, seq<string>>)
      ensures copy == groupAvailableGroups
    {
      copy := CopyMap(groupAvailableGroups);
    }

    /**
     * The inner loop over one kept key's list in
     * `UpdateGroupAvailableGroupsByJSONString`: every group is kept, and one
     * that is neither "default" nor known is registered.
     */
    method KeepAndRegister(availableGroups: seq<string>) returns (validGroups: seq<string>)
      modifies this`userUsableGroups
      ensures validGroups == availableGroups
      ensures userUsableGroups == Registered(old(userUsableGroups), Elems(availableGroups) - {Default})
    {
      validGroups := [];
      for j := 0 to |availableGroups|
        invariant validGroups == availableGroups[..j]
        invariant userUsableGroups == Registered(old(userUsableGroups), Elems(availableGroups[..j]) - {Default})
      {
        KeepOne(old(userUsableGroups), availableGroups, j);
        var group := availableGroups[j];
        var known := GroupInUserUsableGroups(group);
        if group != Default && !known {
          userUsableGroups := userUsableGroups[group := group];
        }
        validGroups := validGroups + [group];
      }
      assert availableGroups[..|availableGroups|] == availableGroups;
    }

    /**
     * The loop of `UpdateGroupAvailableGroupsByJSONString` over the decoded
     * keys, visited in `order`.
     */
    method KeepRegisteredKeys(parsed: map<string, seq<string>>, order: seq<string>)
      returns (newGroups: map<string, seq<string>>)
      requires NoDup(order) && Elems(order) == parsed.Keys
      modifies this`userUsableGroups
      ensures newGroups == parsed - AvailableFold(order, parsed, old(userUsableGroups)).0
      ensures userUsableGroups == AvailableFold(order, parsed, old(userUsableGroups)).1
    {
      newGroups := parsed;
      ghost var dropped: set<string> := {};
      assert order[0..] == order;
      for i := 0 to |order|
        invariant dropped <= Elems(order[..i])
        invariant newGroups == parsed - dropped
        invariant AvailableFold(order, parsed, old(userUsableGroups)).0
               == dropped + AvailableFold(order[i..], parsed, userUsableGroups).0
        invariant AvailableFold(order, parsed, old(userUsableGroups)).1
               == AvailableFold(order[i..], parsed, userUsableGroups).1
      {
        AvailableFoldUnfold(order, i, parsed, userUsableGroups);
        ElemsStep(order, i);
        var userGroup := order[i];
        assert userGroup !in Elems(order[..i]);
        var knownKey := GroupInUserUsableGroups(userGroup);
        if userGroup != Default && !knownKey {
          assert (parsed - dropped) - {userGroup} == parsed - (dropped + {userGroup});
          newGroups := newGroups - {userGroup};
          dropped := dropped + {userGroup};
        } else {
          var validGroups := KeepAndRegister(parsed[userGroup]);
          assert (parsed - dropped)[userGroup := parsed[userGroup]] == parsed - dropped;
          newGroups := newGroups[userGroup := validGroups];
        }
      }
    }

    /**
     * Replaces the table with the decoded JSON. `order` is the order in
     * which Go visits the decoded keys. Keys dropped by the fold go; kept
     * keys keep their lists as given.
     */
    method UpdateGroupAvailableGroupsByJSONString(parsed: Option<map<string, seq<string>>>, order: seq<string>)
      returns (ok: bool)
      requires parsed.Some? ==> NoDup(order) && Elems(order) == parsed.value.Keys
      modifies this`groupAvailableGroups, this`userUsableGroups
      ensures ok <==> parsed.Some?
      ensures !ok ==> groupAvailableGroups == old(groupAvailableGroups) && userUsableGroups == old(userUsableGroups)
      ensures ok ==>
        && groupAvailableGroups == parsed.value - AvailableFold(order, parsed.value, old(userUsableGroups)).0
        && userUsableGroups == AvailableFold(order, parsed.value, old(userUsableGroups)).1
    {
      if parsed.None? {
        return false;
      }
      var newGroups := KeepRegisteredKeys(parsed.value, order);
      groupAvailableGroups := newGroups;
      // The background registration of every listed group finds them all
      // registered already.
      var allGroups := Flatten(newGroups);
      AvailableFoldListed(order, parsed.value, old(userUsableGroups));
      RegisteredKnown(userUsableGroups, Registrable(Elems(allGroups)));
      EnsureUserGroupsExist(allGroups);
      ok := true;
    }

    /**
     * The first pass of the two getters below: the list without its empty
     * entries, and whether some entry still needs registering.
     */
    method CheckListed(groups: seq<string>) returns (validGroups: seq<string>, needsRegistration: bool)
      ensures validGroups == NonEmpty(groups)
      ensures needsRegistration <==> !(Registrable(Elems(groups)) <= userUsableGroups.Keys)
    {
      validGroups := [];
      needsRegistration := false;
      for i := 0 to |groups|
        invariant validGroups == NonEmpty(groups[..i])
        invariant needsRegistration <==> !(Registrable(Elems(groups[..i])) <= userUsableGroups.Keys)
      {
        NonEmptyStep(groups, i);
        ElemsStep(groups, i);
        var group := groups[i];
        assert Registrable(Elems(groups[..i + 1])) == Registrable(Elems(groups[..i])) + Registrable({group});
        if group == "" {
          continue;
        }
        var known := GroupInUserUsableGroups(group);
        if group == Default || known {
          validGroups := validGroups + [group];
        } else {
          needsRegistration := true;
          validGroups := validGroups + [group];
        }
      }
      assert groups[..|groups|] == groups;
    }

    /**
     * The second pass of the two getters below, run under the write lock:
     * registers every entry that is not empty, "default" or known.
     */
    method RegisterListed(groups: seq<string>)
      modifies this`userUsableGroups
      ensures userUsableGroups == Registered(old(userUsableGroups), Registrable(Elems(groups)))
    {
      RegisteredKnown(userUsableGroups, {});
      assert Registrable(Elems(groups[..0])) == {};
      for i := 0 to |groups|
        invariant userUsableGroups == Registered(old(userUsableGroups), Registrable(Elems(groups[..i])))
      {
        ElemsStep(groups, i);
        var group := groups[i];
        RegisterOne(old(userUsableGroups), Elems(groups[..i]), group);
        var known := GroupInUserUsableGroups(group);
        if group != "" && group != Default && !known {
          userUsableGroups := userUsableGroups[group := group];
        }
      }
      assert groups[..|groups|] == groups;
    }

    /** The groups a user group may pick (see AvailableFor); unknown listed groups get registered. */
    method GetAvailableGroupsForUserGroup(userGroup: string) returns (validGroups: seq<string>)
      modifies this`userUsableGroups
      ensures validGroups == AvailableFor(groupAvailableGroups, userGroup)
      ensures userGroup in groupAvailableGroups ==>
        userUsableGroups == Registered(old(userUsableGroups), Registrable(Elems(groupAvailableGroups[userGroup])))
      ensures userGroup !in groupAvailableGroups ==> userUsableGroups == old(userUsableGroups)
    {
      if userGroup in groupAvailableGroups {
        var groups := groupAvailableGroups[userGroup];
        var needsRegistration;
        validGroups, needsRegistration := CheckListed(groups);
        if needsRegistration {
          // The source takes the write lock here and then asks for a read
          // lock on the same mutex; the model registers as intended.
          RegisterListed(groups);
        } else {
          RegisteredKnown(userUsableGroups, Registrable(Elems(groups)));
        }
        return validGroups;
      }
      if userGroup == Default {
        return [Default, "premium"];
      }
      validGroups := [userGroup, Default];
    }

    method SetAvailableGroupsForUserGroup(userGroup: string, groups: seq<string>)
      modifies this`groupAvailableGroups
      ensures groupAvailableGroups == old(groupAvailableGroups)[userGroup := groups]
    {
      groupAvailableGroups := groupAvailableGroups[userGroup := groups];
    }

    // -------------------------------------------------------------------
    // Extra groups per registration method
    // -------------------------------------------------------------------

    method GetDefaultExtraUserGroupsCopy() returns (copy: map<string, seq<string>>)
      ensures copy == defaultExtraUserGroups
    {
      copy := CopyMap(defaultExtraUserGroups);
    }

    /**
     * The inner loop over one method's list in
     * `UpdateDefaultExtraUserGroupsByJSONString`: empty entries go, and a
     * group that is neither "default" nor known is registered.
     */
    method FilterAndRegister(groups: seq<string>) returns (validGroups: seq<string>)
      modifies this`userUsableGroups
      ensures validGroups == NonEmpty(groups)
      ensures userUsableGroups == Registered(old(userUsableGroups), Registrable(Elems(groups)))
    {
      validGroups := [];
      RegisteredKnown(userUsableGroups, {});
      assert Registrable(Elems(groups[..0])) == {};
      for i := 0 to |groups|
        invariant validGroups == NonEmpty(groups[..i])
        invariant userUsableGroups == Registered(old(userUsableGroups), Registrable(Elems(groups[..i])))
      {
        NonEmptyStep(groups, i);
        ElemsStep(groups, i);
        var group := groups[i];
        RegisterOne(old(userUsableGroups), Elems(groups[..i]), group);
        if group == "" {
          continue;
        }
        var known := GroupInUserUsableGroups(group);
        if group == Default || known {
          validGroups := validGroups + [group];
        } else {
          if group !in userUsableGroups {
            userUsableGroups := userUsableGroups[group := group];
          }
          validGroups := validGroups + [group];
        }
      }
      assert groups[..|groups|] == groups;
    }

    /**
     * Replaces the table with the decoded JSON, each list without its empty
     * entries, and registers every other listed group.
     */
    method UpdateDefaultExtraUserGroupsByJSONString(parsed: Option<map<string, seq<string>>>) returns (ok: bool)
      modifies this`defaultExtraUserGroups, this`userUsableGroups
      ensures ok <==> parsed.Some?
      ensures !ok ==> defaultExtraUserGroups == old(defaultExtraUserGroups) && userUsableGroups == old(userUsableGroups)
      ensures ok ==> defaultExtraUserGroups == map m | m in parsed.value :: NonEmpty(parsed.value[m])
      ensures ok ==> userUsableGroups == Registered(old(userUsableGroups), Registrable(Listed(parsed.value)))
    {
      if parsed.None? {
        return false;
      }
      var newGroups := parsed.value;
      var methods := newGroups.Keys;
      ghost var before := userUsableGroups;
      assert Listed(parsed.value - methods) == {};
      RegisteredKnown(before, {});
      while methods != {}
        invariant methods <= parsed.value.Keys && newGroups.Keys == parsed.value.Keys
        invariant forall m <- newGroups ::
          newGroups[m] == (if m in methods then parsed.value[m] else NonEmpty(parsed.value[m]))
        invariant userUsableGroups == Registered(before, Registrable(Listed(parsed.value - methods)))
        decreases methods
      {
        var authMethod :| authMethod in methods;
        var groups := newGroups[authMethod];
        var validGroups := FilterAndRegister(groups);
        newGroups := newGroups[authMethod := validGroups];
        ListedStep(parsed.value, methods, authMethod);
        RegisterBatches(before, Listed(parsed.value - methods), Elems(groups));
        methods := methods - {authMethod};
      }
      assert parsed.value - {} == parsed.value;
      defaultExtraUserGroups := newGroups;
      // The background registration of every listed group finds them all
      // registered already.
      var allGroups := Flatten(newGroups);
      FilteredListed(parsed.value, newGroups);
      RegisteredKnown(userUsableGroups, Registrable(Elems(allGroups)));
      EnsureUserGroupsExist(allGroups);
      ok := true;
    }

    /** The extra groups for a method without empty entries, registering unknown ones; none for an unknown method. */
    method GetDefaultExtraUserGroupsForMethod(authMethod: string) returns (validGroups: seq<string>)
      modifies this`userUsableGroups
      ensures authMethod !in defaultExtraUserGroups ==> validGroups == [] && userUsableGroups == old(userUsableGroups)
      ensures authMethod in defaultExtraUserGroups ==>
        && validGroups == NonEmpty(defaultExtraUserGroups[authMethod])
        && userUsableGroups == Registered(old(userUsableGroups), Registrable(Elems(defaultExtraUserGroups[authMethod])))
    {
      if authMethod !in defaultExtraUserGroups {
        return [];
      }
      var groups := defaultExtraUserGroups[authMethod];
      var needsRegistration;
      validGroups, needsRegistration := CheckListed(groups);
      if needsRegistration {
        // As in GetAvailableGroupsForUserGroup, the source asks for a read
        // lock under its own write lock here; the model registers as intended.
        RegisterListed(groups);
      } else {
        RegisteredKnown(userUsableGroups, Registrable(Elems(groups)));
      }
    }

    method SetDefaultExtraUserGroupsForMethod(authMethod: string, groups: seq<string>)
      modifies this`defaultExtraUserGroups
      ensures defaultExtraUserGroups == old(defaultExtraUserGroups)[authMethod := groups]
    {
      defaultExtraUserGroups := defaultExtraUserGroups[authMethod := groups];
    }
  }
}
