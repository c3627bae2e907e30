/** The admin handlers that change the store: device/group reconciliation,
    a single app install, and application/group reconciliation. The database
    is plain state on one object; a push is an entry appended to a log. */
module Admin {
  import opened MdmTypes
  import opened DeviceMembership
  import opened AppMembership

  class MdmStore {
    /** The MDMGroup table, in the order the queries return it. */
    var groups: seq<GroupId>
    /** The profile/group association: each group's profile rows, in query order. */
    var groupProfiles: map<GroupId, seq<ProfileRef>>
    /** The Device table (its keys) and each device's groups. */
    var deviceGroups: map<DeviceId, set<GroupId>>
    /** The App table (its keys) and each app's group rows with `install_early`. */
    var appGroups: map<AppId, map<GroupId, bool>>
    /** Each device's queued commands, oldest first. */
    var queues: map<DeviceId, seq<Command>>
    /** Every `push_to_device` call, in order. */
    var pushes: seq<DeviceId>

    /** Group ids are primary keys, every device has a queue, and a device's
        groups are rows of the group table. */
    ghost predicate Valid()
      reads this
    {
      && Distinct(groups)
      && queues.Keys == deviceGroups.Keys
      && forall d :: d in deviceGroups ==> deviceGroups[d] <= Elements(groups)
    }

    constructor (groups: seq<GroupId>, groupProfiles: map<GroupId, seq<ProfileRef>>,
                 deviceGroups: map<DeviceId, set<GroupId>>, appGroups: map<AppId, map<GroupId, bool>>)
      requires Distinct(groups)
      requires forall d :: d in deviceGroups ==> deviceGroups[d] <= Elements(groups)
      ensures Valid()
      ensures this.groups == groups && this.groupProfiles == groupProfiles
      ensures this.deviceGroups == deviceGroups && this.appGroups == appGroups
      ensures forall d :: d in queues ==> queues[d] == []
      ensures pushes == []
    {
      this.groups := groups;
      this.groupProfiles := groupProfiles;
      this.deviceGroups := deviceGroups;
      this.appGroups := appGroups;
      queues := map d | d in deviceGroups :: [];
      pushes := [];
    }

    /** `install_group_profiles_to_device`: queues one InstallProfile per
        profile of group `g` for device `d`, keyed by the profile's id. */
    method InstallGroupProfiles(g: GroupId, d: DeviceId)
      requires Valid() && d in queues
      modifies this
      ensures Valid()
      ensures queues == old(queues)[d := old(queues[d]) + ProfileInstalls(ProfilesOf(groupProfiles, g))]
      ensures groups == old(groups) && groupProfiles == old(groupProfiles) && deviceGroups == old(deviceGroups)
      ensures appGroups == old(appGroups) && pushes == old(pushes)
    {
      var ps := ProfilesOf(groupProfiles, g);
      assert ps[..0] == [] && old(queues)[d] + [] == old(queues)[d];
      for i := 0 to |ps|
        invariant queues == old(queues)[d := old(queues[d]) + ProfileInstalls(ps[..i])]
        invariant groups == old(groups) && groupProfiles == old(groupProfiles) && deviceGroups == old(deviceGroups)
        invariant appGroups == old(appGroups) && pushes == old(pushes)
      {
        assert ProfileInstalls(ps[..i + 1]) == ProfileInstalls(ps[..i]) + [InstallProfile(ps[i].id)];
        queues := queues[d := queues[d] + [InstallProfile(ps[i].id)]];
        assert queues[d] == old(queues)[d] + ProfileInstalls(ps[..i + 1]);
      }
      assert ps[..|ps|] == ps;
    }

    /** `remove_group_profiles_from_device`: queues one RemoveProfile per
        profile of group `g` for device `d`, keyed by the profile's
        identifier string. */
    method RemoveGroupProfiles(g: GroupId, d: DeviceId)
      requires Valid() && d in queues
      modifies this
      ensures Valid()
      ensures queues == old(queues)[d := old(queues[d]) + ProfileRemovals(ProfilesOf(groupProfiles, g))]
      ensures groups == old(groups) && groupProfiles == old(groupProfiles) && deviceGroups == old(deviceGroups)
      ensures appGroups == old(appGroups) && pushes == old(pushes)
    {
      var ps := ProfilesOf(groupProfiles, g);
      assert ps[..0] == [] && old(queues)[d] + [] == old(queues)[d];
      for i := 0 to |ps|
        invariant queues == old(queues)[d := old(queues[d]) + ProfileRemovals(ps[..i])]
        invariant groups == old(groups) && groupProfiles == old(groupProfiles) && deviceGroups == old(deviceGroups)
        invariant appGroups == old(appGroups) && pushes == old(pushes)
      {
        assert ProfileRemovals(ps[..i + 1]) == ProfileRemovals(ps[..i]) + [RemoveProfile(ps[i].identifier)];
        queues := queues[d := queues[d] + [RemoveProfile(ps[i].identifier)]];
        assert queues[d] == old(queues)[d] + ProfileRemovals(ps[..i + 1]);
      }
      assert ps[..|ps|] == ps;
    }

    /** The loop over `group_additions`: the profiles of each added group are
        queued for `d`, group by group. */
    method QueueAdditions(additions: seq<GroupId>, d: DeviceId)
      requires Valid() && d in queues
      modifies this
      ensures Valid()
      ensures queues == old(queues)[d := old(queues)[d] + GroupInstalls(additions, groupProfiles)]
      ensures groups == old(groups) && groupProfiles == old(groupProfiles) && deviceGroups == old(deviceGroups)
      ensures appGroups == old(appGroups) && pushes == old(pushes)
    {
      assert additions[..0] == [] && old(queues)[d] + [] == old(queues)[d];
      for i := 0 to |additions|
        invariant Valid()
        invariant queues == old(queues)[d := old(queues)[d] + GroupInstalls(additions[..i], groupProfiles)]
        invariant groups == old(groups) && groupProfiles == old(groupProfiles) && deviceGroups == old(deviceGroups)
        invariant appGroups == old(appGroups) && pushes == old(pushes)
      {
        assert additions[..i + 1][..i] == additions[..i];
        assert GroupInstalls(additions[..i + 1], groupProfiles)
            == GroupInstalls(additions[..i], groupProfiles) + ProfileInstalls(ProfilesOf(groupProfiles, additions[i]));
        InstallGroupProfiles(additions[i], d);
        assert queues[d] == old(queues)[d] + GroupInstalls(additions[..i + 1], groupProfiles);
      }
      assert additions[..|additions|] == additions;
    }

    /** The loop over `group_removals`: the profiles of each removed group are
        queued for removal from `d`, group by group. */
    method QueueRemovals(removals: seq<GroupId>, d: DeviceId)
      requires Valid() && d in queues
      modifies this
      ensures Valid()
      ensures queues == old(queues)[d := old(queues)[d] + GroupRemovals(removals, groupProfiles)]
      ensures groups == old(groups) && groupProfiles == old(groupProfiles) && deviceGroups == old(deviceGroups)
      ensures appGroups == old(appGroups) && pushes == old(pushes)
    {
      assert removals[..0] == [] && old(queues)[d] + [] == old(queues)[d];
      for i := 0 to |removals|
        invariant Valid()
        invariant queues == old(queues)[d := old(queues)[d] + GroupRemovals(removals[..i], groupProfiles)]
        invariant groups == old(groups) && groupProfiles == old(groupProfiles) && deviceGroups == old(deviceGroups)
        invariant appGroups == old(appGroups) && pushes == old(pushes)
      {
        assert removals[..i + 1][..i] == removals[..i];
        assert GroupRemovals(removals[..i + 1], groupProfiles)
            == GroupRemovals(removals[..i], groupProfiles) + ProfileRemovals(ProfilesOf(groupProfiles, removals[i]));
        RemoveGroupProfiles(removals[i], d);
        assert queues[d] == old(queues)[d] + GroupRemovals(removals[..i + 1], groupProfiles);
      }
      assert removals[..|removals|] == removals;
    }


    /** `admin_device_groupmod`: reconciles device `d`'s groups with the
        submitted group ids. The device's groups become the existing groups
        whose id was submitted; the added groups' installs and then the removed
        groups' removals are queued for `d`; `d` is pushed once, and only when
        some group was added or removed. Additions and removals are those of
        the truthiness test on the joined device column, which for any device
        id but 0 are the intended ones. An unknown device changes nothing. */
    method DeviceGroupmod(d: DeviceId, submitted: seq<GroupId>) returns (r: Outcome)
      requires Valid()
      modifies this
      ensures Valid()
      ensures groups == old(groups) && groupProfiles == old(groupProfiles) && appGroups == old(appGroups)
      ensures d !in old(deviceGroups) ==>
        && r == Failed(NoSuchDevice(d))
        && deviceGroups == old(deviceGroups) && queues == old(queues) && pushes == old(pushes)
      ensures d in old(deviceGroups) ==>
        var wanted := Elements(submitted);
        var current := old(deviceGroups)[d];
        && r == Done
        && deviceGroups == old(deviceGroups)[d := NewMembership(groups, wanted)]
        && queues == old(queues)[d := old(queues)[d] + GroupmodCommandsAsWritten(groups, groupProfiles, current, wanted, d)]
        && pushes == old(pushes)
             + (if AdditionsAsWritten(groups, current, wanted, d) != [] || RemovalsAsWritten(groups, current, wanted, d) != []
                then [d] else [])
      ensures d in old(deviceGroups) && d != 0 ==>
        var wanted := Elements(submitted);
        var current := old(deviceGroups)[d];
        && queues == old(queues)[d := old(queues)[d] + GroupmodCommands(groups, groupProfiles, current, wanted)]
        && pushes == old(pushes)
             + (if Additions(groups, current, wanted) != [] || Removals(groups, current, wanted) != [] then [d] else [])
    {
      if d !in deviceGroups {
        return Failed(NoSuchDevice(d));
      }
      var wanted := Elements(submitted);
      var additions, removals := ClassifyGroups(groups, deviceGroups[d], d, wanted);

      ghost var current := deviceGroups[d];
      deviceGroups := deviceGroups[d := NewMembership(groups, wanted)];
      // first commit: the membership is stored before any command is queued
      QueueAdditions(additions, d);
      QueueRemovals(removals, d);
      assert queues == old(queues)[d := old(queues)[d] + GroupInstalls(additions, groupProfiles)
                                          + GroupRemovals(removals, groupProfiles)];
      ghost var batch := GroupmodCommandsAsWritten(groups, groupProfiles, current, wanted, d);
      assert batch == GroupInstalls(additions, groupProfiles) + GroupRemovals(removals, groupProfiles);
      Concat3(old(queues)[d], GroupInstalls(additions, groupProfiles), GroupRemovals(removals, groupProfiles));
      if removals != [] || additions != [] {
        // second commit, then the one push
        pushes := pushes + [d];
      }
      if d != 0 {
        AdditionsAsWrittenAgree(groups, current, wanted, d);
        RemovalsAsWrittenAgree(groups, current, wanted, d);
      }
      assert Valid();
      assert deviceGroups == old(deviceGroups)[d := NewMembership(groups, wanted)];
      return Done;
    }

    /** `admin_device_appinst`: queues one AppInstall of `app` for device `d`
        and pushes `d` once. The app id is not looked up. An unknown device
        changes nothing. */
    method DeviceAppInstall(d: DeviceId, app: AppId) returns (r: Outcome)
      requires Valid()
      modifies this
      ensures Valid()
      ensures groups == old(groups) && groupProfiles == old(groupProfiles)
      ensures deviceGroups == old(deviceGroups) && appGroups == old(appGroups)
      ensures d !in old(deviceGroups) ==>
        r == Failed(NoSuchDevice(d)) && queues == old(queues) && pushes == old(pushes)
      ensures d in old(deviceGroups) ==>
        && r == Done
        && queues == old(queues)[d := old(queues)[d] + [AppInstall(app)]]
        && pushes == old(pushes) + [d]
    {
      if d !in deviceGroups {
        return Failed(NoSuchDevice(d));
      }
      queues := queues[d := queues[d] + [AppInstall(app)]];
      pushes := pushes + [d];
      return Done;
    }

    /** `admin_app_manage_groupmod`: rewrites app `app`'s group rows so that
        they are exactly the submitted `group_id`s, each flagged
        `install_early` when that id was also submitted as `install_early`.
        Kept rows have their flag overwritten, dropped rows are deleted, new
        rows are inserted. Nothing is queued and nothing is pushed. An unknown
        app changes nothing. */
    method AppManageGroupmod(app: AppId, formGroups: seq<GroupId>, formInstallEarly: seq<GroupId>)
      returns (r: Outcome)
      requires Valid()
      modifies this
      ensures Valid()
      ensures groups == old(groups) && groupProfiles == old(groupProfiles) && deviceGroups == old(deviceGroups)
      ensures queues == old(queues) && pushes == old(pushes)
      ensures app !in old(appGroups) ==> r == Failed(NoSuchApp(app)) && appGroups == old(appGroups)
      ensures app in old(appGroups) ==>
        && r == Done
        && app in appGroups
        && appGroups == old(appGroups)[app := appGroups[app]]
        && appGroups[app].Keys == Elements(formGroups)
        && forall g :: g in appGroups[app] ==> (appGroups[app][g] <==> g in formInstallEarly)
    {
      if app !in appGroups {
        return Failed(NoSuchApp(app));
      }
      var before := appGroups[app];
      var desired := DesiredAppGroups(formGroups, formInstallEarly);
      var split := SplitGroups(before.Keys, desired.Keys);
      // the association rows as the session sees them until the commit
      var rows := OverwriteKept(before, split.same, desired);
      if split.delete != {} {
        rows := rows - split.delete;
      }
      rows := InsertAdded(rows, split.add, desired);
      assert rows.Keys == desired.Keys;
      appGroups := appGroups[app := rows];
      return Done;
    }
  }

  lemma Concat3<T>(q: seq<T>, a: seq<T>, b: seq<T>)
    ensures q + a + b == q + (a + b)
  {
  }
}
