/** The device/group diff of `admin_device_groupmod` and the commands derived
    from it, as functions over the store's values, with the facts the handler
    relies on. The imperative handler itself is `Admin.MdmStore.DeviceGroupmod`. */
module DeviceMembership {
  import opened MdmTypes

  /** The profiles attached to a group: the rows of the profile/group join
      filtered on the group id (no rows when the group has no entry). */
  function ProfilesOf(groupProfiles: map<GroupId, seq<ProfileRef>>, g: GroupId): seq<ProfileRef> {
    if g in groupProfiles then groupProfiles[g] else []
  }

  // ---------------------------------------------------------------------
  // Reading the outer join
  // ---------------------------------------------------------------------

  /** The `device_group_assoc.c.device_id` column of the outer join for group
      `g`: the device's id when the device is in the group, SQL NULL otherwise. */
  function JoinedDeviceColumn(current: set<GroupId>, d: DeviceId, g: GroupId): (col: Option<DeviceId>)
    ensures col.Some? <==> g in current
    ensures col.Some? ==> col.value == d
  {
    if g in current then Some(d) else None
  }

  /** `if dev_id:` as written: Python truthiness, so a NULL column and a
      device id of 0 both read as "not in the group". */
  predicate InGroupAsWritten(col: Option<DeviceId>) {
    col.Some? && col.value != 0
  }

  /** The intended reading of the join column: the row matched. */
  predicate InGroup(col: Option<DeviceId>) {
    col.Some?
  }

  lemma InGroupMeansMember(current: set<GroupId>, d: DeviceId, g: GroupId)
    ensures InGroup(JoinedDeviceColumn(current, d, g)) <==> g in current
    ensures d != 0 ==> (InGroupAsWritten(JoinedDeviceColumn(current, d, g)) <==> g in current)
  {
  }

  // ---------------------------------------------------------------------
  // Additions and removals
  // ---------------------------------------------------------------------

  /** The groups, in query order, that the device is not in and whose id was
      submitted: `group_additions` under the intended reading of the join. */
  function Additions(groups: seq<GroupId>, current: set<GroupId>, wanted: set<GroupId>): seq<GroupId>
  {
    if groups == [] then []
    else
      var g := groups[|groups| - 1];
      Additions(groups[..|groups| - 1], current, wanted) + (if g !in current && g in wanted then [g] else [])
  }

  /** The groups, in query order, that the device is in and whose id was not
      submitted: `group_removals` under the intended reading of the join. */
  function Removals(groups: seq<GroupId>, current: set<GroupId>, wanted: set<GroupId>): seq<GroupId>
  {
    if groups == [] then []
    else
      var g := groups[|groups| - 1];
      Removals(groups[..|groups| - 1], current, wanted) + (if g in current && g !in wanted then [g] else [])
  }

  /** The additions computed with the as-written reading of the join column. */
  function AdditionsAsWritten(groups: seq<GroupId>, current: set<GroupId>, wanted: set<GroupId>, d: DeviceId): seq<GroupId>
  {
    if groups == [] then []
    else
      var g := groups[|groups| - 1];
      AdditionsAsWritten(groups[..|groups| - 1], current, wanted, d)
        + (if !InGroupAsWritten(JoinedDeviceColumn(current, d, g)) && g in wanted then [g] else [])
  }

  /** The removals computed with the as-written reading of the join column. */
  function RemovalsAsWritten(groups: seq<GroupId>, current: set<GroupId>, wanted: set<GroupId>, d: DeviceId): seq<GroupId>
  {
    if groups == [] then []
    else
      var g := groups[|groups| - 1];
      RemovalsAsWritten(groups[..|groups| - 1], current, wanted, d)
        + (if InGroupAsWritten(JoinedDeviceColumn(current, d, g)) && g !in wanted then [g] else [])
  }

  /** A group is an addition exactly when it exists, the device is not in it
      and its id was submitted. */
  lemma {:induction false} AdditionsMembership(groups: seq<GroupId>, current: set<GroupId>, wanted: set<GroupId>, g: GroupId)
    ensures g in Additions(groups, current, wanted) <==> g in groups && g !in current && g in wanted
  {
    if groups != [] {
      var init := groups[..|groups| - 1];
      AdditionsMembership(init, current, wanted, g);
      assert groups == init + [groups[|groups| - 1]];
    }
  }

  /** A group is a removal exactly when it exists, the device is in it and
      its id was not submitted. */
  lemma {:induction false} RemovalsMembership(groups: seq<GroupId>, current: set<GroupId>, wanted: set<GroupId>, g: GroupId)
    ensures g in Removals(groups, current, wanted) <==> g in groups && g in current && g !in wanted
  {
    if groups != [] {
      var init := groups[..|groups| - 1];
      RemovalsMembership(init, current, wanted, g);
      assert groups == init + [groups[|groups| - 1]];
    }
  }

  /** Additions and removals never share a group. */
  lemma AdditionsRemovalsDisjoint(groups: seq<GroupId>, current: set<GroupId>, wanted: set<GroupId>)
    ensures Elements(Additions(groups, current, wanted)) !! Elements(Removals(groups, current, wanted))
  {
    forall g | g in Additions(groups, current, wanted)
      ensures g !in Removals(groups, current, wanted)
    {
      AdditionsMembership(groups, current, wanted, g);
      RemovalsMembership(groups, current, wanted, g);
    }
  }

  /** A sub-sequence filter of a duplicate-free table is duplicate-free:
      each group is acted on at most once. */
  lemma {:induction false} AdditionsDistinct(groups: seq<GroupId>, current: set<GroupId>, wanted: set<GroupId>)
    requires Distinct(groups)
    ensures Distinct(Additions(groups, current, wanted))
  {
    if groups != [] {
      var init := groups[..|groups| - 1];
      var g := groups[|groups| - 1];
      AdditionsDistinct(init, current, wanted);
      assert forall k :: 0 <= k < |init| ==> init[k] == groups[k] != g;
      AdditionsMembership(init, current, wanted, g);
      assert g !in Additions(init, current, wanted);
    }
  }

  lemma {:induction false} RemovalsDistinct(groups: seq<GroupId>, current: set<GroupId>, wanted: set<GroupId>)
    requires Distinct(groups)
    ensures Distinct(Removals(groups, current, wanted))
  {
    if groups != [] {
      var init := groups[..|groups| - 1];
      var g := groups[|groups| - 1];
      RemovalsDistinct(init, current, wanted);
      assert forall k :: 0 <= k < |init| ==> init[k] == groups[k] != g;
      RemovalsMembership(init, current, wanted, g);
      assert g !in Removals(init, current, wanted);
    }
  }

  /** The device's new group list: every existing group whose id was
      submitted. Submitted ids that name no group are dropped. */
  function NewMembership(groups: seq<GroupId>, wanted: set<GroupId>): (r: set<GroupId>)
    ensures r <= Elements(groups)
    ensures forall g :: g in r <==> g in groups && g in wanted
  {
    set g | g in groups && g in wanted
  }

  /** The new membership is the old one with the removals taken out and the
      additions put in, when the old one names existing groups only. */
  lemma {:induction false} MembershipConverges(groups: seq<GroupId>, current: set<GroupId>, wanted: set<GroupId>)
    requires current <= Elements(groups)
    ensures NewMembership(groups, wanted)
         == (current - Elements(Removals(groups, current, wanted))) + Elements(Additions(groups, current, wanted))
  {
    forall g ensures g in NewMembership(groups, wanted) <==>
        g in (current - Elements(Removals(groups, current, wanted))) + Elements(Additions(groups, current, wanted))
    {
      AdditionsMembership(groups, current, wanted, g);
      RemovalsMembership(groups, current, wanted, g);
    }
  }

  /** Some group is added or removed exactly when the device's membership
      actually changes; this is when the device is pushed. */
  lemma DeltaIffMembershipChanges(groups: seq<GroupId>, current: set<GroupId>, wanted: set<GroupId>)
    requires current <= Elements(groups)
    ensures (Additions(groups, current, wanted) != [] || Removals(groups, current, wanted) != [])
        <==> NewMembership(groups, wanted) != current
  {
    var a := Additions(groups, current, wanted);
    var r := Removals(groups, current, wanted);
    MembershipConverges(groups, current, wanted);
    if a != [] {
      AdditionsMembership(groups, current, wanted, a[0]);
      assert a[0] in NewMembership(groups, wanted) && a[0] !in current;
    }
    if r != [] {
      RemovalsMembership(groups, current, wanted, r[0]);
      assert r[0] in current && r[0] !in NewMembership(groups, wanted);
    }
    if a == [] && r == [] {
      assert Elements(a) == {} && Elements(r) == {};
    }
  }

  /** Submitting the groups the device is already in changes nothing. */
  lemma NoChangeNoDelta(groups: seq<GroupId>, current: set<GroupId>, wanted: set<GroupId>)
    requires wanted == current
    ensures Additions(groups, current, wanted) == []
    ensures Removals(groups, current, wanted) == []
  {
    var a := Additions(groups, current, wanted);
    var r := Removals(groups, current, wanted);
    if a != [] {
      AdditionsMembership(groups, current, wanted, a[0]);
    }
    if r != [] {
      RemovalsMembership(groups, current, wanted, r[0]);
    }
  }

  /** Re-submitting the same ids after a reconciliation finds nothing to do. */
  lemma ResubmitNoDelta(groups: seq<GroupId>, wanted: set<GroupId>)
    ensures Additions(groups, NewMembership(groups, wanted), wanted) == []
    ensures Removals(groups, NewMembership(groups, wanted), wanted) == []
  {
    var cur := NewMembership(groups, wanted);
    var a := Additions(groups, cur, wanted);
    var r := Removals(groups, cur, wanted);
    if a != [] {
      AdditionsMembership(groups, cur, wanted, a[0]);
    }
    if r != [] {
      RemovalsMembership(groups, cur, wanted, r[0]);
    }
  }

  // ---------------------------------------------------------------------
  // Commands derived from the delta
  // ---------------------------------------------------------------------

  /** `install_group_profiles_to_device`: one InstallProfile per attached
      profile, keyed by the profile's database id. */
  function ProfileInstalls(ps: seq<ProfileRef>): (r: seq<Command>)
    ensures |r| == |ps|
    ensures forall k :: 0 <= k < |ps| ==> r[k] == InstallProfile(ps[k].id)
  {
    seq(|ps|, k requires 0 <= k < |ps| => InstallProfile(ps[k].id))
  }

  /** `remove_group_profiles_from_device`: one RemoveProfile per attached
      profile, keyed by the profile's identifier string. */
  function ProfileRemovals(ps: seq<ProfileRef>): (r: seq<Command>)
    ensures |r| == |ps|
    ensures forall k :: 0 <= k < |ps| ==> r[k] == RemoveProfile(ps[k].identifier)
  {
    seq(|ps|, k requires 0 <= k < |ps| => RemoveProfile(ps[k].identifier))
  }

  /** The install commands of a sequence of added groups, group by group. */
  function GroupInstalls(gs: seq<GroupId>, groupProfiles: map<GroupId, seq<ProfileRef>>): seq<Command>
  {
    if gs == [] then []
    else GroupInstalls(gs[..|gs| - 1], groupProfiles) + ProfileInstalls(ProfilesOf(groupProfiles, gs[|gs| - 1]))
  }

  /** The removal commands of a sequence of removed groups, group by group. */
  function GroupRemovals(gs: seq<GroupId>, groupProfiles: map<GroupId, seq<ProfileRef>>): seq<Command>
  {
    if gs == [] then []
    else GroupRemovals(gs[..|gs| - 1], groupProfiles) + ProfileRemovals(ProfilesOf(groupProfiles, gs[|gs| - 1]))
  }

  /** What one reconciliation appends to the device's queue: the additions'
      commands first, then the removals'. */
  function GroupmodCommands(groups: seq<GroupId>, groupProfiles: map<GroupId, seq<ProfileRef>>,
                            current: set<GroupId>, wanted: set<GroupId>): seq<Command>
  {
    GroupInstalls(Additions(groups, current, wanted), groupProfiles)
      + GroupRemovals(Removals(groups, current, wanted), groupProfiles)
  }

  /** What the handler as written appends: the same batch built from the
      as-written additions and removals. */
  function GroupmodCommandsAsWritten(groups: seq<GroupId>, groupProfiles: map<GroupId, seq<ProfileRef>>,
                                     current: set<GroupId>, wanted: set<GroupId>, d: DeviceId): seq<Command>
  {
    GroupInstalls(AdditionsAsWritten(groups, current, wanted, d), groupProfiles)
      + GroupRemovals(RemovalsAsWritten(groups, current, wanted, d), groupProfiles)
  }

  /** Every install command installs a profile of some added group, by id, and
      every profile of every added group is installed. */
  lemma {:induction false} GroupInstallsExact(gs: seq<GroupId>, groupProfiles: map<GroupId, seq<ProfileRef>>, c: Command)
    ensures c in GroupInstalls(gs, groupProfiles) <==>
      exists g, p :: g in gs && p in ProfilesOf(groupProfiles, g) && c == InstallProfile(p.id)
  {
    if gs != [] {
      var init := gs[..|gs| - 1];
      var last := gs[|gs| - 1];
      var ps := ProfilesOf(groupProfiles, last);
      GroupInstallsExact(init, groupProfiles, c);
      assert gs == init + [last];
      if c in ProfileInstalls(ps) {
        var k :| 0 <= k < |ps| && ProfileInstalls(ps)[k] == c;
        assert last in gs && ps[k] in ProfilesOf(groupProfiles, last);
      }
      if exists g, p :: g in gs && p in ProfilesOf(groupProfiles, g) && c == InstallProfile(p.id) {
        var g, p :| g in gs && p in ProfilesOf(groupProfiles, g) && c == InstallProfile(p.id);
        if g == last {
          var k :| 0 <= k < |ps| && ps[k] == p;
          assert ProfileInstalls(ps)[k] == c;
        } else {
          assert g in init;
        }
      }
    }
  }

  /** Every removal command removes a profile of some removed group, by
      identifier, and every profile of every removed group is removed. */
  lemma {:induction false} GroupRemovalsExact(gs: seq<GroupId>, groupProfiles: map<GroupId, seq<ProfileRef>>, c: Command)
    ensures c in GroupRemovals(gs, groupProfiles) <==>
      exists g, p :: g in gs && p in ProfilesOf(groupProfiles, g) && c == RemoveProfile(p.identifier)
  {
    if gs != [] {
      var init := gs[..|gs| - 1];
      var last := gs[|gs| - 1];
      var ps := ProfilesOf(groupProfiles, last);
      GroupRemovalsExact(init, groupProfiles, c);
      assert gs == init + [last];
      if c in ProfileRemovals(ps) {
        var k :| 0 <= k < |ps| && ProfileRemovals(ps)[k] == c;
        assert last in gs && ps[k] in ProfilesOf(groupProfiles, last);
      }
      if exists g, p :: g in gs && p in ProfilesOf(groupProfiles, g) && c == RemoveProfile(p.identifier) {
        var g, p :| g in gs && p in ProfilesOf(groupProfiles, g) && c == RemoveProfile(p.identifier);
        if g == last {
          var k :| 0 <= k < |ps| && ps[k] == p;
          assert ProfileRemovals(ps)[k] == c;
        } else {
          assert g in init;
        }
      }
    }
  }

  /** Installs are all InstallProfile commands. */
  lemma {:induction false} GroupInstallsKind(gs: seq<GroupId>, groupProfiles: map<GroupId, seq<ProfileRef>>)
    ensures forall k :: 0 <= k < |GroupInstalls(gs, groupProfiles)| ==> GroupInstalls(gs, groupProfiles)[k].InstallProfile?
  {
    if gs != [] {
      GroupInstallsKind(gs[..|gs| - 1], groupProfiles);
    }
  }

  /** Removals are all RemoveProfile commands. */
  lemma {:induction false} GroupRemovalsKind(gs: seq<GroupId>, groupProfiles: map<GroupId, seq<ProfileRef>>)
    ensures forall k :: 0 <= k < |GroupRemovals(gs, groupProfiles)| ==> GroupRemovals(gs, groupProfiles)[k].RemoveProfile?
  {
    if gs != [] {
      GroupRemovalsKind(gs[..|gs| - 1], groupProfiles);
    }
  }

  /** Once a removal occurs in a batch, only removals follow it. */
  predicate RemovalsLast(b: seq<Command>) {
    forall i, j :: 0 <= i < j < |b| && b[i].RemoveProfile? ==> b[j].RemoveProfile?
  }

  lemma InstallsThenRemovals(ins: seq<Command>, rem: seq<Command>)
    requires forall k :: 0 <= k < |ins| ==> ins[k].InstallProfile?
    requires forall k :: 0 <= k < |rem| ==> rem[k].RemoveProfile?
    ensures RemovalsLast(ins + rem)
  {
    var b := ins + rem;
    assert forall k :: 0 <= k < |ins| ==> b[k] == ins[k];
    assert forall k :: |ins| <= k < |b| ==> b[k] == rem[k - |ins|];
  }

  /** In the batch one reconciliation appends, every install precedes every
      removal. */
  lemma {:induction false} InstallsBeforeRemovals(groups: seq<GroupId>, groupProfiles: map<GroupId, seq<ProfileRef>>,
                               current: set<GroupId>, wanted: set<GroupId>)
    ensures RemovalsLast(GroupmodCommands(groups, groupProfiles, current, wanted))
    ensures forall d :: RemovalsLast(GroupmodCommandsAsWritten(groups, groupProfiles, current, wanted, d))
  {
    var a := Additions(groups, current, wanted);
    var r := Removals(groups, current, wanted);
    GroupInstallsKind(a, groupProfiles);
    GroupRemovalsKind(r, groupProfiles);
    InstallsThenRemovals(GroupInstalls(a, groupProfiles), GroupRemovals(r, groupProfiles));
    forall d ensures RemovalsLast(GroupmodCommandsAsWritten(groups, groupProfiles, current, wanted, d)) {
      var aw := AdditionsAsWritten(groups, current, wanted, d);
      var rw := RemovalsAsWritten(groups, current, wanted, d);
      GroupInstallsKind(aw, groupProfiles);
      GroupRemovalsKind(rw, groupProfiles);
      InstallsThenRemovals(GroupInstalls(aw, groupProfiles), GroupRemovals(rw, groupProfiles));
    }
  }

  /** Nothing is queued when the submission equals the current membership. */
  lemma NoChangeNoCommands(groups: seq<GroupId>, groupProfiles: map<GroupId, seq<ProfileRef>>,
                           current: set<GroupId>, wanted: set<GroupId>)
    requires wanted == current
    ensures GroupmodCommands(groups, groupProfiles, current, wanted) == []
  {
    NoChangeNoDelta(groups, current, wanted);
  }

  // ---------------------------------------------------------------------
  // The classification loop
  // ---------------------------------------------------------------------

  /** The loop over the outer join: sorts every group into an addition, a
      removal or neither, testing the joined device column for truthiness as
      the handler does. */
  method ClassifyGroups(groups: seq<GroupId>, current: set<GroupId>, d: DeviceId, wanted: set<GroupId>)
    returns (additions: seq<GroupId>, removals: seq<GroupId>)
    ensures additions == AdditionsAsWritten(groups, current, wanted, d)
    ensures removals == RemovalsAsWritten(groups, current, wanted, d)
  {
    additions, removals := [], [];
    var i := 0;
    while i < |groups|
      invariant 0 <= i <= |groups|
      invariant additions == AdditionsAsWritten(groups[..i], current, wanted, d)
      invariant removals == RemovalsAsWritten(groups[..i], current, wanted, d)
    {
      var g := groups[i];
      assert groups[..i + 1][..i] == groups[..i];
      var devId := JoinedDeviceColumn(current, d, g);
      if InGroupAsWritten(devId) {
        if g !in wanted {
          removals := removals + [g];
        }
      } else {
        if g in wanted {
          additions := additions + [g];
        }
      }
      i := i + 1;
    }
    assert groups[..i] == groups;
  }

  /** With the as-written truthiness test, a device whose id is 0 and that
      is already in a group it keeps is added to it again, so its profiles
      are reinstalled; the intended reading adds nothing. */
  lemma DeviceZeroReadded()
    ensures AdditionsAsWritten([7], {7}, {7}, 0) == [7]
    ensures Additions([7], {7}, {7}) == []
  {
    assert [7][..0] == [];
  }

  /** With the as-written test, a device whose id is 0 and that leaves a group
      is never counted as removed from it: its membership is still dropped,
      but none of the group's profiles are queued for removal. */
  lemma DeviceZeroNotRemoved()
    ensures RemovalsAsWritten([7], {7}, {}, 0) == []
    ensures Removals([7], {7}, {}) == [7]
    ensures NewMembership([7], {}) == {}
  {
    assert [7][..0] == [];
  }

  /** For every other device id the as-written test agrees with the intended
      one. */
  lemma {:induction false} AdditionsAsWrittenAgree(groups: seq<GroupId>, current: set<GroupId>, wanted: set<GroupId>, d: DeviceId)
    requires d != 0
    ensures AdditionsAsWritten(groups, current, wanted, d) == Additions(groups, current, wanted)
  {
    if groups != [] {
      AdditionsAsWrittenAgree(groups[..|groups| - 1], current, wanted, d);
    }
  }

  lemma {:induction false} RemovalsAsWrittenAgree(groups: seq<GroupId>, current: set<GroupId>, wanted: set<GroupId>, d: DeviceId)
    requires d != 0
    ensures RemovalsAsWritten(groups, current, wanted, d) == Removals(groups, current, wanted)
  {
    if groups != [] {
      RemovalsAsWrittenAgree(groups[..|groups| - 1], current, wanted, d);
    }
  }

  /** For every device id other than 0 the handler as written queues exactly
      the intended batch. */
  lemma GroupmodAsWrittenAgree(groups: seq<GroupId>, groupProfiles: map<GroupId, seq<ProfileRef>>,
                               current: set<GroupId>, wanted: set<GroupId>, d: DeviceId)
    requires d != 0
    ensures GroupmodCommandsAsWritten(groups, groupProfiles, current, wanted, d)
         == GroupmodCommands(groups, groupProfiles, current, wanted)
  {
    AdditionsAsWrittenAgree(groups, current, wanted, d);
    RemovalsAsWrittenAgree(groups, current, wanted, d);
  }

  // ---------------------------------------------------------------------
  // Profiles shared by an added and a removed group
  // ---------------------------------------------------------------------

  /** The delta of the shared-profile example: group 1 is added, group 2
      removed. */
  lemma SharedProfileDelta()
    ensures Additions([1, 2], {2}, {1}) == [1]
    ensures Removals([1, 2], {2}, {1}) == [2]
  {
    var gs: seq<GroupId> := [1, 2];
    var one: seq<GroupId> := [1];
    assert gs[..1] == one && one[..0] == [];
  }

  lemma SharedProfileBatch(p: ProfileRef, gp: map<GroupId, seq<ProfileRef>>)
    requires gp == map[1 := [p], 2 := [p]]
    ensures GroupInstalls([1], gp) == [InstallProfile(p.id)]
    ensures GroupRemovals([2], gp) == [RemoveProfile(p.identifier)]
  {
    var one: seq<GroupId> := [1];
    var two: seq<GroupId> := [2];
    assert one[..0] == [] && two[..0] == [];
    assert ProfilesOf(gp, 1) == [p] && ProfilesOf(gp, 2) == [p];
  }

  /** A profile attached both to a group the device joins and to one it
      leaves is installed and then removed, although the device stays in a
      group that has it. */
  lemma SharedProfileRemoved()
    ensures 1 in NewMembership([1, 2], {1})
    ensures ProfileRef(5, "p") in ProfilesOf(map[1 := [ProfileRef(5, "p")], 2 := [ProfileRef(5, "p")]], 1)
    ensures GroupmodCommands([1, 2], map[1 := [ProfileRef(5, "p")], 2 := [ProfileRef(5, "p")]], {2}, {1})
         == [InstallProfile(5), RemoveProfile("p")]
  {
    SharedProfileDelta();
    SharedProfileBatch(ProfileRef(5, "p"), map[1 := [ProfileRef(5, "p")], 2 := [ProfileRef(5, "p")]]);
  }

  /** The identifiers of the profiles attached to any group in `keep`. */
  function KeptIdentifiers(groupProfiles: map<GroupId, seq<ProfileRef>>, keep: set<GroupId>): set<string>
  {
    set g, p | g in keep && p in ProfilesOf(groupProfiles, g) :: p.identifier
  }

  /** Drops the removal of every profile whose identifier is in `ids`, keeping
      every other command in order. */
  function DropKept(cs: seq<Command>, ids: set<string>): (r: seq<Command>)
    ensures forall c :: c in r <==> c in cs && !(c.RemoveProfile? && c.identifier in ids)
  {
    if cs == [] then []
    else
      var c := cs[|cs| - 1];
      assert cs == cs[..|cs| - 1] + [c];
      DropKept(cs[..|cs| - 1], ids) + (if c.RemoveProfile? && c.identifier in ids then [] else [c])
  }

  /** The intended batch: the additions' installs, then the removals' removals
      except for profiles that a group of the new membership still carries. */
  function GroupmodCommandsKeeping(groups: seq<GroupId>, groupProfiles: map<GroupId, seq<ProfileRef>>,
                                   current: set<GroupId>, wanted: set<GroupId>): seq<Command>
  {
    GroupInstalls(Additions(groups, current, wanted), groupProfiles)
      + DropKept(GroupRemovals(Removals(groups, current, wanted), groupProfiles),
                 KeptIdentifiers(groupProfiles, NewMembership(groups, wanted)))
  }

  /** The intended batch never removes a profile of a group the device is in
      after the reconciliation, and it still removes every other profile of
      every removed group. */
  lemma KeepingSparesMemberProfiles(groups: seq<GroupId>, groupProfiles: map<GroupId, seq<ProfileRef>>,
                                    current: set<GroupId>, wanted: set<GroupId>, c: Command)
    ensures c.RemoveProfile? ==>
      (c in GroupmodCommandsKeeping(groups, groupProfiles, current, wanted) <==>
        && (exists g, p :: g in Removals(groups, current, wanted) && p in ProfilesOf(groupProfiles, g)
              && c == RemoveProfile(p.identifier))
        && !(exists g, p :: g in NewMembership(groups, wanted) && p in ProfilesOf(groupProfiles, g)
              && c.identifier == p.identifier))
  {
    var ins := GroupInstalls(Additions(groups, current, wanted), groupProfiles);
    var ids := KeptIdentifiers(groupProfiles, NewMembership(groups, wanted));
    GroupInstallsKind(Additions(groups, current, wanted), groupProfiles);
    GroupRemovalsExact(Removals(groups, current, wanted), groupProfiles, c);
    if c.RemoveProfile? {
      assert c !in ins;
      if exists g, p :: g in NewMembership(groups, wanted) && p in ProfilesOf(groupProfiles, g)
          && c.identifier == p.identifier {
        var g, p :| g in NewMembership(groups, wanted) && p in ProfilesOf(groupProfiles, g)
          && c.identifier == p.identifier;
        assert c.identifier in ids;
      }
    }
  }
}
