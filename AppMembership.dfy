/** The desired-state and diff half of `admin_app_manage_groupmod`: the map
    from group id to `install_early` built out of the two form lists, and the
    three-way split of the old and new group sets. The writes themselves are
    `Admin.MdmStore.AppManageGroupmod`. */
module AppMembership {
  import opened MdmTypes

  /** `new_app_groups`: every submitted `group_id` becomes a key (duplicates
      collapse), and its value is true exactly when the id also appears among
      the `install_early` values; `install_early` ids that were not submitted as
      `group_id` are ignored. */
  method DesiredAppGroups(formGroups: seq<GroupId>, formInstallEarly: seq<GroupId>)
    returns (desired: map<GroupId, bool>)
    ensures desired.Keys == Elements(formGroups)
    ensures forall g :: g in desired ==> (desired[g] <==> g in formInstallEarly)
  {
    desired := map[];
    for i := 0 to |formGroups|
      invariant desired.Keys == Elements(formGroups[..i])
      invariant forall g :: g in desired ==> !desired[g]
    {
      assert formGroups[..i + 1] == formGroups[..i] + [formGroups[i]];
      if formGroups[i] !in desired {
        desired := desired[formGroups[i] := false];
      }
    }
    assert formGroups[..|formGroups|] == formGroups;
    for i := 0 to |formInstallEarly|
      invariant desired.Keys == Elements(formGroups)
      invariant forall g :: g in desired ==> (desired[g] <==> g in formInstallEarly[..i])
    {
      assert formInstallEarly[..i + 1] == formInstallEarly[..i] + [formInstallEarly[i]];
      if formInstallEarly[i] in desired {
        desired := desired[formInstallEarly[i] := true];
      }
    }
    assert formInstallEarly[..|formInstallEarly|] == formInstallEarly;
  }

  /** `gm_delete`, `gm_same` and `gm_add`. */
  datatype Split = Split(delete: set<GroupId>, same: set<GroupId>, add: set<GroupId>)

  /** The three sets partition the union of the old and new group sets: the
      deleted and kept groups make up the old set, the kept and added groups
      the new one, and no group is in two of them. */
  function SplitGroups(before: set<GroupId>, after: set<GroupId>): (s: Split)
    ensures s.delete + s.same == before
    ensures s.same + s.add == after
    ensures s.delete + s.same + s.add == before + after
    ensures s.delete !! s.same && s.same !! s.add && s.delete !! s.add
  {
    Split(before - after, before * after, after - before)
  }

  /** The `update` loop over `gm_same`: each kept row gets the submitted
      `install_early` flag; no row is added or removed. */
  method OverwriteKept(rows: map<GroupId, bool>, kept: set<GroupId>, desired: map<GroupId, bool>)
    returns (updated: map<GroupId, bool>)
    requires kept <= rows.Keys && kept <= desired.Keys
    ensures updated.Keys == rows.Keys
    ensures forall g :: g in updated ==> updated[g] == if g in kept then desired[g] else rows[g]
  {
    updated := rows;
    var todo := kept;
    while todo != {}
      invariant todo <= kept
      invariant updated.Keys == rows.Keys
      invariant forall g :: g in updated ==> updated[g] == if g in kept - todo then desired[g] else rows[g]
      decreases todo
    {
      SomeMember(todo);
      var g :| g in todo;
      updated := updated[g := desired[g]];
      todo := todo - {g};
    }
  }

  /** The `insert` loop over `gm_add`: one row per added group, with its
      submitted flag; existing rows are left alone. */
  method InsertAdded(rows: map<GroupId, bool>, added: set<GroupId>, desired: map<GroupId, bool>)
    returns (updated: map<GroupId, bool>)
    requires added <= desired.Keys
    ensures updated.Keys == rows.Keys + added
    ensures forall g :: g in updated ==> updated[g] == if g in added then desired[g] else rows[g]
  {
    updated := rows;
    var todo := added;
    while todo != {}
      invariant todo <= added
      invariant updated.Keys == rows.Keys + (added - todo)
      invariant forall g :: g in updated ==> updated[g] == if g in added - todo then desired[g] else rows[g]
      decreases todo
    {
      SomeMember(todo);
      var g :| g in todo;
      updated := updated[g := desired[g]];
      todo := todo - {g};
    }
  }

  /** A non-empty set has a member to pick. */
  lemma SomeMember(s: set<GroupId>)
    requires s != {}
    ensures exists x :: x in s
  {
    if forall x :: x !in s {
      assert false;
    }
  }
}
