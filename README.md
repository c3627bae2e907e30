# Group reconciliation in the commandment MDM admin

This project models, in Dafny, the part of the commandment MDM server's admin
blueprint that reconciles group memberships and queues MDM commands, plus two
small pure helpers on the DEP pages and the web UI's installed-profiles
reducer.

- **Device/group reconciliation** (`admin_device_groupmod`). An operator submits
  the group ids a device should belong to. The handler walks every group of
  the outer join between groups and the device's association rows. Each group
  becomes an addition (the device is not in it, its id was submitted), a
  removal (the device is in it, its id was not submitted), or neither.
  Whether the device is in a group is read as the truthiness of the joined
  device id (`if dev_id:`), as the code does. For every device id except 0
  this is the same as "the association row exists" (see "## Findings"). The
  device's group list is then replaced by the existing groups whose ids were
  submitted, and that change is committed. Next, for every added group, one
  `InstallProfile` per attached profile is queued, keyed by profile id. Then,
  for every removed group, one `RemoveProfile` per attached profile is
  queued, keyed by the profile's identifier string. The device is pushed
  once, and only if something was added or removed.
- **Single app install** (`admin_device_appinst`). One `AppInstall` is queued
  and the device is pushed.
- **Application/group reconciliation** (`admin_app_manage_groupmod`). The two
  form lists become a map from group id to `install_early`. The old and new
  key sets split into delete, same and add. The app's association rows are
  rewritten to equal the map. No command is queued and nothing is pushed.
- **DEP server-token envelope.** `eml[24:-23]` is taken when the decrypted
  message carries the `-----BEGIN MESSAGE-----` header and the
  `-----END MESSAGE-----` footer.
- **DEP profile form.** The form becomes the profile dictionary: booleans are
  copied when present, strings only when non-empty, and `profile_name` is
  mandatory.
- **`installed_profiles_reducer`** (TypeScript). It replaces `items` and
  `recordCount` on a successful `PROFILES_SUCCESS`. It returns the state
  unchanged for an error payload or any other action.

The store is plain state on one object, `Admin.MdmStore`:
- the group table as a sequence in query order;
- each group's profile rows;
- each device's set of group ids;
- each app's map from group id to `install_early`;
- a command queue per device;
- a log of pushes.

The handlers are methods that update this state in place. Each one is proved
against specification functions in `DeviceMembership` and `AppMembership`,
and the lemmas there state what the handlers promise.

Facts about the code that the model keeps, and that a reader might expect
to be otherwise:
- The additions' installs are queued **before** the removals' removals.
- The membership is committed before any command is queued. The two steps
  are separate commits, so the reconciliation is not all-or-nothing.
- Changing an application's groups queues no command for the devices in
  those groups.
- Every kept app row has its flag rewritten, whether or not the flag changed
  (there is no separate "attribute update" set).
- Once the form has been parsed, the only error the handlers raise themselves
  is the lookup of the device or app (`.one()`); the handlers catch nothing
  and check no referential integrity. Errors raised earlier or by the
  database are listed under "## Left out".
- Unlike the device handler, the app handler does not filter submitted group
  ids against the group table.

## Model

| member | source | states |
|---|---|---|
| `DeviceMembership.JoinedDeviceColumn` | commandment/admin.py:77-78 | reference definition: the outer join's device column is non-NULL exactly when the device is in the group, and then holds the device's id |
| `DeviceMembership.ClassifyGroups` | commandment/admin.py:80-97 | the loop over the joined groups, branching on the truthiness of the device column, yields exactly `AdditionsAsWritten` and `RemovalsAsWritten`, in query order |
| `DeviceMembership.AdditionsMembership` | commandment/admin.py:91-95 | with the intended reading of the join, a group is an addition iff it exists, the device is not in it and its id was submitted |
| `DeviceMembership.RemovalsMembership` | commandment/admin.py:83-88 | with the intended reading of the join, a group is a removal iff it exists, the device is in it and its id was not submitted |
| `DeviceMembership.AdditionsRemovalsDisjoint` | commandment/admin.py:80-97 | no group is both an addition and a removal |
| `DeviceMembership.AdditionsDistinct` | commandment/admin.py:80-95 | with distinct group ids, no group is added twice |
| `DeviceMembership.RemovalsDistinct` | commandment/admin.py:80-88 | with distinct group ids, no group is removed twice |
| `DeviceMembership.NewMembership` | commandment/admin.py:99-103 | reference definition: the new group list holds exactly the existing groups whose id was submitted; unknown ids are dropped |
| `DeviceMembership.MembershipConverges` | commandment/admin.py:80-103 | the new membership equals the old one minus the removals plus the additions |
| `DeviceMembership.NoChangeNoDelta` | commandment/admin.py:80-97 | submitting the current membership yields no addition and no removal |
| `DeviceMembership.ResubmitNoDelta` | commandment/admin.py:80-103 | re-submitting the same ids after a reconciliation yields no addition and no removal |
| `DeviceMembership.DeltaIffMembershipChanges` | commandment/admin.py:114-116 | something is added or removed (so the device is pushed) iff the device's membership actually changes |
| `DeviceMembership.ProfileInstalls` | commandment/admin.py:52-54 | reference definition: one InstallProfile per profile row, in order, carrying the profile's database id |
| `DeviceMembership.ProfileRemovals` | commandment/admin.py:62-65 | reference definition: one RemoveProfile per profile row, in order, carrying the profile's identifier string |
| `DeviceMembership.GroupInstallsExact` | commandment/admin.py:48-54 | a command is among the additions' installs iff it installs, by id, a profile of an added group |
| `DeviceMembership.GroupRemovalsExact` | commandment/admin.py:57-65 | a command is among the removals' commands iff it removes, by identifier, a profile of a removed group |
| `DeviceMembership.GroupInstallsKind` | commandment/admin.py:108-109 | every command queued for an addition is an InstallProfile |
| `DeviceMembership.GroupRemovalsKind` | commandment/admin.py:111-112 | every command queued for a removal is a RemoveProfile |
| `DeviceMembership.InstallsBeforeRemovals` | commandment/admin.py:108-112 | in the batch one reconciliation queues, no install follows a removal; this holds for the as-written batch of every device id too |
| `DeviceMembership.NoChangeNoCommands` | commandment/admin.py:108-116 | submitting the current membership queues nothing |
| `DeviceMembership.InGroupMeansMember` | commandment/admin.py:83 | the intended "row matched" test agrees with membership; so does the as-written truthiness test when the device id is not 0 |
| `DeviceMembership.DeviceZeroReadded` | commandment/admin.py:83-95 | with the as-written test, device 0 already in a kept group is added to it again |
| `DeviceMembership.AdditionsAsWrittenAgree` | commandment/admin.py:82-95 | for any device id other than 0, the as-written additions equal the intended ones |
| `DeviceMembership.RemovalsAsWrittenAgree` | commandment/admin.py:82-88 | for any device id other than 0, the as-written removals equal the intended ones |
| `DeviceMembership.GroupmodAsWrittenAgree` | commandment/admin.py:108-112 | for any device id other than 0, the batch the handler queues is the intended batch, so every lemma about `Additions`, `Removals` and `GroupmodCommands` applies to it |
| `DeviceMembership.DeviceZeroNotRemoved` | commandment/admin.py:83-88 | with the as-written test, device 0 leaving group 7 is not counted as a removal, though its membership at line 103 still drops the group |
| `DeviceMembership.SharedProfileRemoved` | commandment/admin.py:108-112 | a profile attached to both an added and a removed group is queued for install and then for removal, while the device stays in a group that carries it |
| `DeviceMembership.DropKept` | commandment/admin.py:111-112 | the filtered batch holds exactly the commands of the input that are not removals of a kept identifier |
| `DeviceMembership.KeepingSparesMemberProfiles` | commandment/admin.py:108-112 | the corrected batch removes a profile iff a removed group carries it and no group of the new membership carries a profile with its identifier |
| `Admin.MdmStore.InstallGroupProfiles` | commandment/admin.py:48-54 | appends the group's InstallProfile commands to that device's queue and changes nothing else |
| `Admin.MdmStore.RemoveGroupProfiles` | commandment/admin.py:57-65 | appends the group's RemoveProfile commands to that device's queue and changes nothing else |
| `Admin.MdmStore.QueueAdditions` | commandment/admin.py:108-109 | appends the installs of every added group, group by group, to the device's queue |
| `Admin.MdmStore.QueueRemovals` | commandment/admin.py:111-112 | appends the removals of every removed group, group by group, to the device's queue |
| `Admin.MdmStore.DeviceGroupmod` | commandment/admin.py:68-118 | unknown device: nothing changes; otherwise the membership becomes `NewMembership`, the as-written batch (installs, then removals) is appended to that device's queue only, the device is pushed once iff the as-written additions or removals are non-empty, and the other tables are untouched; for any device id but 0 the batch and the push are the intended ones |
| `Admin.MdmStore.DeviceAppInstall` | commandment/admin.py:121-135 | unknown device: nothing changes; otherwise exactly one AppInstall is appended to the device's queue and one push is logged |
| `Admin.MdmStore.AppManageGroupmod` | commandment/admin.py:246-299 | unknown app: nothing changes; otherwise only that app's rows change, they become exactly the submitted group ids with their `install_early` flags, and no command or push happens |
| `AppMembership.DesiredAppGroups` | commandment/admin.py:257-269 | desired keys are the submitted `group_id`s (duplicates collapse); a value is true iff the id is also among `install_early`, and other `install_early` ids are ignored |
| `AppMembership.SplitGroups` | commandment/admin.py:271-276 | delete, same and add are pairwise disjoint; delete and same make up the old set, same and add the new one |
| `AppMembership.OverwriteKept` | commandment/admin.py:278-282 | each kept row gets the submitted flag; no row is added or removed |
| `AppMembership.InsertAdded` | commandment/admin.py:289-295 | one row per added group, with its submitted flag; existing rows stay |
| `Dep.MarkerLengths` | commandment/admin.py:418-419 | the header is 24 characters and the footer 23, the two slice bounds |
| `Dep.StripWrapped` | commandment/admin.py:418-419 | unwrapping header + body + footer gives back the body |
| `Dep.StripExact` | commandment/admin.py:418-419 | a payload comes out iff the message is header + payload + footer, or the 46-character message whose markers share a newline, with an empty payload |
| `Dep.CopyFlags` | commandment/admin.py:446-448 | a boolean field is in the profile iff submitted, with value true iff its first value is non-empty |
| `Dep.CopyTexts` | commandment/admin.py:451-453 | a string field is added iff its first value is non-empty, with that value; existing entries stay |
| `Dep.FieldListsDisjoint` | commandment/admin.py:439-441 | the boolean and string field lists share no name, and neither holds `skip_setup_items` |
| `Dep.DepProfileFromForm` | commandment/admin.py:439-460 | fails iff `profile_name` is missing or empty; otherwise the profile holds exactly the copied flags, the non-empty strings and, if submitted, all `skip_setup_items` values |
| `InstalledProfiles.InitialState` | ui/src/store/device/installed_profiles_reducer.ts:15-18 | reference definition: the initial state has no items and a record count of 0 |
| `InstalledProfiles.Reduce` | ui/src/store/device/installed_profiles_reducer.ts:22-37 | any other action and an error payload leave the state as it was; a page sets `items` to its data and `recordCount` to its count and keeps every other property |
| `InstalledProfiles.UndefinedStartsFromInitial` | ui/src/store/device/installed_profiles_reducer.ts:22 | with no prior state the reducer acts on the initial state |
| `InstalledProfiles.ReduceIdempotent` | ui/src/store/device/installed_profiles_reducer.ts:23-36 | applying the same action twice gives the same state as applying it once |
| `InstalledProfiles.PageOverrides` | ui/src/store/device/installed_profiles_reducer.ts:28-32 | after a page, the state no longer depends on the previous items or count |

## Left out

- Flask routing, redirects, `FixedLocationResponse` and templates: web plumbing with no reconciliation logic.
- Form parsing (`int(...)`, `getlist(..., type=int)`, `request.form['application']`): the handlers take already-parsed ids. A non-numeric `group_membership` or `application` value, or a missing `application` field, raises before any state changes (with `getlist(..., type=int)` a bad value is dropped instead).
- Name resolution: `commandment/admin.py` as shown does not import `db_session`, the association tables, `MDMGroup`, `and_`, `update`/`delete`/`insert`, `SMIME`/`BIO` or the DEP/MDM config models. The model assumes these names resolve to the ORM session, the tables and the library functions that the code evidently means; read literally, each modelled handler would raise `NameError` at its first query.
- Package upload, signature check, MD5 chunking and file copies (`admin_app_add`, `admin_app_delete`): file I/O and external utilities.
- SMIME decryption, MIME parsing, `json.loads` and the fallback to the raw file on `SMIME_Error`: foreign library calls. Only the envelope slice is modelled. `Dep.StripEnvelope` returns `None` where the source leaves `myjson` unassigned, which then fails at `json.loads`.
- The rest of `dep_profile_add` after the form rules: DEP/MDM config lookups, the enrol URL, anchor certificates and storing the profile. These are database and x509/base64 calls.
- DEP API calls (`initial_fetch`, `assign_devices`), `admin_config`'s SCEP URL building through `urlparse`, and the certificate pages: network calls and library parsing.
- `push_to_device` transport: a push is one entry appended to `pushes`.
- Database transactions: each query is a read of the object's fields. The two commits of `admin_device_groupmod` are not modelled as separate durable steps, and a failing commit is not modelled. The model claims no all-or-nothing behaviour.
- Foreign-key enforcement by the database: an app row for a group id not in the group table is kept, as the handler writes it. A database that enforces the key would make that insert fail at `commandment/admin.py:295` or at the commit; this failure is not modelled.
- `DeviceMembership.GroupmodCommandsKeeping` (the corrected batch of the second finding) is not what `Admin.MdmStore.DeviceGroupmod` queues: the handler keeps the code's order and content.
- The `print` diagnostics in the handlers.
- Python set iteration order in `admin_app_manage_groupmod`: the rows are updated and inserted in an arbitrary order, and the final rows do not depend on that order.
- `isJSONAPIErrorResponsePayload` is not part of this model. An error payload is a separate case of the payload datatype.
- `ui/src/models.ts` (interface declarations only) and `ui/src/entry.tsx` (store and route setup): no behaviour.

## Findings

| source | as written | input that shows it | evidently intended | confidence | as-written member | corrected member |
|---|---|---|---|---|---|---|
| commandment/admin.py:83 | `if dev_id:` tests the joined device id for Python truthiness, so an id of 0 reads as "not in this group" | device 0, already in group 7, submits `[7]`: group 7 is treated as an addition, its profiles are queued for install again and the device is pushed. Device 0 in group 7 submitting `[]` leaves the group (line 103), but group 7 is not a removal, so none of its profiles is queued for removal and, with nothing else changed, there is no push | test whether the join matched (`dev_id is not None`) | low (not executed; only reachable if a device row has primary key 0, which an autoincrement key does not assign) | `DeviceMembership.DeviceZeroReadded`, `DeviceMembership.DeviceZeroNotRemoved` | `DeviceMembership.InGroupMeansMember`, `DeviceMembership.GroupmodAsWrittenAgree` |
| commandment/admin.py:108-112 | the removals' `RemoveProfile` commands are queued after the additions' installs, for every profile of each removed group | profile P (id 5, identifier `p`) is attached to groups 1 and 2; the device is in group 2 and submits `[1]`: the batch is install 5, then remove `p`, so the device ends without P although group 1, which it now belongs to, carries P | do not remove a profile that a group of the new membership still carries | low (not executed; the intent is inferred from groups being the unit of profile assignment) | `DeviceMembership.SharedProfileRemoved` | `DeviceMembership.KeepingSparesMemberProfiles` |
