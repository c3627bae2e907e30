/** Entities shared by the admin handlers: identifiers, profile rows,
    queued MDM commands and the outcome of a handler. */
module MdmTypes {

  /** Primary keys of the MDMGroup, Device and App tables. */
  type GroupId = int
  type DeviceId = int
  type AppId = int

  datatype Option<+T> = None | Some(value: T)

  datatype Result<+T, +E> = Ok(value: T) | Err(error: E)

  /** One row of the profile/group join: the profile's database id and its
      stable payload identifier string. */
  datatype ProfileRef = ProfileRef(id: int, identifier: string)

  /** A queued MDM command. The payload is what the handler passes to
      `new_queued_command`: `{'id': ...}` for installs, `{'Identifier': ...}`
      for a profile removal. */
  datatype Command =
    | InstallProfile(profileId: int)
    | RemoveProfile(identifier: string)
    | AppInstall(appId: AppId)

  /** `.one()` raises when the looked-up row does not exist. */
  datatype LookupError = NoSuchDevice(device: DeviceId) | NoSuchApp(app: AppId)

  datatype Outcome = Done | Failed(error: LookupError)

  /** The elements of a sequence, as Python's `set(...)` of a list. */
  function Elements<T>(s: seq<T>): set<T> {
    set x | x in s
  }

  /** No element occurs twice. */
  predicate Distinct<T(==)>(s: seq<T>) {
    forall i, j :: 0 <= i < j < |s| ==> s[i] != s[j]
  }
}
