/** The installed-profiles slice of the web UI's store: its state, the
    actions it reacts to, and `installed_profiles_reducer`. */
module InstalledProfiles {
  import opened MdmTypes

  /** `InstalledProfilesState`. `items` is optional in the interface; `extra`
      stands for any further properties the state object carries (name to
      JSON text), which the object spread copies along. */
  datatype State = State(items: Option<seq<Item>>, recordCount: int, extra: map<string, string>)

  /** The JSON-API data object of one installed profile: its id and its
      attributes (name to JSON text). */
  datatype Item = Item(id: string, attributes: map<string, string>)

  /** The payload of a `PROFILES_SUCCESS` action: a JSON-API error response,
      or a page of data objects with its `meta.count`. */
  datatype Payload = ErrorResponse(errors: seq<string>) | Page(data: seq<Item>, count: int)

  /** A `PROFILES_SUCCESS` action, or any other action (its type is some other
      string). */
  datatype Action = ProfilesSuccess(payload: Payload) | OtherAction(actionType: string)

  /** `initialState`. */
  function InitialState(): (s: State)
    ensures s.items == Some([]) && s.recordCount == 0 && s.extra == map[]
  {
    State(Some([]), 0, map[])
  }

  /** `installed_profiles_reducer`; `None` stands for an undefined state,
      which the default parameter replaces by the initial state. */
  function Reduce(state: Option<State>, action: Action): (r: State)
    ensures !action.ProfilesSuccess? ==> r == StateOrInitial(state)
    ensures action.ProfilesSuccess? && action.payload.ErrorResponse? ==> r == StateOrInitial(state)
    ensures action.ProfilesSuccess? && action.payload.Page? ==>
      && r.items == Some(action.payload.data)
      && r.recordCount == action.payload.count
      && r.extra == StateOrInitial(state).extra
  {
    var s := StateOrInitial(state);
    match action
    case ProfilesSuccess(payload) =>
      if payload.ErrorResponse? then s
      else s.(items := Some(payload.data), recordCount := payload.count)
    case OtherAction(_) => s
  }

  function StateOrInitial(state: Option<State>): State {
    if state.Some? then state.value else InitialState()
  }

  /** With no prior state the reducer starts from the initial state. */
  lemma UndefinedStartsFromInitial(action: Action)
    ensures Reduce(None, action) == Reduce(Some(InitialState()), action)
  {
  }

  /** Applying the same action twice gives the same state as applying it
      once. */
  lemma ReduceIdempotent(state: Option<State>, action: Action)
    ensures Reduce(Some(Reduce(state, action)), action) == Reduce(state, action)
  {
  }

  /** A successful page overrides whatever the state held before: two states
      that differ only in their items and count end up equal. */
  lemma PageOverrides(s1: State, s2: State, data: seq<Item>, count: int)
    requires s1.extra == s2.extra
    ensures Reduce(Some(s1), ProfilesSuccess(Page(data, count)))
         == Reduce(Some(s2), ProfilesSuccess(Page(data, count)))
  {
  }
}
