/** The view model's reducer: one change applied to one state, as a record
    update that touches at most two fields. */
module Reducer {
  import opened Domain

  /** The five fields of a State, to speak of which ones a change touches. */
  datatype Field = IdleField | LoadingField | LoggedField | RegisteredField | ThrowableField

  /** The fields in which `s` and `t` differ. */
  function ChangedFields(s: State, t: State): set<Field> {
    (if s.isIdle != t.isIdle then {IdleField} else {})
    + (if s.isLoading != t.isLoading then {LoadingField} else {})
    + (if s.isLogged != t.isLogged then {LoggedField} else {})
    + (if s.isRegistered != t.isRegistered then {RegisteredField} else {})
    + (if s.throwable != t.throwable then {ThrowableField} else {})
  }

  /** The fields each kind of change is allowed to write. */
  function Footprint(c: Change): set<Field> {
    match c
    case Loading => {IdleField, LoadingField}
    case Logged(_) => {LoadingField, LoggedField}
    case Registered(_) => {LoadingField, RegisteredField}
    case Error(_) => {LoadingField, ThrowableField}
  }

  /** The transition table: `t` may follow `s` under `c` when only the
      fields in the change's footprint differ, and those hold the values the
      change prescribes. */
  predicate Transition(s: State, c: Change, t: State) {
    && ChangedFields(s, t) <= Footprint(c)
    && t.isLoading == c.Loading?
    && (c.Loading? ==> !t.isIdle)
    && (c.Logged? ==> t.isLogged == c.isLogged)
    && (c.Registered? ==> t.isRegistered == c.isRegistered)
    && (c.Error? ==> t.throwable == c.throwable)
  }

  /** The reducer: `state.copy(...)` by cases on the change. */
  function Reduce(s: State, c: Change): (r: State)
    ensures Transition(s, c, r)
    ensures r.isIdle ==> s.isIdle
  {
    match c
    case Loading => s.(isIdle := false, isLoading := true)
    case Error(t) => s.(throwable := t, isLoading := false)
    case Logged(b) => s.(isLoading := false, isLogged := b)
    case Registered(b) => s.(isLoading := false, isRegistered := b)
  }

  /** The table leaves no freedom: whatever satisfies it is what the reducer
      computes. */
  lemma TransitionDeterministic(s: State, c: Change, t: State)
    requires Transition(s, c, t)
    ensures t == Reduce(s, c)
  {
  }

  /** Applying the same change twice is applying it once; in particular a
      second `Loading` while loading changes nothing. */
  lemma ReduceIdempotent(s: State, c: Change)
    ensures Reduce(Reduce(s, c), c) == Reduce(s, c)
    ensures c.Loading? && s.isLoading && !s.isIdle ==> Reduce(s, c) == s
  {
  }
}
