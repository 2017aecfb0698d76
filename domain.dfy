/** The values that flow through the login screen's view model: the actions
    the view dispatches, the changes the pipelines emit and the state the
    reducer folds them into. */
module Domain {

  datatype Option<+T> = None | Some(value: T)

  /** A failure raised by the authentication repository. Its contents are
      never inspected; it is carried into the state as it is. Two failures
      with the same message are equal here. */
  datatype Throwable = Throwable(message: string)

  /** The view state: an immutable record whose every later value is
      derived from the previous one by the reducer. */
  datatype State = State(
    isIdle: bool,
    isLoading: bool,
    isLogged: bool,
    isRegistered: bool,
    throwable: Option<Throwable>)

  /** `State()` with every default: idle, not loading, nothing logged or
      registered, no error. */
  const InitState: State := State(true, false, false, false, None)

  /** What one step of a pipeline asks the reducer to do. */
  datatype Change =
    | Loading
    | Logged(isLogged: bool)
    | Registered(isRegistered: bool)
    | Error(throwable: Option<Throwable>)

  /** The intents the view dispatches; `Init` is the action stream's seed. */
  datatype Actions =
    | LoginRequest(email: string, password: string)
    | RegisterRequest(email: string, password: string, displayName: string)
    | Init
}
