/** What the shipped repository makes of any sequence of dispatched actions,
    and the concrete scenarios of the view model's test. */
module Scenarios {
  import opened Domain
  import opened Streams
  import opened Reducer
  import opened Pipelines
  import opened StateStream

  /** Some dispatched action is a request that pipeline `k` listens to. */
  predicate Requested(k: Kind, dispatched: seq<Actions>) {
    exists i :: 0 <= i < |dispatched| && Matches(k, dispatched[i])
  }

  /** The changes of `n` successful stub calls: one `Loading` and one `true`
      result each, and nothing else. */
  lemma {:induction false} StubRounds(k: Kind, n: nat)
    ensures |Repeat([Loading, Wrap(k, true)], n)| == 2 * n
    ensures forall c :: c in Repeat([Loading, Wrap(k, true)], n) ==> c == Loading || c == Wrap(k, true)
    ensures n > 0 ==> Repeat([Loading, Wrap(k, true)], n)[2 * n - 1] == Wrap(k, true)
  {
    if n > 0 {
      var p := [Loading, Wrap(k, true)];
      var rest := Repeat(p, n - 1);
      assert Repeat(p, n) == p + rest;
      StubRounds(k, n - 1);
      assert forall c :: c in p + rest ==> c in p || c in rest;
      assert (p + rest)[2 * n - 1] == if n == 1 then p[1] else rest[2 * n - 3];
    }
  }

  /** After `n` successful stub calls the last result is `true`, and there
      is none when `n` is zero. */
  lemma {:induction false} StubRoundsResult(k: Kind, n: nat)
    ensures LastOr(Results(Repeat([Loading, Wrap(k, true)], n), k), false) == (n > 0)
  {
    if n > 0 {
      var p := [Loading, Wrap(k, true)];
      var rest := Repeat(p, n - 1);
      assert Repeat(p, n) == p + rest;
      StubRoundsResult(k, n - 1);
      ResultsAppend(p, rest, k);
      RoundResult(k);
      var tail := Results(rest, k);
      LastOrCons([true], tail, false);
      assert n == 1 ==> tail == [];
      assert tail != [] ==> LastOr(tail, true) == LastOr(tail, false);
    }
  }

  /** One successful stub round carries the single result `true`. */
  lemma RoundResult(k: Kind)
    ensures Results([Loading, Wrap(k, true)], k) == [true]
  {
    var p := [Loading, Wrap(k, true)];
    assert p[1..] == [Wrap(k, true)] && p[1..][1..] == [];
    assert Results(p[1..], k) == [true] + Results([], k);
  }

  /** The stub pipeline of kind `k` over the history of `dispatched`. */
  lemma StubChanges(k: Kind, dispatched: seq<Actions>)
    ensures var cs := Pipeline(k, History(dispatched), Stub);
      && (cs == [] <==> !Requested(k, dispatched))
      && (forall c :: c in cs ==> c == Loading || c == Wrap(k, true))
      && (cs != [] ==> cs[|cs| - 1] == Wrap(k, true))
      && LastOr(Results(cs, k), false) == Requested(k, dispatched)
  {
    var h := History(dispatched);
    var n := Count(k, h);
    StubPipeline(k, h);
    PipelineEmpty(k, h, Stub);
    PipelineErrors(k, h, Stub);
    StubRounds(k, n);
    StubRoundsResult(k, n);
    assert forall i :: 0 <= i < |dispatched| ==> h[i + 1] == dispatched[i];
    assert !Matches(k, h[0]);
    assert Repeat([Loading, Wrap(k, true)], n) == [] <==> n == 0;
  }

  /** With the shipped repository, whatever the dispatched actions and
      whatever the merge order, the final state is: idle iff nothing was
      requested, not loading, logged iff a login was requested, registered
      iff a registration was requested, and no error. */
  lemma StubFinalState(dispatched: seq<Actions>, m: seq<Change>)
    requires IsInterleaving(m, LoginChanges(dispatched, Stub), RegisterChanges(dispatched, Stub))
    ensures Fold(InitState, m) == State(
      !Requested(LoginKind, dispatched) && !Requested(RegisterKind, dispatched),
      false,
      Requested(LoginKind, dispatched),
      Requested(RegisterKind, dispatched),
      None)
  {
    StubFlags(dispatched, m);
    StubSettles(dispatched, m);
  }

  /** The three flags of the final stub state. */
  lemma StubFlags(dispatched: seq<Actions>, m: seq<Change>)
    requires IsInterleaving(m, LoginChanges(dispatched, Stub), RegisterChanges(dispatched, Stub))
    ensures Fold(InitState, m).isIdle == (!Requested(LoginKind, dispatched) && !Requested(RegisterKind, dispatched))
    ensures Fold(InitState, m).isLogged == Requested(LoginKind, dispatched)
    ensures Fold(InitState, m).isRegistered == Requested(RegisterKind, dispatched)
  {
    StubChanges(LoginKind, dispatched);
    StubChanges(RegisterKind, dispatched);
    InterleavingIndependence(dispatched, Stub, m);
    assert (forall i :: 0 <= i < |dispatched| ==> dispatched[i].Init?)
      == (!Requested(LoginKind, dispatched) && !Requested(RegisterKind, dispatched));
  }

  /** The stub state always settles: not loading, and without an error. */
  lemma StubSettles(dispatched: seq<Actions>, m: seq<Change>)
    requires IsInterleaving(m, LoginChanges(dispatched, Stub), RegisterChanges(dispatched, Stub))
    ensures !Fold(InitState, m).isLoading
    ensures Fold(InitState, m).throwable == None
  {
    StubNotLoading(dispatched, m);
    StubNoError(dispatched, m);
  }

  lemma StubNotLoading(dispatched: seq<Actions>, m: seq<Change>)
    requires IsInterleaving(m, LoginChanges(dispatched, Stub), RegisterChanges(dispatched, Stub))
    ensures !Fold(InitState, m).isLoading
  {
    FoldLoading(InitState, m);
    if m != [] {
      StubChanges(LoginKind, dispatched);
      StubChanges(RegisterKind, dispatched);
      InterleavingLast(m, LoginChanges(dispatched, Stub), RegisterChanges(dispatched, Stub));
    }
  }

  lemma StubNoError(dispatched: seq<Actions>, m: seq<Change>)
    requires IsInterleaving(m, LoginChanges(dispatched, Stub), RegisterChanges(dispatched, Stub))
    ensures Fold(InitState, m).throwable == None
  {
    var l := LoginChanges(dispatched, Stub);
    var r := RegisterChanges(dispatched, Stub);
    FoldThrowable(InitState, m);
    ErrorsEmpty(m);
    forall i | 0 <= i < |m| ensures !m[i].Error? {
      StubChanges(LoginKind, dispatched);
      StubChanges(RegisterKind, dispatched);
      InterleavingMember(m, l, r, m[i]);
    }
  }

  /** No action dispatched: the stream emits `State()` and nothing else. */
  lemma NothingDispatched(repo: Repository, schedule: seq<bool>)
    ensures StateOf([], repo, schedule) == [InitState]
  {
    assert History([]) == [Init];
    PipelineEmpty(LoginKind, [Init], repo);
    PipelineEmpty(RegisterKind, [Init], repo);
    assert LoginChanges([], repo) == [] && RegisterChanges([], repo) == [];
  }

  /** The view model's test: one login with the shipped repository ends in
      `State(isIdle = false, isLogged = true)`, after `State()` and the
      loading state, whatever the credentials. */
  lemma LoginScenario(email: string, password: string, schedule: seq<bool>)
    ensures StateOf([LoginRequest(email, password)], Stub, schedule) == [
      InitState,
      State(false, true, false, false, None),
      State(false, false, true, false, None)]
  {
    var d := [LoginRequest(email, password)];
    var l := LoginChanges(d, Stub);
    StubPipeline(LoginKind, History(d));
    assert Filter(LoginKind, History(d)) == d;
    assert l == [Loading, Logged(true)];
    StubPipeline(RegisterKind, History(d));
    assert Filter(RegisterKind, History(d)) == [];
    var m := Merge(l, [], schedule);
    InterleavingWithEmpty(m, l);
  }

  /** The test's assertion is applied to every emission of the stream, but
      only the last one is the logged-in state: `State()` and the loading
      state come first. */
  lemma TestAssertionAsWritten(email: string, password: string, schedule: seq<bool>)
    ensures var states := StateOf([LoginRequest(email, password)], Stub, schedule);
      && |states| == 3
      && states[0] != State(false, false, true, false, None)
      && states[1] != State(false, false, true, false, None)
  {
    LoginScenario(email, password, schedule);
  }

  /** A login then a registration, dispatched before either resolves: in
      every merge order both flags end up true. */
  lemma LoginAndRegisterScenario(email: string, password: string, name: string, schedule: seq<bool>)
    ensures var states := StateOf([LoginRequest(email, password), RegisterRequest(email, password, name)], Stub, schedule);
      states[|states| - 1] == State(false, false, true, true, None)
  {
    var d := [LoginRequest(email, password), RegisterRequest(email, password, name)];
    var m := Merge(LoginChanges(d, Stub), RegisterChanges(d, Stub), schedule);
    StubFinalState(d, m);
    assert Matches(LoginKind, d[0]) && Matches(RegisterKind, d[1]);
    assert m[..|m|] == m;
  }
}
