/** The authentication repository and the two change pipelines of the view
    model, `loginChanges` and `registerChanges`, read as functions from the
    sequence of actions to the sequence of changes they emit. */
module Pipelines {
  import opened Domain

  /** What one repository call yields: the booleans its flow emits, in order,
      and then either normal completion (`None`) or the failure it raises
      (`Some(e)`), which may come before any value. */
  datatype Reply = Reply(values: seq<bool>, failure: Option<Throwable>)

  /** A call that emits the single boolean `b` and completes. */
  function Succeeded(b: bool): Reply {
    Reply([b], None)
  }

  /** A repository call that raises `e` before emitting anything. */
  function Failed(e: Throwable): Reply {
    Reply([], Some(e))
  }

  /** The repository interface: the reply each call gives for its arguments. */
  datatype Repository = Repository(
    login: (string, string) -> Reply,
    register: (string, string, string) -> Reply)

  /** The shipped implementation: after its delay, each call emits `true`
      and completes. */
  const Stub: Repository :=
    Repository((email, password) => Succeeded(true), (email, password, displayName) => Succeeded(true))

  /** Which of the two pipelines. */
  datatype Kind = LoginKind | RegisterKind

  /** `filterIsInstance`: the action kind a pipeline listens to. */
  predicate Matches(k: Kind, a: Actions) {
    match k
    case LoginKind => a.LoginRequest?
    case RegisterKind => a.RegisterRequest?
  }

  /** The repository call a request triggers, with the request's fields. */
  function Call(a: Actions, repo: Repository): Reply
    requires !a.Init?
  {
    match a
    case LoginRequest(email, password) => repo.login(email, password)
    case RegisterRequest(email, password, displayName) => repo.register(email, password, displayName)
  }

  /** The change that carries one repository result into the state. */
  function Wrap(k: Kind, b: bool): Change {
    match k
    case LoginKind => Logged(b)
    case RegisterKind => Registered(b)
  }

  /** The result a change carries for pipeline `k`, if it is one. */
  function ResultOf(c: Change, k: Kind): Option<bool> {
    match c
    case Logged(b) => if k == LoginKind then Some(b) else None
    case Registered(b) => if k == RegisterKind then Some(b) else None
    case _ => None
  }

  /** The changes pipeline `k` may emit: `Loading`, its own result kind and
      an error that carries its cause. */
  predicate Emits(k: Kind, c: Change) {
    match c
    case Loading => true
    case Logged(_) => k == LoginKind
    case Registered(_) => k == RegisterKind
    case Error(t) => t.Some?
  }

  /** Every change of `cs` is one pipeline `k` may emit. */
  predicate EmitsOnly(k: Kind, cs: seq<Change>) {
    forall i :: 0 <= i < |cs| ==> Emits(k, cs[i])
  }

  /** `cs` holds no `Error` change, except possibly as its last. */
  predicate ErrorOnlyLast(cs: seq<Change>) {
    forall i :: 0 <= i < |cs| - 1 ==> !cs[i].Error?
  }

  /** `cs` holds no `Error` change at all. */
  predicate NoError(cs: seq<Change>) {
    forall i :: 0 <= i < |cs| ==> !cs[i].Error?
  }

  /** What one matching action contributes: `Loading`, then each value the
      repository emits wrapped as a result, then the error if the call fails. */
  function Segment(k: Kind, r: Reply): (cs: seq<Change>)
    ensures |cs| == 1 + |r.values| + (if r.failure.Some? then 1 else 0)
    ensures cs[0] == Loading
    ensures forall i :: 0 <= i < |r.values| ==> cs[1 + i] == Wrap(k, r.values[i])
    ensures r.failure.Some? ==> cs[|cs| - 1] == Error(r.failure)
  {
    [Loading]
    + seq(|r.values|, i requires 0 <= i < |r.values| => Wrap(k, r.values[i]))
    + (if r.failure.Some? then [Error(r.failure)] else [])
  }

  /** No matching action in `actions` gets a failing reply. */
  predicate NoFailure(k: Kind, actions: seq<Actions>, repo: Repository) {
    forall i :: 0 <= i < |actions| && Matches(k, actions[i]) ==> Call(actions[i], repo).failure.None?
  }

  /** A pipeline: `filterIsInstance`, then `transform` emitting each matching
      action's segment in action order, and the `catch` outside `transform`:
      the first failure is turned into an `Error` change and ends the
      pipeline, so later actions contribute nothing. */
  function Pipeline(k: Kind, actions: seq<Actions>, repo: Repository): seq<Change>
    decreases |actions|
  {
    if actions == [] then []
    else if !Matches(k, actions[0]) then
      Pipeline(k, actions[1..], repo)
    else
      var r := Call(actions[0], repo);
      if r.failure.Some? then Segment(k, r)
      else Segment(k, r) + Pipeline(k, actions[1..], repo)
  }

  /** A pipeline's output is empty exactly when no action matches, and is
      otherwise opened by `Loading`. */
  lemma {:induction false} PipelineEmpty(k: Kind, actions: seq<Actions>, repo: Repository)
    ensures Pipeline(k, actions, repo) == [] <==> forall i :: 0 <= i < |actions| ==> !Matches(k, actions[i])
    ensures Pipeline(k, actions, repo) != [] ==> Pipeline(k, actions, repo)[0] == Loading
    decreases |actions|
  {
    if actions != [] {
      PipelineEmpty(k, actions[1..], repo);
      assert forall i :: 0 < i < |actions| ==> actions[1..][i - 1] == actions[i];
    }
  }

  /** A pipeline's output is made only of changes this pipeline may emit,
      with an `Error` only as its very last change, and with none at all when
      no call fails. */
  lemma {:induction false} PipelineErrors(k: Kind, actions: seq<Actions>, repo: Repository)
    ensures EmitsOnly(k, Pipeline(k, actions, repo))
    ensures ErrorOnlyLast(Pipeline(k, actions, repo))
    ensures NoFailure(k, actions, repo) ==> NoError(Pipeline(k, actions, repo))
    decreases |actions|
  {
    if actions != [] {
      var cs := Pipeline(k, actions, repo);
      var rest := Pipeline(k, actions[1..], repo);
      PipelineErrors(k, actions[1..], repo);
      assert NoFailure(k, actions, repo) ==> NoFailure(k, actions[1..], repo) by {
        assert forall i :: 0 < i < |actions| ==> actions[1..][i - 1] == actions[i];
      }
      if Matches(k, actions[0]) {
        var r := Call(actions[0], repo);
        var seg := Segment(k, r);
        assert EmitsOnly(k, seg);
        if r.failure.None? {
          assert cs == seg + rest;
          assert NoError(seg);
        } else {
          assert !NoFailure(k, actions, repo) by {
            assert Matches(k, actions[0]) && Call(actions[0], repo).failure.Some?;
          }
        }
      }
    }
  }

  /** The requests pipeline `k` listens to, in order. */
  function Filter(k: Kind, actions: seq<Actions>): (fs: seq<Actions>)
    ensures forall i :: 0 <= i < |fs| ==> Matches(k, fs[i])
    ensures |fs| <= |actions|
  {
    if actions == [] then []
    else (if Matches(k, actions[0]) then [actions[0]] else []) + Filter(k, actions[1..])
  }

  /** The number of requests pipeline `k` listens to. */
  function Count(k: Kind, actions: seq<Actions>): nat {
    |Filter(k, actions)|
  }

  /** A pipeline sees only its own requests: `Init` and the other pipeline's
      requests can be dropped without changing its output. */
  lemma {:induction false} PipelineSeesOnlyItsKind(k: Kind, actions: seq<Actions>, repo: Repository)
    ensures !Matches(k, Init)
    ensures Pipeline(k, actions, repo) == Pipeline(k, Filter(k, actions), repo)
    decreases |actions|
  {
    if actions != [] {
      var rest := Filter(k, actions[1..]);
      PipelineSeesOnlyItsKind(k, actions[1..], repo);
      if Matches(k, actions[0]) {
        var fs := [actions[0]] + rest;
        assert Filter(k, actions) == fs;
        assert fs[0] == actions[0] && fs[1..] == rest;
      } else {
        assert Filter(k, actions) == rest;
      }
    }
  }

  /** Before any failure the pipeline works action by action: the changes of
      `pre + post` are those of `pre` followed by those of `post`. */
  lemma {:induction false} PipelineAppend(k: Kind, pre: seq<Actions>, post: seq<Actions>, repo: Repository)
    requires NoFailure(k, pre, repo)
    ensures Pipeline(k, pre + post, repo) == Pipeline(k, pre, repo) + Pipeline(k, post, repo)
    decreases |pre|
  {
    if pre == [] {
      assert pre + post == post;
    } else {
      var all := pre + post;
      assert all[0] == pre[0] && all[1..] == pre[1..] + post;
      assert NoFailure(k, pre[1..], repo) by {
        forall i | 0 <= i < |pre[1..]| && Matches(k, pre[1..][i])
          ensures Call(pre[1..][i], repo).failure.None?
        {
          assert pre[1..][i] == pre[i + 1];
        }
      }
      PipelineAppend(k, pre[1..], post, repo);
      if Matches(k, pre[0]) {
        var seg := Segment(k, Call(pre[0], repo));
        assert Call(pre[0], repo).failure.None?;
        assert Pipeline(k, all, repo) == seg + Pipeline(k, pre[1..] + post, repo);
        assert Pipeline(k, pre, repo) == seg + Pipeline(k, pre[1..], repo);
      } else {
        assert Pipeline(k, all, repo) == Pipeline(k, pre[1..] + post, repo);
        assert Pipeline(k, pre, repo) == Pipeline(k, pre[1..], repo);
      }
    }
  }

  /** One successful request contributes exactly `Loading` followed by its
      result; a failing one contributes `Loading` and the error, and nothing
      after it is seen. */
  lemma {:induction false} RequestContribution(
    k: Kind, pre: seq<Actions>, a: Actions, post: seq<Actions>, repo: Repository, b: bool, e: Throwable)
    requires Matches(k, a) && NoFailure(k, pre, repo)
    ensures Call(a, repo) == Succeeded(b) ==>
      Pipeline(k, pre + [a] + post, repo) == Pipeline(k, pre, repo) + [Loading, Wrap(k, b)] + Pipeline(k, post, repo)
    ensures Call(a, repo) == Failed(e) ==>
      Pipeline(k, pre + [a] + post, repo) == Pipeline(k, pre, repo) + [Loading, Error(Some(e))]
  {
    PipelineAppend(k, pre, [a] + post, repo);
    assert pre + [a] + post == pre + ([a] + post);
    assert ([a] + post)[0] == a && ([a] + post)[1..] == post;
    assert Segment(k, Succeeded(b)) == [Loading, Wrap(k, b)];
    assert Segment(k, Failed(e)) == [Loading, Error(Some(e))];
  }

  /** `Repeat(p, n)` is `n` copies of `p`, one after another. */
  function Repeat(p: seq<Change>, n: nat): seq<Change> {
    if n == 0 then [] else p + Repeat(p, n - 1)
  }

  /** With the shipped repository, every request the pipeline listens to
      adds `Loading` and a `true` result, in action order, and nothing else. */
  lemma {:induction false} StubPipeline(k: Kind, actions: seq<Actions>)
    ensures Pipeline(k, actions, Stub) == Repeat([Loading, Wrap(k, true)], Count(k, actions))
    decreases |actions|
  {
    if actions != [] {
      StubPipeline(k, actions[1..]);
      if Matches(k, actions[0]) {
        assert Call(actions[0], Stub) == Succeeded(true);
        assert Segment(k, Succeeded(true)) == [Loading, Wrap(k, true)];
      }
    }
  }
}
