/** The view model's `state()`: the two pipelines merged, and the merged
    changes folded by the reducer with `scan`, seeded with `State()`. */
module StateStream {
  import opened Domain
  import opened Streams
  import opened Reducer
  import opened Pipelines

  /** The state after applying every change of `cs` to `s`, first to last. */
  function Fold(s: State, cs: seq<Change>): State
    decreases |cs|
  {
    if cs == [] then s else Fold(Reduce(s, cs[0]), cs[1..])
  }

  /** The results for pipeline `k` carried by `cs`, in order. */
  function Results(cs: seq<Change>, k: Kind): seq<bool> {
    if cs == [] then []
    else ResultHead(cs[0], k) + Results(cs[1..], k)
  }

  /** The causes carried by the `Error` changes of `cs`, in order. */
  function Errors(cs: seq<Change>): seq<Option<Throwable>> {
    if cs == [] then []
    else ErrorHead(cs[0]) + Errors(cs[1..])
  }

  /** The cause a single change carries, as a sequence of zero or one. */
  function ErrorHead(c: Change): seq<Option<Throwable>> {
    if c.Error? then [c.throwable] else []
  }

  /** The result a single change carries, as a sequence of zero or one. */
  function ResultHead(c: Change, k: Kind): seq<bool> {
    if ResultOf(c, k).Some? then [ResultOf(c, k).value] else []
  }

  /** No result for `k` is collected exactly when no change carries one. */
  lemma {:induction false} ResultsEmpty(cs: seq<Change>, k: Kind)
    ensures Results(cs, k) == [] <==> forall i :: 0 <= i < |cs| ==> ResultOf(cs[i], k).None?
    decreases |cs|
  {
    if cs != [] {
      ResultsEmpty(cs[1..], k);
      assert forall i :: 0 < i < |cs| ==> cs[1..][i - 1] == cs[i];
    }
  }

  /** No cause is collected exactly when no change is an `Error`. */
  lemma {:induction false} ErrorsEmpty(cs: seq<Change>)
    ensures Errors(cs) == [] <==> forall i :: 0 <= i < |cs| ==> !cs[i].Error?
    decreases |cs|
  {
    if cs != [] {
      ErrorsEmpty(cs[1..]);
      assert forall i :: 0 < i < |cs| ==> cs[1..][i - 1] == cs[i];
    }
  }

  lemma {:induction false} ResultsAppend(a: seq<Change>, b: seq<Change>, k: Kind)
    ensures Results(a + b, k) == Results(a, k) + Results(b, k)
    decreases |a|
  {
    if a == [] {
      assert a + b == b;
    } else {
      var ab := a + b;
      assert ab[0] == a[0] && ab[1..] == a[1..] + b;
      ResultsAppend(a[1..], b, k);
      calc {
        Results(ab, k);
        ResultHead(a[0], k) + Results(a[1..] + b, k);
        ResultHead(a[0], k) + (Results(a[1..], k) + Results(b, k));
        (ResultHead(a[0], k) + Results(a[1..], k)) + Results(b, k);
        Results(a, k) + Results(b, k);
      }
    }
  }

  /** The folded state, field by field, without the fold: a field keeps its
      starting value until a change writes it, and then holds what the last
      such change wrote. `isIdle` is lost at the first `Loading` and never
      comes back; `isLoading` is whether the last change was `Loading`. */
  lemma FoldFields(s: State, cs: seq<Change>)
    ensures Fold(s, cs).isIdle == (s.isIdle && Loading !in cs)
    ensures Fold(s, cs).isLoading == (if cs == [] then s.isLoading else cs[|cs| - 1] == Loading)
    ensures Fold(s, cs).isLogged == LastOr(Results(cs, LoginKind), s.isLogged)
    ensures Fold(s, cs).isRegistered == LastOr(Results(cs, RegisterKind), s.isRegistered)
    ensures Fold(s, cs).throwable == LastOr(Errors(cs), s.throwable)
  {
    FoldIdle(s, cs);
    FoldLoading(s, cs);
    FoldResult(s, cs, LoginKind);
    FoldResult(s, cs, RegisterKind);
    FoldThrowable(s, cs);
  }

  lemma {:induction false} FoldIdle(s: State, cs: seq<Change>)
    ensures Fold(s, cs).isIdle == (s.isIdle && Loading !in cs)
    decreases |cs|
  {
    if cs != [] {
      var c, rest := cs[0], cs[1..];
      FoldIdle(Reduce(s, c), rest);
      assert cs == [c] + rest;
      assert Loading in cs <==> c == Loading || Loading in rest;
    }
  }

  lemma {:induction false} FoldLoading(s: State, cs: seq<Change>)
    ensures Fold(s, cs).isLoading == (if cs == [] then s.isLoading else cs[|cs| - 1] == Loading)
    decreases |cs|
  {
    if cs != [] {
      var c, rest := cs[0], cs[1..];
      FoldLoading(Reduce(s, c), rest);
      assert rest != [] ==> cs[|cs| - 1] == rest[|rest| - 1];
    }
  }

  lemma {:induction false} FoldResult(s: State, cs: seq<Change>, k: Kind)
    ensures (if k == LoginKind then Fold(s, cs).isLogged else Fold(s, cs).isRegistered)
      == LastOr(Results(cs, k), if k == LoginKind then s.isLogged else s.isRegistered)
    decreases |cs|
  {
    if cs != [] {
      var c, rest := cs[0], cs[1..];
      var s' := Reduce(s, c);
      FoldResult(s', rest, k);
      LastOrCons(ResultHead(c, k), Results(rest, k), if k == LoginKind then s.isLogged else s.isRegistered);
      assert LastOr(ResultHead(c, k), if k == LoginKind then s.isLogged else s.isRegistered)
        == if k == LoginKind then s'.isLogged else s'.isRegistered;
    }
  }

  lemma {:induction false} FoldThrowable(s: State, cs: seq<Change>)
    ensures Fold(s, cs).throwable == LastOr(Errors(cs), s.throwable)
    decreases |cs|
  {
    if cs != [] {
      var c, rest := cs[0], cs[1..];
      FoldThrowable(Reduce(s, c), rest);
      LastOrCons(ErrorHead(c), Errors(rest), s.throwable);
    }
  }

  /** The last element of `h + t` for `h` of at most one element. */
  lemma LastOrCons<T>(h: seq<T>, t: seq<T>, d: T)
    requires |h| <= 1
    ensures LastOr(h + t, d) == LastOr(t, LastOr(h, d))
  {
  }

  /** Folding `a + b` is folding `b` from where `a` left off. */
  lemma {:induction false} FoldAppend(s: State, a: seq<Change>, b: seq<Change>)
    ensures Fold(s, a + b) == Fold(Fold(s, a), b)
    decreases |a|
  {
    if a == [] {
      assert a + b == b;
    } else {
      FoldAppend(Reduce(s, a[0]), a[1..], b);
      assert (a + b)[0] == a[0] && (a + b)[1..] == a[1..] + b;
    }
  }

  /** `scan(initState, reducer)`: the seed, then the state after each change. */
  function Scan(s: State, cs: seq<Change>): (states: seq<State>)
    ensures |states| == |cs| + 1 && states[0] == s
    ensures forall i :: 0 <= i < |cs| ==> states[i + 1] == Reduce(states[i], cs[i])
    ensures forall i :: 0 <= i <= |cs| ==> states[i] == Fold(s, cs[..i])
    decreases |cs|
  {
    if cs == [] then [s]
    else
      var rest := Scan(Reduce(s, cs[0]), cs[1..]);
      assert forall i :: 0 < i <= |cs| ==> cs[..i][1..] == cs[1..][..i - 1];
      [s] + rest
  }

  /** Once a state in the stream is no longer idle, no later state is. */
  lemma {:induction false} IdleNeverRestored(s: State, cs: seq<Change>, i: nat, j: nat)
    requires i <= j <= |cs|
    ensures !Scan(s, cs)[i].isIdle ==> !Scan(s, cs)[j].isIdle
  {
    var states := Scan(s, cs);
    FoldFields(s, cs[..i]);
    FoldFields(s, cs[..j]);
    assert cs[..i] == cs[..j][..i];
    assert forall x :: x in cs[..i] ==> x in cs[..j];
  }

  /** The actions the pipelines see: the action stream's seed `Init`,
      then every dispatched action, in dispatch order. */
  function History(dispatched: seq<Actions>): seq<Actions> {
    [Init] + dispatched
  }

  /** The changes of the login pipeline and of the register pipeline. */
  function LoginChanges(dispatched: seq<Actions>, repo: Repository): seq<Change> {
    Pipeline(LoginKind, History(dispatched), repo)
  }

  function RegisterChanges(dispatched: seq<Actions>, repo: Repository): seq<Change> {
    Pipeline(RegisterKind, History(dispatched), repo)
  }

  /** Interleaving with a stream that carries no results for `k` does not
      change which results for `k` arrive, nor their order. */
  lemma {:induction false} InterleavingResults(m: seq<Change>, a: seq<Change>, b: seq<Change>, k: Kind)
    requires IsInterleaving(m, a, b) && Results(b, k) == []
    ensures Results(m, k) == Results(a, k)
    decreases |m|
  {
    if m != [] {
      if a != [] && m[0] == a[0] && IsInterleaving(m[1..], a[1..], b) {
        InterleavingResults(m[1..], a[1..], b, k);
      } else {
        assert Results(b, k) == ResultHead(b[0], k) + Results(b[1..], k);
        InterleavingResults(m[1..], a, b[1..], k);
      }
    }
  }

  /** A pipeline never carries the other pipeline's results. */
  lemma PipelineResultsOwn(actions: seq<Actions>, repo: Repository)
    ensures Results(Pipeline(LoginKind, actions, repo), RegisterKind) == []
    ensures Results(Pipeline(RegisterKind, actions, repo), LoginKind) == []
  {
    var l := Pipeline(LoginKind, actions, repo);
    var r := Pipeline(RegisterKind, actions, repo);
    PipelineEmpty(LoginKind, actions, repo);
    PipelineErrors(LoginKind, actions, repo);
    PipelineEmpty(RegisterKind, actions, repo);
    PipelineErrors(RegisterKind, actions, repo);
    assert forall i :: 0 <= i < |l| ==> Emits(LoginKind, l[i]);
    assert forall i :: 0 <= i < |r| ==> Emits(RegisterKind, r[i]);
    ResultsEmpty(l, RegisterKind);
    ResultsEmpty(r, LoginKind);
  }

  /** A change that occurs in a merge occurs in one of the merged streams. */
  lemma InterleavingMember(m: seq<Change>, a: seq<Change>, b: seq<Change>, c: Change)
    requires IsInterleaving(m, a, b)
    ensures c in m <==> c in a || c in b
  {
    InterleavingContents(m, a, b);
  }

  /** For EVERY interleaving of the two pipelines' changes, the final
      `isLogged` is the last login result (false if there is none), the final
      `isRegistered` the last register result, and the state stays idle
      exactly as long as no request was dispatched. */
  lemma InterleavingIndependence(dispatched: seq<Actions>, repo: Repository, m: seq<Change>)
    requires IsInterleaving(m, LoginChanges(dispatched, repo), RegisterChanges(dispatched, repo))
    ensures Fold(InitState, m).isLogged == LastOr(Results(LoginChanges(dispatched, repo), LoginKind), false)
    ensures Fold(InitState, m).isRegistered == LastOr(Results(RegisterChanges(dispatched, repo), RegisterKind), false)
    ensures Fold(InitState, m).isIdle == forall i :: 0 <= i < |dispatched| ==> dispatched[i].Init?
  {
    InterleavedResults(dispatched, repo, m);
    InterleavedIdle(dispatched, repo, m);
  }

  lemma InterleavedResults(dispatched: seq<Actions>, repo: Repository, m: seq<Change>)
    requires IsInterleaving(m, LoginChanges(dispatched, repo), RegisterChanges(dispatched, repo))
    ensures Fold(InitState, m).isLogged == LastOr(Results(LoginChanges(dispatched, repo), LoginKind), false)
    ensures Fold(InitState, m).isRegistered == LastOr(Results(RegisterChanges(dispatched, repo), RegisterKind), false)
  {
    var l := LoginChanges(dispatched, repo);
    var r := RegisterChanges(dispatched, repo);
    FoldResult(InitState, m, LoginKind);
    FoldResult(InitState, m, RegisterKind);
    PipelineResultsOwn(History(dispatched), repo);
    InterleavingResults(m, l, r, LoginKind);
    InterleavingSymmetric(m, l, r);
    InterleavingResults(m, r, l, RegisterKind);
  }

  lemma InterleavedIdle(dispatched: seq<Actions>, repo: Repository, m: seq<Change>)
    requires IsInterleaving(m, LoginChanges(dispatched, repo), RegisterChanges(dispatched, repo))
    ensures Fold(InitState, m).isIdle == forall i :: 0 <= i < |dispatched| ==> dispatched[i].Init?
  {
    var l := LoginChanges(dispatched, repo);
    var r := RegisterChanges(dispatched, repo);
    var h := History(dispatched);
    PipelineEmpty(LoginKind, h, repo);
    PipelineEmpty(RegisterKind, h, repo);
    FoldIdle(InitState, m);
    InterleavingMember(m, l, r, Loading);
    assert forall i :: 0 <= i < |dispatched| ==> h[i + 1] == dispatched[i];
    assert Loading in l <==> l != [];
    assert Loading in r <==> r != [];
  }

  lemma {:induction false} InterleavingSymmetric<T>(m: seq<T>, a: seq<T>, b: seq<T>)
    requires IsInterleaving(m, a, b)
    ensures IsInterleaving(m, b, a)
    decreases |m|
  {
    if m != [] {
      if a != [] && m[0] == a[0] && IsInterleaving(m[1..], a[1..], b) {
        InterleavingSymmetric(m[1..], a[1..], b);
      } else {
        InterleavingSymmetric(m[1..], a, b[1..]);
      }
    }
  }

  /** `state()`: the merge of the two pipelines under a schedule, scanned
      from `State()`. */
  function StateOf(dispatched: seq<Actions>, repo: Repository, schedule: seq<bool>): (states: seq<State>)
    ensures |states| == 1 + |LoginChanges(dispatched, repo)| + |RegisterChanges(dispatched, repo)|
    ensures states[0] == InitState
    ensures states[|states| - 1].isLogged == LastOr(Results(LoginChanges(dispatched, repo), LoginKind), false)
    ensures states[|states| - 1].isRegistered == LastOr(Results(RegisterChanges(dispatched, repo), RegisterKind), false)
  {
    var m := Merge(LoginChanges(dispatched, repo), RegisterChanges(dispatched, repo), schedule);
    InterleavingIndependence(dispatched, repo, m);
    InterleavingContents(m, LoginChanges(dispatched, repo), RegisterChanges(dispatched, repo));
    assert m[..|m|] == m;
    Scan(InitState, m)
  }
}
