/** Reloading the configuration file against an environment that may edit or replace it at any time. */
module ConfigReload {
  import opened Wrappers
  import opened Whitespace

  /** A file identity (device and inode) and its version: everything else that `stat` reports. */
  datatype Generation = Generation(identity: nat, version: nat)

  /** What one attempt saw of the file system: the metadata of the opened file before and after the
      read, what was read, and the metadata of the path; `None` is a failed call.  `preflight` says
      whether the evidence paths of the projected configuration were usable. */
  datatype Attempt = Attempt(
    before: Option<Generation>,
    contents: Option<string>,
    after: Option<Generation>,
    published: Option<Generation>,
    preflight: bool)

  /** Decoding, parsing, validation, and the projection of the reloadable settings. */
  datatype Loader<!C> = Loader(
    decode: string -> Option<string>,
    parse: string -> Option<C>,
    validate: C -> bool,
    project: (C, C) -> C,
    restartRequired: (C, C) -> bool)

  datatype Problem = ReadFailed | Unstable | InPlaceUpdate | EmptyGeneration | Invalid

  datatype Read = ReadOk(contents: string, generation: Generation) | ReadError(problem: Problem)

  datatype Terminal = Applied | NoChange | RestartPending | Rejected(problem: Problem)

  datatype Status<C> = Status(attemptGeneration: nat, snapshotGeneration: nat, snapshot: C, terminal: Terminal)

  datatype Manager<C> = Manager(
    live: C,
    status: Option<Status<C>>,
    source: Option<Generation>,
    observed: Option<Generation>)

  // ---------------------------------------------------------------- one attempt

  function ReadStable(a: Attempt): Read {
    if a.before.None? || a.contents.None? || a.after.None? || a.published.None? then ReadError(ReadFailed)
    else if a.before != a.after || a.after != a.published then ReadError(Unstable)
    else ReadOk(a.contents.value, a.published.value)
  }

  /** What `observed` becomes when the file changed during the read. */
  function ObservedUnstable(a: Attempt): Option<Generation>
    requires a.before.Some? && a.published.Some?
  {
    if a.before.value.identity == a.published.value.identity then a.before else a.published
  }

  /** The candidate of an attempt, if it gets that far, and the observed generation after it. */
  datatype Loaded<C> = Loaded(observed: Option<Generation>, candidate: Option<C>, problem: Problem)

  function Decode<C>(loader: Loader<C>, observed: Option<Generation>, contents: string): Loaded<C> {
    match loader.decode(contents)
    case None => Loaded(observed, None, ReadFailed)
    case Some(text) =>
      if Trim(text) == "" then Loaded(observed, None, EmptyGeneration)
      else Loaded(observed, loader.parse(text), Invalid)
  }

  function Load<C>(loader: Loader<C>, observed: Option<Generation>, a: Attempt): Loaded<C> {
    match ReadStable(a)
    case ReadError(Unstable) => Loaded(ObservedUnstable(a), None, Unstable)
    case ReadError(problem) => Loaded(observed, None, problem)
    case ReadOk(contents, generation) =>
      if observed.Some? && observed.value.identity == generation.identity && observed.value != generation then
        Loaded(observed, None, InPlaceUpdate)
      else
        Decode(loader, Some(generation), contents)
  }

  /** The configuration that results from projecting `requested` onto `current`, if it is usable. */
  function Project<C(==)>(loader: Loader<C>, current: C, requested: C, preflight: bool): Option<C> {
    var next := loader.project(current, requested);
    if loader.validate(next) && preflight then Some(next) else None
  }

  function Record<C>(m: Manager<C>, terminal: Terminal): Manager<C> {
    var attempt := if m.status.Some? then m.status.value.attemptGeneration + 1 else 1;
    var snapshot :=
      if !terminal.Rejected? then attempt
      else if m.status.Some? then m.status.value.snapshotGeneration else 0;
    m.(status := Some(Status(attempt, snapshot, m.live, terminal)))
  }

  function Outcome<C(==)>(loader: Loader<C>, current: C, requested: C, next: C): Terminal {
    if next != current then Applied
    else if loader.restartRequired(current, requested) then RestartPending
    else NoChange
  }

  function Reload<C(==)>(loader: Loader<C>, m: Manager<C>, a: Attempt): Manager<C> {
    var loaded := Load(loader, m.observed, a);
    var seen := m.(observed := loaded.observed);
    match loaded.candidate
    case None => Record(seen, Rejected(loaded.problem))
    case Some(requested) =>
      match Project(loader, m.live, requested, a.preflight)
      case None => Record(seen, Rejected(Invalid))
      case Some(next) =>
        Record(seen.(live := next, source := a.published), Outcome(loader, m.live, requested, next))
  }

  /** The attempt was accepted: its candidate passed every check. */
  predicate Accepts<C(==)>(loader: Loader<C>, m: Manager<C>, a: Attempt) {
    var loaded := Load(loader, m.observed, a);
    loaded.candidate.Some? && Project(loader, m.live, loaded.candidate.value, a.preflight).Some?
  }

  // ---------------------------------------------------------------- what an attempt comes to

  /** All four samples were taken, and show one version. */
  predicate Steady(a: Attempt) {
    a.before.Some? && a.contents.Some? && a.before == a.after && a.after == a.published
  }

  /** The published generation is not a changed version of the observed identity. */
  predicate Unchanged(observed: Option<Generation>, published: Generation) {
    observed.Some? && observed.value.identity == published.identity ==> observed.value == published
  }

  /** The configuration written in a file's contents, if there is one. */
  ghost predicate Holds<C>(loader: Loader<C>, contents: string, requested: C) {
    && loader.decode(contents).Some?
    && (exists i :: 0 <= i < |loader.decode(contents).value| && !IsWhitespace(loader.decode(contents).value[i]))
    && loader.parse(loader.decode(contents).value) == Some(requested)
  }

  /** What an attempt must come to, from what it saw alone. */
  ghost predicate Reloaded<C(!new)>(loader: Loader<C>, m: Manager<C>, a: Attempt, next: Manager<C>) {
    && next.status.Some?
    && (!next.status.value.terminal.Rejected? <==>
        && Steady(a) && Unchanged(m.observed, a.published.value) && a.preflight
        && exists c :: Holds(loader, a.contents.value, c) && loader.validate(loader.project(m.live, c)))
    && (!next.status.value.terminal.Rejected? ==>
          && next.source == next.observed == a.published
          && forall c :: Holds(loader, a.contents.value, c) ==>
                           && next.live == loader.project(m.live, c)
                           && (next.status.value.terminal.Applied? <==> next.live != m.live)
                           && (next.status.value.terminal.RestartPending? <==> next.live == m.live && loader.restartRequired(m.live, c))
                           && (next.status.value.terminal.NoChange? <==> next.live == m.live && !loader.restartRequired(m.live, c)))
    && (next.status.value.terminal.Rejected? ==> next.live == m.live && next.source == m.source)
  }

  /** Why an attempt is rejected, from what it saw alone. */
  ghost predicate RejectedFor<C(!new)>(loader: Loader<C>, m: Manager<C>, a: Attempt, problem: Problem) {
    var sampled := a.before.Some? && a.contents.Some? && a.after.Some? && a.published.Some?;
    match problem
    case ReadFailed => !sampled || (Steady(a) && Unchanged(m.observed, a.published.value) && loader.decode(a.contents.value).None?)
    case Unstable => sampled && !Steady(a)
    case InPlaceUpdate => Steady(a) && !Unchanged(m.observed, a.published.value)
    case EmptyGeneration =>
      && Steady(a) && Unchanged(m.observed, a.published.value) && loader.decode(a.contents.value).Some?
      && Blank(loader.decode(a.contents.value).value)
    case Invalid =>
      && Steady(a) && Unchanged(m.observed, a.published.value) && loader.decode(a.contents.value).Some?
      && !Blank(loader.decode(a.contents.value).value)
      && forall c :: Holds(loader, a.contents.value, c) ==> !loader.validate(loader.project(m.live, c)) || !a.preflight
  }

  /** An attempt is accepted exactly when the file held still, is not a changed version of what was observed,
      and holds a configuration whose projection is valid; then the projection becomes live. */
  lemma ReloadExactly<C(!new)>(loader: Loader<C>, m: Manager<C>, a: Attempt)
    ensures Reloaded(loader, m, a, Reload(loader, m, a))
    ensures forall problem :: Reload(loader, m, a).status.value.terminal == Rejected(problem) ==> RejectedFor(loader, m, a, problem)
  {
    if a.contents.Some? && loader.decode(a.contents.value).Some? {
      var text := loader.decode(a.contents.value).value;
      TrimBlank(text);
      if loader.parse(text).Some? && !Blank(text) {
        assert Holds(loader, a.contents.value, loader.parse(text).value);
      }
    }
  }

  class ConfigManager<C(==, !new)> {
    const loader: Loader<C>
    var handle: C
    var reloadStatus: Option<Status<C>>
    var sourceGeneration: Option<Generation>
    var observedGeneration: Option<Generation>
    ghost const initial: Manager<C>
    ghost var attempts: seq<Attempt>

    ghost function View(): Manager<C>
      reads this
    {
      Manager(handle, reloadStatus, sourceGeneration, observedGeneration)
    }

    /** The manager is where the attempts so far have brought it. */
    ghost predicate Valid()
      reads this
    {
      View() == RunOf(loader, initial, attempts)
    }

    constructor (loader: Loader<C>, config: C, generation: Option<Generation>)
      ensures Valid() && attempts == [] && this.loader == loader && initial == Manager(config, None, generation, generation)
    {
      this.loader := loader;
      handle, reloadStatus := config, None;
      sourceGeneration, observedGeneration := generation, generation;
      initial, attempts := Manager(config, None, generation, generation), [];
    }

    method ReadStableSource(a: Attempt) returns (r: Read)
      modifies this`observedGeneration
      ensures r == ReadStable(a)
      ensures observedGeneration == if r == ReadError(Unstable) then ObservedUnstable(a) else old(observedGeneration)
    {
      if a.before.None? || a.contents.None? || a.after.None? || a.published.None? {
        return ReadError(ReadFailed);
      }
      if a.before != a.after || a.after != a.published {
        if a.before.value.identity == a.published.value.identity {
          observedGeneration := a.before;
        } else {
          observedGeneration := a.published;
        }
        return ReadError(Unstable);
      }
      return ReadOk(a.contents.value, a.published.value);
    }

    method LoadReloadConfig(a: Attempt) returns (candidate: Option<C>, problem: Problem)
      modifies this`observedGeneration
      ensures Loaded(observedGeneration, candidate, problem) == Load(loader, old(observedGeneration), a)
    {
      var r := ReadStableSource(a);
      if r.ReadError? {
        return None, r.problem;
      }
      if observedGeneration.Some? && observedGeneration.value.identity == r.generation.identity
         && observedGeneration.value != r.generation {
        return None, InPlaceUpdate;
      }
      if observedGeneration.None? || observedGeneration.value.identity != r.generation.identity {
        observedGeneration := Some(r.generation);
      }
      var text := loader.decode(r.contents);
      if text.None? {
        return None, ReadFailed;
      }
      if Trim(text.value) == "" {
        return None, EmptyGeneration;
      }
      return loader.parse(text.value), Invalid;
    }

    method RecordStatus(terminal: Terminal)
      modifies this`reloadStatus
      ensures View() == Record(old(View()), terminal)
    {
      var attempt := if reloadStatus.Some? then reloadStatus.value.attemptGeneration + 1 else 1;
      var snapshot := attempt;
      if terminal.Rejected? {
        snapshot := if reloadStatus.Some? then reloadStatus.value.snapshotGeneration else 0;
      }
      reloadStatus := Some(Status(attempt, snapshot, handle, terminal));
    }

    method ReloadOnce(a: Attempt)
      requires Valid()
      modifies this
      ensures Valid() && attempts == old(attempts) + [a]
      ensures View() == Reload(loader, old(View()), a) && Reloaded(loader, old(View()), a, View())
    {
      ReloadExactly(loader, View(), a);
      attempts := attempts + [a];
      assert attempts[..|attempts| - 1] == old(attempts);
      var candidate, problem := LoadReloadConfig(a);
      if candidate.None? {
        RecordStatus(Rejected(problem));
        return;
      }
      var current := handle;
      var projected := loader.project(current, candidate.value);
      if !loader.validate(projected) || !a.preflight {
        RecordStatus(Rejected(Invalid));
        return;
      }
      handle := projected;
      sourceGeneration := a.published;
      RecordStatus(Outcome(loader, current, candidate.value, projected));
    }
  }

  // ---------------------------------------------------------------- runs

  function RunOf<C(==)>(loader: Loader<C>, initial: Manager<C>, attempts: seq<Attempt>): Manager<C> {
    if attempts == [] then initial
    else Reload(loader, RunOf(loader, initial, attempts[..|attempts| - 1]), attempts[|attempts| - 1])
  }

  /** Attempt `i` of the run was accepted. */
  predicate Accepted<C(==)>(loader: Loader<C>, initial: Manager<C>, attempts: seq<Attempt>, i: nat)
    requires i < |attempts|
  {
    Accepts(loader, RunOf(loader, initial, attempts[..i]), attempts[i])
  }

  /** A rejection leaves the live snapshot, its generation and the accepted source alone; every attempt
      is counted; and a status always describes the live snapshot. */
  lemma RejectionKeepsSnapshot<C>(loader: Loader<C>, m: Manager<C>, a: Attempt)
    ensures var next := Reload(loader, m, a);
            && next.status.Some? && next.status.value.snapshot == next.live
            && next.status.value.attemptGeneration == (if m.status.Some? then m.status.value.attemptGeneration else 0) + 1
            && (next.status.value.terminal.Rejected? <==> !Accepts(loader, m, a))
            && (!Accepts(loader, m, a) ==>
                  && next.live == m.live && next.source == m.source
                  && next.status.value.snapshotGeneration == if m.status.Some? then m.status.value.snapshotGeneration else 0)
            && (Accepts(loader, m, a) ==>
                  next.source == a.published && next.status.value.snapshotGeneration == next.status.value.attemptGeneration)
  {
  }

  /** The number of the last accepted attempt, counting from one; 0 if there is none. */
  function LastAccepted<C(==)>(loader: Loader<C>, initial: Manager<C>, attempts: seq<Attempt>): nat {
    if attempts == [] then 0
    else if Accepts(loader, RunOf(loader, initial, attempts[..|attempts| - 1]), attempts[|attempts| - 1]) then |attempts|
    else LastAccepted(loader, initial, attempts[..|attempts| - 1])
  }

  /** Over a whole run the attempt generation counts the attempts and the snapshot generation is the
      number of the last accepted one. */
  lemma {:induction false} GenerationsCount<C>(loader: Loader<C>, initial: Manager<C>, attempts: seq<Attempt>)
    requires initial.status.None? && attempts != []
    ensures var status := RunOf(loader, initial, attempts).status;
            && status.Some? && status.value.attemptGeneration == |attempts|
            && status.value.snapshotGeneration == LastAccepted(loader, initial, attempts)
            && status.value.snapshot == RunOf(loader, initial, attempts).live
  {
    var before := attempts[..|attempts| - 1];
    RejectionKeepsSnapshot(loader, RunOf(loader, initial, before), attempts[|attempts| - 1]);
    if before != [] {
      GenerationsCount(loader, initial, before);
    }
  }

  // ---------------------------------------------------------------- the file system

  /** Within an attempt: `before` and `after` are of the one opened file, its version only grows, and
      a read during which it did not change returns the content of that version. */
  ghost predicate Plausible(contentOf: Generation -> string, a: Attempt) {
    && (a.before.Some? && a.after.Some? ==>
          a.before.value.identity == a.after.value.identity && a.before.value.version <= a.after.value.version)
    && (a.after.Some? && a.published.Some? && a.after.value.identity == a.published.value.identity ==>
          a.after.value.version <= a.published.value.version)
    && (a.before.Some? && a.published.Some? && a.before.value.identity == a.published.value.identity ==>
          a.before.value.version <= a.published.value.version)
    && (a.before.Some? && a.before == a.after && a.contents.Some? ==> a.contents.value == contentOf(a.before.value))
  }

  predicate NotBefore(g: Generation, o: Option<Generation>) {
    o.Some? && o.value.identity == g.identity ==> g.version <= o.value.version
  }

  /** What an attempt samples is not older than generation `g`. */
  predicate After(g: Generation, a: Attempt) {
    NotBefore(g, a.before) && NotBefore(g, a.after) && NotBefore(g, a.published)
  }

  predicate AfterAll(a: Attempt, b: Attempt) {
    (a.before.Some? ==> After(a.before.value, b)) && (a.published.Some? ==> After(a.published.value, b))
  }

  /** Versions of one identity never decrease, within and across attempts. */
  ghost predicate History(contentOf: Generation -> string, start: Option<Generation>, attempts: seq<Attempt>) {
    && (forall i :: 0 <= i < |attempts| ==> Plausible(contentOf, attempts[i]))
    && (forall i :: 0 <= i < |attempts| && start.Some? ==> After(start.value, attempts[i]))
    && (forall i, j :: 0 <= i < j < |attempts| ==> AfterAll(attempts[i], attempts[j]))
  }

  /** An accepted configuration is parsed from the content of one single version of the file. */
  lemma AcceptedIsOneVersion<C>(loader: Loader<C>, contentOf: Generation -> string, m: Manager<C>, a: Attempt)
    requires Plausible(contentOf, a) && Accepts(loader, m, a)
    ensures a.published.Some?
    ensures var text := loader.decode(contentOf(a.published.value));
            && text.Some? && loader.parse(text.value).Some?
            && Reload(loader, m, a).live == loader.project(m.live, loader.parse(text.value).value)
            && Reload(loader, m, a).source == Reload(loader, m, a).observed == a.published
  {
  }

  // ---------------------------------------------------------------- one identity, one version

  lemma {:induction false} RunStep<C>(loader: Loader<C>, initial: Manager<C>, attempts: seq<Attempt>, k: nat)
    requires k < |attempts|
    ensures RunOf(loader, initial, attempts[..k + 1]) == Reload(loader, RunOf(loader, initial, attempts[..k]), attempts[k])
  {
    assert attempts[..k + 1][..k] == attempts[..k];
  }

  /** What is observed is never newer than what later attempts sample. */
  lemma PastStep(observed: Option<Generation>, a: Attempt, next: Option<Generation>, later: Attempt)
    requires next in {observed, a.before, a.published} && AfterAll(a, later)
    requires observed.Some? ==> After(observed.value, later)
    ensures next.Some? ==> After(next.value, later)
  {
  }

  /** What was observed before comes from samples that the later attempt does not precede. */
  lemma {:induction false} ObservedIsBefore<C>(loader: Loader<C>, initial: Manager<C>, attempts: seq<Attempt>, later: Attempt)
    requires initial.observed.Some? ==> After(initial.observed.value, later)
    requires forall n :: 0 <= n < |attempts| ==> AfterAll(attempts[n], later)
    ensures var observed := RunOf(loader, initial, attempts).observed; observed.Some? ==> After(observed.value, later)
  {
    if attempts != [] {
      var before, a := attempts[..|attempts| - 1], attempts[|attempts| - 1];
      ObservedIsBefore(loader, initial, before, later);
      ObservedComesFrom(loader, RunOf(loader, initial, before), a);
      PastStep(RunOf(loader, initial, before).observed, a, RunOf(loader, initial, attempts).observed, later);
    }
  }

  lemma ObservedIsPast<C>(loader: Loader<C>, contentOf: Generation -> string, initial: Manager<C>, attempts: seq<Attempt>, k: nat)
    requires History(contentOf, initial.observed, attempts) && k <= |attempts|
    ensures var observed := RunOf(loader, initial, attempts[..k]).observed;
            forall i :: k <= i < |attempts| && observed.Some? ==> After(observed.value, attempts[i])
  {
    var observed := RunOf(loader, initial, attempts[..k]).observed;
    forall i | k <= i < |attempts| && observed.Some? ensures After(observed.value, attempts[i]) {
      ObservedIsBefore(loader, initial, attempts[..k], attempts[i]);
    }
  }

  lemma ObservedComesFrom<C>(loader: Loader<C>, m: Manager<C>, a: Attempt)
    ensures Reload(loader, m, a).observed in {m.observed, a.before, a.published}
  {
  }

  /** Whatever the attempt finds at the path has this identity. */
  predicate Publishes(a: Attempt, identity: nat) {
    a.published.Some? ==> a.published.value.identity == identity
  }

  /** The attempt completed its samples but had opened another file than the one it found published. */
  predicate Flickers(a: Attempt) {
    && a.before.Some? && a.contents.Some? && a.after.Some? && a.published.Some?
    && a.before.value.identity != a.published.value.identity
  }

  /** One of the attempts from `i` up to `j` flickered and found `g` published. */
  ghost predicate FlickeredTo(attempts: seq<Attempt>, i: nat, j: nat, g: Generation)
    requires j <= |attempts|
  {
    exists k :: i <= k < j && Flickers(attempts[k]) && attempts[k].published == Some(g)
  }

  /** The generation is older than all that the attempts from `k` on find published of its identity. */
  ghost predicate Outdated(g: Generation, attempts: seq<Attempt>, k: nat) {
    forall i :: k <= i < |attempts| && attempts[i].published.Some? && attempts[i].published.value.identity == g.identity ==>
                  g.version < attempts[i].published.value.version
  }

  /** Where the observed generation comes from, while the path shows one identity: it is the one observed
      at the start, or one that a flickering attempt found published, or it is out of date. */
  ghost predicate Traced(observed: Option<Generation>, start: Option<Generation>, identity: nat, attempts: seq<Attempt>, i: nat, k: nat)
    requires k <= |attempts|
  {
    && observed.Some? && observed.value.identity == identity
    && (observed == start || FlickeredTo(attempts, i, k, observed.value) || Outdated(observed.value, attempts, k))
  }

  /** What one attempt makes of the observed generation, while the path shows its identity. */
  lemma ObservedStep<C>(loader: Loader<C>, contentOf: Generation -> string, m: Manager<C>, a: Attempt, identity: nat)
    requires Plausible(contentOf, a) && Publishes(a, identity) && m.observed.Some? && m.observed.value.identity == identity
    ensures var observed := Reload(loader, m, a).observed;
            && (Flickers(a) ==> observed == a.published)
            && (!Flickers(a) && observed != m.observed ==>
                  && observed == a.before && observed.Some? && a.published.Some? && observed.value.identity == identity
                  && observed.value.version < a.published.value.version)
  {
  }

  lemma OutdatedAfter(g: Generation, attempts: seq<Attempt>, k: nat)
    requires k < |attempts| && attempts[k].published.Some? && g.version < attempts[k].published.value.version
    requires g.identity == attempts[k].published.value.identity
    requires forall j :: k < j < |attempts| ==> AfterAll(attempts[k], attempts[j])
    ensures Outdated(g, attempts, k + 1)
  {
    forall i | k + 1 <= i < |attempts| && attempts[i].published.Some? && attempts[i].published.value.identity == g.identity
      ensures g.version < attempts[i].published.value.version
    {
      assert AfterAll(attempts[k], attempts[i]);
    }
  }

  lemma TracedStep<C>(loader: Loader<C>, contentOf: Generation -> string, m: Manager<C>, start: Option<Generation>, attempts: seq<Attempt>, i: nat, k: nat, identity: nat)
    requires i <= k < |attempts| && Publishes(attempts[k], identity) && Plausible(contentOf, attempts[k])
    requires forall j :: k < j < |attempts| ==> AfterAll(attempts[k], attempts[j])
    requires Traced(m.observed, start, identity, attempts, i, k)
    ensures Traced(Reload(loader, m, attempts[k]).observed, start, identity, attempts, i, k + 1)
  {
    var observed := Reload(loader, m, attempts[k]).observed;
    ObservedStep(loader, contentOf, m, attempts[k], identity);
    if Flickers(attempts[k]) {
      assert FlickeredTo(attempts, i, k + 1, observed.value);
    } else if observed != m.observed {
      OutdatedAfter(observed.value, attempts, k);
    } else if FlickeredTo(attempts, i, k, observed.value) {
      var n :| i <= n < k && Flickers(attempts[n]) && attempts[n].published == observed;
      assert FlickeredTo(attempts, i, k + 1, observed.value);
    }
  }

  lemma TracedAttempt<C>(loader: Loader<C>, contentOf: Generation -> string, initial: Manager<C>, start: Option<Generation>, attempts: seq<Attempt>, i: nat, k: nat, identity: nat)
    requires History(contentOf, initial.observed, attempts) && i <= k < |attempts| && Publishes(attempts[k], identity)
    requires Traced(RunOf(loader, initial, attempts[..k]).observed, start, identity, attempts, i, k)
    ensures Traced(RunOf(loader, initial, attempts[..k + 1]).observed, start, identity, attempts, i, k + 1)
  {
    RunStep(loader, initial, attempts, k);
    TracedStep(loader, contentOf, RunOf(loader, initial, attempts[..k]), start, attempts, i, k, identity);
  }

  lemma {:induction false} TracedRun<C>(loader: Loader<C>, contentOf: Generation -> string, initial: Manager<C>, start: Option<Generation>, attempts: seq<Attempt>, i: nat, k: nat, j: nat, identity: nat)
    requires History(contentOf, initial.observed, attempts) && i <= k <= j <= |attempts|
    requires forall n :: k <= n < j ==> Publishes(attempts[n], identity)
    requires Traced(RunOf(loader, initial, attempts[..k]).observed, start, identity, attempts, i, k)
    ensures Traced(RunOf(loader, initial, attempts[..j]).observed, start, identity, attempts, i, j)
    decreases j - k
  {
    if k == j {
      assert attempts[..k] == attempts[..j];
    } else {
      TracedAttempt(loader, contentOf, initial, start, attempts, i, k, identity);
      TracedRun(loader, contentOf, initial, start, attempts, i, k + 1, j, identity);
    }
  }

  /** Between an observed generation and an attempt that still finds it published there is no other
      version of its identity. */
  lemma PinnedStep<C>(loader: Loader<C>, contentOf: Generation -> string, m: Manager<C>, a: Attempt, last: Attempt, g: Generation)
    requires Plausible(contentOf, a) && Publishes(a, g.identity) && m.observed == Some(g)
    requires After(g, a) && AfterAll(a, last) && last.published == Some(g)
    ensures Reload(loader, m, a).observed == Some(g)
  {
    ObservedStep(loader, contentOf, m, a, g.identity);
  }

  /** The last attempt of a history: what came before it, and how its samples relate to that. */
  lemma HistoryEnds<C>(loader: Loader<C>, contentOf: Generation -> string, initial: Manager<C>, attempts: seq<Attempt>)
    requires History(contentOf, initial.observed, attempts) && attempts != []
    ensures var before, a := attempts[..|attempts| - 1], attempts[|attempts| - 1];
            && History(contentOf, initial.observed, before) && Plausible(contentOf, a)
            && var observed := RunOf(loader, initial, before).observed;
            observed.Some? ==> After(observed.value, a)
  {
    var before, a := attempts[..|attempts| - 1], attempts[|attempts| - 1];
    assert forall n :: 0 <= n < |before| ==> before[n] == attempts[n];
    ObservedIsBefore(loader, initial, before, a);
  }

  lemma {:induction false} PinnedUntil<C>(loader: Loader<C>, contentOf: Generation -> string, initial: Manager<C>, attempts: seq<Attempt>, k: nat, last: Attempt, g: Generation)
    requires History(contentOf, initial.observed, attempts) && k <= |attempts|
    requires forall n :: 0 <= n < |attempts| ==> AfterAll(attempts[n], last)
    requires forall n :: k <= n < |attempts| ==> Publishes(attempts[n], g.identity)
    requires RunOf(loader, initial, attempts[..k]).observed == Some(g) && last.published == Some(g)
    ensures RunOf(loader, initial, attempts).observed == Some(g)
    decreases |attempts|
  {
    if k == |attempts| {
      assert attempts[..k] == attempts;
    } else {
      var before, a := attempts[..|attempts| - 1], attempts[|attempts| - 1];
      assert before[..k] == attempts[..k];
      HistoryEnds(loader, contentOf, initial, attempts);
      PinnedUntil(loader, contentOf, initial, before, k, last, g);
      PinnedStep(loader, contentOf, RunOf(loader, initial, before), a, last, g);
    }
  }

  lemma PinnedRun<C>(loader: Loader<C>, contentOf: Generation -> string, initial: Manager<C>, attempts: seq<Attempt>, k: nat, j: nat, g: Generation)
    requires History(contentOf, initial.observed, attempts) && k <= j < |attempts|
    requires forall n :: k <= n < j ==> Publishes(attempts[n], g.identity)
    requires RunOf(loader, initial, attempts[..k]).observed == Some(g) && attempts[j].published == Some(g)
    ensures RunOf(loader, initial, attempts[..j]).observed == Some(g)
  {
    var until := attempts[..j];
    assert until[..k] == attempts[..k];
    assert forall n :: 0 <= n < j ==> until[n] == attempts[n];
    PinnedUntil(loader, contentOf, initial, until, k, attempts[j], g);
  }

  lemma FlickerPins<C>(loader: Loader<C>, contentOf: Generation -> string, initial: Manager<C>, attempts: seq<Attempt>, k: nat, j: nat, g: Generation)
    requires History(contentOf, initial.observed, attempts) && k < j < |attempts|
    requires forall n :: k < n < j ==> Publishes(attempts[n], g.identity)
    requires Flickers(attempts[k]) && attempts[k].published == Some(g) == attempts[j].published
    ensures RunOf(loader, initial, attempts[..j]).observed == Some(g)
  {
    RunStep(loader, initial, attempts, k);
    assert Reload(loader, RunOf(loader, initial, attempts[..k]), attempts[k]).observed == Some(g);
    PinnedRun(loader, contentOf, initial, attempts, k + 1, j, g);
  }

  /** While the path shows one identity, an attempt finds its published generation observed exactly when
      that was observed at the start, or an attempt in between opened another file and found it published. */
  lemma ObservedExactly<C>(loader: Loader<C>, contentOf: Generation -> string, initial: Manager<C>, start: Option<Generation>, attempts: seq<Attempt>, i: nat, k: nat, j: nat, g: Generation)
    requires History(contentOf, initial.observed, attempts) && i <= k <= j < |attempts| && k <= i + 1
    requires forall n :: i <= n < j ==> Publishes(attempts[n], g.identity)
    requires attempts[j].published == Some(g)
    requires Traced(RunOf(loader, initial, attempts[..k]).observed, start, g.identity, attempts, i, k)
    requires start == Some(g) ==> RunOf(loader, initial, attempts[..k]).observed == Some(g)
    ensures RunOf(loader, initial, attempts[..j]).observed == Some(g) <==> start == Some(g) || FlickeredTo(attempts, i, j, g)
  {
    TracedRun(loader, contentOf, initial, start, attempts, i, k, j, g.identity);
    if start == Some(g) {
      PinnedRun(loader, contentOf, initial, attempts, k, j, g);
    }
    if FlickeredTo(attempts, i, j, g) {
      var n :| i <= n < j && Flickers(attempts[n]) && attempts[n].published == Some(g);
      FlickerPins(loader, contentOf, initial, attempts, n, j, g);
    }
  }

  // ---------------------------------------------------------------- what is accepted

  /** The attempt is stable, and what it read is a usable configuration. */
  predicate Loadable<C(==)>(loader: Loader<C>, live: C, a: Attempt) {
    && ReadStable(a).ReadOk?
    && var candidate := Decode(loader, a.published, a.contents.value).candidate;
    candidate.Some? && Project(loader, live, candidate.value, a.preflight).Some?
  }

  lemma AcceptsExactly<C>(loader: Loader<C>, m: Manager<C>, a: Attempt)
    requires m.observed.Some? && a.published.Some? && m.observed.value.identity == a.published.value.identity
    ensures Accepts(loader, m, a) <==> Loadable(loader, m.live, a) && m.observed == a.published
  {
  }

  /** Attempt `j` of the run finds a usable configuration. */
  predicate LoadableAt<C(==)>(loader: Loader<C>, initial: Manager<C>, attempts: seq<Attempt>, j: nat)
    requires j < |attempts|
  {
    Loadable(loader, RunOf(loader, initial, attempts[..j]).live, attempts[j])
  }

  lemma AcceptedFrom<C>(loader: Loader<C>, contentOf: Generation -> string, initial: Manager<C>, start: Option<Generation>, attempts: seq<Attempt>, i: nat, k: nat, j: nat, g: Generation)
    requires History(contentOf, initial.observed, attempts) && i <= k <= j < |attempts| && k <= i + 1
    requires forall n :: i <= n < j ==> Publishes(attempts[n], g.identity)
    requires attempts[j].published == Some(g)
    requires Traced(RunOf(loader, initial, attempts[..k]).observed, start, g.identity, attempts, i, k)
    requires start == Some(g) ==> RunOf(loader, initial, attempts[..k]).observed == Some(g)
    ensures Accepted(loader, initial, attempts, j) <==>
            LoadableAt(loader, initial, attempts, j) && (start == Some(g) || FlickeredTo(attempts, i, j, g))
  {
    ObservedExactly(loader, contentOf, initial, start, attempts, i, k, j, g);
    TracedRun(loader, contentOf, initial, start, attempts, i, k, j, g.identity);
    AcceptsExactly(loader, RunOf(loader, initial, attempts[..j]), attempts[j]);
  }

  /** While the path shows the identity that was loaded at the start, a usable version of it is accepted
      exactly when it is the one loaded, or some attempt opened another file and found it published. */
  lemma InitialVersionStays<C>(loader: Loader<C>, contentOf: Generation -> string, initial: Manager<C>, attempts: seq<Attempt>, j: nat)
    requires initial.observed.Some? && History(contentOf, initial.observed, attempts) && j < |attempts|
    requires attempts[j].published.Some? && forall k :: 0 <= k <= j ==> Publishes(attempts[k], initial.observed.value.identity)
    ensures var g := attempts[j].published.value;
            Accepted(loader, initial, attempts, j) <==>
            LoadableAt(loader, initial, attempts, j) && (initial.observed == Some(g) || FlickeredTo(attempts, 0, j, g))
  {
    assert attempts[..0] == [];
    AcceptedFrom(loader, contentOf, initial, initial.observed, attempts, 0, 0, j, attempts[j].published.value);
  }

  /** While the path shows one identity, after an accepted version of it another usable one is accepted
      exactly when some attempt in between opened another file and found that one published: without
      such an attempt, at most one version is ever accepted. */
  lemma OneVersionPerIdentity<C>(loader: Loader<C>, contentOf: Generation -> string, initial: Manager<C>, attempts: seq<Attempt>, i: nat, j: nat, identity: nat)
    requires History(contentOf, initial.observed, attempts) && i < j < |attempts|
    requires forall k :: i <= k <= j ==> Publishes(attempts[k], identity)
    requires Accepted(loader, initial, attempts, i) && attempts[j].published.Some?
    ensures var g := attempts[j].published.value;
            Accepted(loader, initial, attempts, j) <==>
            LoadableAt(loader, initial, attempts, j) && (attempts[i].published == Some(g) || FlickeredTo(attempts, i + 1, j, g))
  {
    RunStep(loader, initial, attempts, i);
    AcceptedIsOneVersion(loader, contentOf, RunOf(loader, initial, attempts[..i]), attempts[i]);
    AcceptedFrom(loader, contentOf, initial, attempts[i].published, attempts, i + 1, i + 1, j, attempts[j].published.value);
  }

  /** Attempt `i` was rejected because the file had changed, or was changing, in place. */
  predicate SeesChange<C>(loader: Loader<C>, m: Manager<C>, a: Attempt) {
    var loaded := Load(loader, m.observed, a);
    loaded.candidate.None? && loaded.problem in {InPlaceUpdate, Unstable}
  }

  lemma ChangeIsTraced<C>(loader: Loader<C>, contentOf: Generation -> string, m: Manager<C>, attempts: seq<Attempt>, i: nat, identity: nat)
    requires i < |attempts| && Plausible(contentOf, attempts[i]) && Publishes(attempts[i], identity)
    requires forall j :: i < j < |attempts| ==> AfterAll(attempts[i], attempts[j])
    requires m.observed.Some? ==> After(m.observed.value, attempts[i])
    requires SeesChange(loader, m, attempts[i])
    ensures Traced(Reload(loader, m, attempts[i]).observed, None, identity, attempts, i, i + 1)
  {
    var observed := Reload(loader, m, attempts[i]).observed;
    if Flickers(attempts[i]) {
      assert FlickeredTo(attempts, i, i + 1, observed.value);
    } else {
      OutdatedAfter(observed.value, attempts, i);
    }
  }

  /** Once a change is seen, also during a read, a usable version is accepted while the path shows the
      identity exactly when some attempt from then on opened another file and found it published. */
  lemma ChangeBlocksIdentity<C>(loader: Loader<C>, contentOf: Generation -> string, initial: Manager<C>, attempts: seq<Attempt>, i: nat, j: nat, identity: nat)
    requires History(contentOf, initial.observed, attempts) && i < j < |attempts|
    requires forall k :: i <= k <= j ==> Publishes(attempts[k], identity)
    requires SeesChange(loader, RunOf(loader, initial, attempts[..i]), attempts[i]) && attempts[j].published.Some?
    ensures Accepted(loader, initial, attempts, j) <==>
            LoadableAt(loader, initial, attempts, j) && FlickeredTo(attempts, i, j, attempts[j].published.value)
  {
    ObservedIsPast(loader, contentOf, initial, attempts, i);
    RunStep(loader, initial, attempts, i);
    ChangeIsTraced(loader, contentOf, RunOf(loader, initial, attempts[..i]), attempts, i, identity);
    AcceptedFrom(loader, contentOf, initial, None, attempts, i, i + 1, j, attempts[j].published.value);
  }

  // ---------------------------------------------------------------- a file that flickers

  /** The smallest such history: every attempt finds the same identity published, one of them opened
      another file, and a second version of the identity is accepted. */
  lemma FlickerAcceptsSecondVersion<C>(loader: Loader<C>, contentOf: Generation -> string, live: C, text: string)
    requires loader.decode(contentOf(Generation(1, 2))) == Some(text) && Trim(text) != "" && loader.parse(text).Some?
    requires loader.validate(loader.project(live, loader.parse(text).value))
    ensures var first, second, other := Generation(1, 1), Generation(1, 2), Generation(2, 1);
            var initial := Manager(live, None, Some(first), Some(first));
            var attempts := [Attempt(Some(other), Some(contentOf(other)), Some(other), Some(second), true),
                             Attempt(Some(second), Some(contentOf(second)), Some(second), Some(second), true)];
            && History(contentOf, initial.observed, attempts)
            && (forall i :: 0 <= i < |attempts| ==> attempts[i].published.value.identity == first.identity)
            && Accepted(loader, initial, attempts, 1) && attempts[1].published != initial.observed
  {
    var first, second, other := Generation(1, 1), Generation(1, 2), Generation(2, 1);
    var initial := Manager(live, None, Some(first), Some(first));
    var one := Attempt(Some(other), Some(contentOf(other)), Some(other), Some(second), true);
    var attempts := [one, Attempt(Some(second), Some(contentOf(second)), Some(second), Some(second), true)];
    assert attempts[..1] == [one] && [one][..0] == [];
    assert RunOf(loader, initial, []) == initial;
    assert RunOf(loader, initial, [one]) == Reload(loader, initial, one);
  }
}
