/** The life of a FUSE mount (vault_fuse_mount, vault_fuse_unmount and vault_fuse_loop in
    c_src/vault/vault_fuse.c), for one vault.

    Mount and unmount calls come from any number of threads, but each runs under the
    monitor lock (c_src/vault/vault_ffi.c:951-1002), so at most one call, the lock's
    `holder`, is between its first and last step. FUSE threads take no lock and interleave
    with it step by step. */
module MountLifecycle {

  /** Where the call that holds the lock is. */
  datatype Call =
    | Nobody
    | MCheck        // is_mounted?
    | MBind         // fuse_new, fuse_mount, calloc
    | MSetMounted
    | MCreate       // pthread_create
    | MUndo         // is_mounted = false after a failed pthread_create
    | MConfirm      // look for the mount point for two seconds
    | MJoin         // fusermount -u, then pthread_join
    | MReseal
    | MClear
    | MFailed       // about to return an error
    | MDone
    | UCheck
    | USignal       // fusermount -u
    | UDone

  /** Where a FUSE thread is; a thread that has cleared is_mounted is over. */
  datatype Worker = TUnlock | TLoop | TSeal | TTearDown | TClear

  datatype State = State(
    holder: Call,
    mounted: bool,
    sealed: bool,
    threads: map<nat, Worker>,   // the live FUSE threads
    latest: nat)                 // the handle of the last one created

  /** A vault that is not mounted, with its cipher directory sealed. */
  const START := State(Nobody, false, true, map[], 0)

  /** `ok` is the outcome of a step that can fail; a call is admitted when the lock is free. */
  datatype Event = Enter(mount: bool) | CallMoves(ok: bool) | ThreadMoves(t: nat)

  predicate Enabled(s: State, e: Event) {
    match e
    case Enter(_) => s.holder == Nobody
    case CallMoves(_) => s.holder != Nobody && !(s.holder == MJoin && s.latest in s.threads)
    case ThreadMoves(t) => t in s.threads
  }

  function CallGoes(s: State, ok: bool): Call {
    match s.holder
    case MCheck => if s.mounted then MDone else MBind
    case MBind => if ok then MSetMounted else MFailed
    case MSetMounted => MCreate
    case MCreate => if ok then MConfirm else MUndo
    case MUndo => MFailed
    case MConfirm => if ok then MDone else MJoin
    case MJoin => MReseal
    case MReseal => MClear
    case MClear => MFailed
    case UCheck => if s.mounted then USignal else UDone
    case USignal => UDone
    case _ => Nobody
  }

  function ThreadGoes(w: Worker): Worker
    requires w != TClear
  {
    match w
    case TUnlock => TLoop
    case TLoop => TSeal
    case TSeal => TTearDown
    case TTearDown => TClear
  }

  function CallStep(s: State, ok: bool): State {
    var creates := s.holder == MCreate && ok;
    State(holder := CallGoes(s, ok),
          mounted := s.holder == MSetMounted || (s.mounted && s.holder != MUndo && s.holder != MClear),
          sealed := s.sealed || s.holder == MReseal,
          threads := if creates then s.threads[s.latest + 1 := TUnlock] else s.threads,
          latest := if creates then s.latest + 1 else s.latest)
  }

  function ThreadStep(s: State, t: nat): State
    requires t in s.threads
  {
    var w := s.threads[t];
    State(holder := s.holder,
          mounted := s.mounted && w != TClear,
          sealed := if w == TUnlock then false else s.sealed || w == TSeal,
          threads := if w == TClear then s.threads - {t} else s.threads[t := ThreadGoes(w)],
          latest := s.latest)
  }

  function Next(s: State, e: Event): State
    requires Enabled(s, e)
  {
    match e
    case Enter(mount) => s.(holder := if mount then MCheck else UCheck)
    case CallMoves(ok) => CallStep(s, ok)
    case ThreadMoves(t) => ThreadStep(s, t)
  }

  predicate Possible(s: State, run: seq<Event>)
    decreases |run|
  {
    run == [] || (Enabled(s, run[0]) && Possible(Next(s, run[0]), run[1..]))
  }

  function Execute(s: State, run: seq<Event>): State
    requires Possible(s, run)
    decreases |run|
  {
    if run == [] then s else Execute(Next(s, run[0]), run[1..])
  }

  // ---------------------------------------------------------------------
  // The invariant
  // ---------------------------------------------------------------------

  /** The thread is between its unlock and its re-seal. */
  predicate Exposed(w: Worker) { w == TLoop || w == TSeal }

  predicate Live(s: State) { s.latest in s.threads }

  predicate Invariant(s: State) {
    && (forall t :: t in s.threads ==> t == s.latest)
    && (Live(s) ==> s.mounted)
    && (s.sealed <==> !(Live(s) && Exposed(s.threads[s.latest])))
    && (s.holder == MBind || s.holder == MSetMounted ==> !s.mounted)
    && (s.holder == MCreate || s.holder == MUndo || s.holder == MReseal || s.holder == MClear ==> !Live(s))
    && (s.holder == MCreate ==> s.mounted)
    && (s.holder == MFailed ==> !s.mounted)
  }

  lemma StepKeepsInvariant(s: State, e: Event)
    requires Invariant(s) && Enabled(s, e)
    ensures Invariant(Next(s, e))
  {
  }

  lemma {:induction false} RunKeepsInvariant(s: State, run: seq<Event>)
    requires Invariant(s) && Possible(s, run)
    ensures Invariant(Execute(s, run))
    decreases |run|
  {
    if run != [] {
      StepKeepsInvariant(s, run[0]);
      RunKeepsInvariant(Next(s, run[0]), run[1..]);
    }
  }

  /** In every interleaving at most one FUSE thread is alive, the cipher directory is open
      exactly while that thread is between its unlock and its re-seal, a vault that is not
      mounted is sealed and has no thread, and a mount call that fails leaves it so. */
  lemma MountSafety(run: seq<Event>)
    requires Possible(START, run)
    ensures var s := Execute(START, run);
            && |s.threads| <= 1
            && (!s.sealed <==> exists t :: t in s.threads && Exposed(s.threads[t]))
            && (!s.mounted ==> s.sealed && s.threads == map[])
            && (s.holder == MFailed ==> s.sealed && s.threads == map[])
  {
    RunKeepsInvariant(START, run);
    var s := Execute(START, run);
    if !Live(s) {
      assert s.threads.Keys == {};
    }
    assert s.threads.Keys <= {s.latest};
    SubsetCardinality(s.threads.Keys, {s.latest});
  }

  lemma SubsetCardinality(a: set<nat>, b: set<nat>)
    requires a <= b
    ensures |a| <= |b|
  {
    var rest := b - a;
    assert b == a + rest;
  }

  // ---------------------------------------------------------------------
  // A mount that works, and one that fails
  // ---------------------------------------------------------------------

  function CallsIn(run: seq<Event>): nat {
    if run == [] then 0 else CallsIn(run[..|run| - 1]) + if run[|run| - 1].CallMoves? then 1 else 0
  }

  function ThreadsIn(run: seq<Event>): nat {
    if run == [] then 0 else ThreadsIn(run[..|run| - 1]) + if run[|run| - 1].ThreadMoves? then 1 else 0
  }

  lemma {:induction false} LastEvent(s: State, run: seq<Event>)
    requires run != [] && Possible(s, run)
    ensures var front := run[..|run| - 1];
            && Possible(s, front) && Enabled(Execute(s, front), run[|run| - 1])
            && Execute(s, run) == Next(Execute(s, front), run[|run| - 1])
    decreases |run|
  {
    if |run| > 1 {
      LastEvent(Next(s, run[0]), run[1..]);
      assert run[1..][..|run| - 2] == run[..|run| - 1][1..];
    } else {
      assert run[..0] == [];
    }
  }

  const MOUNTING := Next(START, Enter(true))

  /** No step of the one mount call fails and no other call enters. */
  predicate Smooth(rest: seq<Event>) {
    forall i :: 0 <= i < |rest| ==> rest[i] == CallMoves(true) || rest[i].ThreadMoves?
  }

  const MOUNT_STEPS: seq<Call> := [MCheck, MBind, MSetMounted, MCreate, MConfirm, MDone, Nobody]

  const LIFE: seq<Worker> := [TUnlock, TLoop, TSeal, TTearDown, TClear]

  /** The call has made `k` of its six steps and the thread `c` of its five. */
  predicate GoneThrough(s: State, k: nat, c: nat) {
    && k <= 6 && c <= 5 && s.holder == MOUNT_STEPS[k]
    && (s.mounted <==> k >= 3 && c < 5)
    && s.threads == (if k >= 4 && c < 5 then map[1 := LIFE[c]] else map[])
    && (!s.sealed <==> c == 1 || c == 2)
    && (k < 4 ==> c == 0) && s.latest == if k >= 4 then 1 else 0
  }

  lemma GoesOn(s: State, k: nat, c: nat, e: Event)
    requires GoneThrough(s, k, c) && Enabled(s, e) && (e == CallMoves(true) || e.ThreadMoves?)
    ensures GoneThrough(Next(s, e), if e.CallMoves? then k + 1 else k, if e.ThreadMoves? then c + 1 else c)
  {
    if e.ThreadMoves? {
      assert e.t == 1;
    }
  }

  /** A mount call whose steps all work, whatever the threads do meanwhile: its sixth step
      reports success, the fourth has started the one thread, and the vault is mounted from
      then on until that thread has made its five steps, open after its first and before its
      third, and not mounted and sealed once it is over. */
  lemma {:induction false} MountWorks(rest: seq<Event>)
    requires Smooth(rest) && Possible(MOUNTING, rest)
    ensures GoneThrough(Execute(MOUNTING, rest), CallsIn(rest), ThreadsIn(rest))
  {
    if rest != [] {
      var front := rest[..|rest| - 1];
      LastEvent(MOUNTING, rest);
      MountWorks(front);
      GoesOn(Execute(MOUNTING, front), CallsIn(front), ThreadsIn(front), rest[|rest| - 1]);
    }
  }

  lemma {:induction false} OneMore(s: State, run: seq<Event>, e: Event)
    requires Possible(s, run) && Enabled(Execute(s, run), e)
    ensures Possible(s, run + [e]) && Execute(s, run + [e]) == Next(Execute(s, run), e)
    decreases |run|
  {
    if run != [] {
      OneMore(Next(s, run[0]), run[1..], e);
      assert (run + [e])[1..] == run[1..] + [e];
    } else {
      assert [e][1..] == [];
    }
  }

  lemma OneCallMore(front: seq<Event>)
    ensures CallsIn(front + [CallMoves(true)]) == CallsIn(front) + 1
    ensures ThreadsIn(front + [CallMoves(true)]) == ThreadsIn(front)
    ensures Smooth(front) ==> Smooth(front + [CallMoves(true)])
  {
    assert (front + [CallMoves(true)])[..|front|] == front;
  }

  lemma {:induction false} CallAlone(k: nat) returns (rest: seq<Event>)
    requires k <= 6
    ensures Smooth(rest) && Possible(MOUNTING, rest) && CallsIn(rest) == k && ThreadsIn(rest) == 0
  {
    if k == 0 {
      rest := [];
    } else {
      var front := CallAlone(k - 1);
      MountWorks(front);
      OneMore(MOUNTING, front, CallMoves(true));
      rest := front + [CallMoves(true)];
      OneCallMore(front);
    }
  }

  /** And there is such a run. */
  lemma MountCanWork()
    ensures exists rest ::
              && Smooth(rest) && Possible(MOUNTING, rest)
              && Execute(MOUNTING, rest).holder == MDone && Execute(MOUNTING, rest).mounted
  {
    var rest := CallAlone(5);
    MountWorks(rest);
  }

  /** On the way to an error, and how many steps are left. */
  function StepsToError(c: Call): int {
    match c
    case MJoin => 3
    case MReseal => 2
    case MClear => 1
    case MUndo => 1
    case MFailed => 0
    case _ => -1
  }

  /** When binding, starting the thread or finding the mount point fails, the call ends in an
      error, whatever the threads do meanwhile. */
  lemma {:induction false} FailureIsReported(s: State, run: seq<Event>)
    requires (s.holder == MBind || s.holder == MCreate || s.holder == MConfirm) && Possible(CallStep(s, false), run)
    ensures var left := StepsToError(CallStep(s, false).holder);
            left >= 0 && (CallsIn(run) <= left ==> StepsToError(Execute(CallStep(s, false), run).holder) == left - CallsIn(run))
  {
    if run != [] {
      LastEvent(CallStep(s, false), run);
      FailureIsReported(s, run[..|run| - 1]);
    }
  }
}
