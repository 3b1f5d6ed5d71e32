/** The start-up handshake between a sandbox's parent and child (run_isolated in
    c_src/cli/vault_cli.c; vault_sandbox_open in c_src/sandbox/jail.c is the same protocol
    with no control group and no private network).

    Parent and child advance one system call at a time, in any interleaving, and share up
    to four pipes. After fork each process holds both ends of every pipe, and holds an end
    until the program point that closes it, or until it dies. A read blocks while the pipe
    is empty and some process holds its write end; with no writer left it sees end of file. */
module LaunchHandshake {

  /** The options that shape the protocol: any control-group limit, --cgroup itself,
      --net-veth and --nfilter. */
  datatype Config = Config(limits: bool, cgroup: bool, net: bool, nfilter: bool)

  /** A program point, numbered downwards in program order. */
  type Stage = nat

  const P_CLOSE_STRAY: Stage := 16        // close ready[1], sync[0]
  const P_READ_READY: Stage := 15
  const P_CLOSE_READY: Stage := 14
  const P_WRITE_MAPS: Stage := 13
  const P_ATTACH: Stage := 12             // the control group
  const P_CLOSE_SYNC: Stage := 11         // nothing is ever written to sync
  const P_KILL: Stage := 10
  const P_KILL_CLOSE_SYNC: Stage := 9
  const P_CLOSE_NET_STRAY: Stage := 8     // close net_ready[1], net_sync[0]
  const P_READ_NET_READY: Stage := 7
  const P_VETH_SETUP: Stage := 6
  const P_CLOSE_NET_READY: Stage := 5
  const P_WRITE_NET_SYNC: Stage := 4
  const P_CLOSE_NET_SYNC: Stage := 3
  const P_WAIT: Stage := 2
  const P_KILL_WAIT: Stage := 1
  const P_DONE: Stage := 0

  const C_CLOSE_STRAY: Stage := 17        // close sync[1], ready[0]
  const C_UNSHARE_USER: Stage := 16
  const C_WRITE_READY: Stage := 15
  const C_CLOSE_READY: Stage := 14
  const C_READ_SYNC: Stage := 13
  const C_CLOSE_SYNC: Stage := 12
  const C_UNSHARE_MORE: Stage := 11
  const C_CLOSE_NET_STRAY: Stage := 10    // close net_ready[0], net_sync[1]
  const C_WRITE_NET_READY: Stage := 9
  const C_CLOSE_NET_READY: Stage := 8
  const C_READ_NET_SYNC: Stage := 7
  const C_CLOSE_NET_SYNC: Stage := 6
  const C_CONFIGURE_VETH: Stage := 5
  const C_FILTER: Stage := 4
  const C_PREPARE: Stage := 3             // the mounts and forks before the program
  const C_EXEC: Stage := 2
  const C_RUNNING: Stage := 1
  const C_DEAD: Stage := 0

  /** Where the two processes are, the unread bytes of the pipes that carry any, and what
      has happened so far. */
  datatype State = State(
    parent: Stage, child: Stage, ready: nat, netReady: nat, netSync: nat,
    userNs: bool, maps: bool, attached: bool, vethTried: bool, filter: bool, executed: bool)

  const START := State(P_CLOSE_STRAY, C_CLOSE_STRAY, 0, 0, 0, false, false, false, false, false, false)

  // Who can still write to a pipe.

  predicate SyncHasWriter(s: State) { s.parent >= P_KILL_CLOSE_SYNC || s.child == C_CLOSE_STRAY }

  predicate ReadyHasWriter(s: State) { s.parent == P_CLOSE_STRAY || s.child >= C_CLOSE_READY }

  predicate NetReadyHasWriter(s: State) {
    s.parent >= P_CLOSE_NET_STRAY || s.parent == P_KILL_WAIT || s.child >= C_CLOSE_NET_READY
  }

  predicate NetSyncHasWriter(s: State) {
    s.parent >= P_CLOSE_NET_SYNC || s.parent == P_KILL_WAIT || s.child >= C_CLOSE_NET_STRAY
  }

  predicate ParentBlocked(s: State) {
    || (s.parent == P_READ_READY && s.ready == 0 && ReadyHasWriter(s))
    || (s.parent == P_READ_NET_READY && s.netReady == 0 && NetReadyHasWriter(s))
    || (s.parent == P_WAIT && s.child != C_DEAD)
    || (s.parent == P_KILL_WAIT && s.child != C_DEAD)
    || s.parent == P_DONE
  }

  predicate ChildBlocked(s: State) {
    || (s.child == C_READ_SYNC && SyncHasWriter(s))
    || (s.child == C_READ_NET_SYNC && s.netSync == 0 && NetSyncHasWriter(s))
    || s.child == C_DEAD
  }

  function Taken(unread: nat): nat { if unread > 0 then unread - 1 else 0 }

  /** Where the parent goes next, lines 1911-1992; `ok` is the outcome of a system call that
      can fail. Closing and blocking steps fall through to the next point. */
  function ParentGoes(cfg: Config, s: State, ok: bool): Stage {
    if s.parent == P_WRITE_MAPS then if ok then P_ATTACH else P_KILL
    else if s.parent == P_ATTACH then if cfg.cgroup && !ok then P_KILL else P_CLOSE_SYNC
    else if s.parent == P_CLOSE_SYNC then if cfg.net then P_CLOSE_NET_STRAY else P_WAIT
    else if s.parent == P_KILL_CLOSE_SYNC then P_KILL_WAIT
    else if s.parent == P_READ_NET_READY then if s.netReady > 0 then P_VETH_SETUP else P_CLOSE_NET_READY
    else if s.parent <= P_WAIT then P_DONE
    else s.parent - 1
  }

  /** What the parent's step does. A write that nobody can read is an ignored error. */
  function ParentStep(cfg: Config, s: State, ok: bool): State {
    var p := s.parent;
    State(parent := ParentGoes(cfg, s, ok),
          child := if p == P_KILL then C_DEAD else s.child,
          ready := if p == P_READ_READY then Taken(s.ready) else s.ready,
          netReady := if p == P_READ_NET_READY then Taken(s.netReady) else s.netReady,
          netSync := if p == P_WRITE_NET_SYNC && s.child >= C_CLOSE_NET_SYNC then s.netSync + 1 else s.netSync,
          userNs := s.userNs,
          maps := s.maps || (p == P_WRITE_MAPS && ok),
          attached := s.attached || (p == P_ATTACH && ok && (cfg.limits || cfg.cgroup)),
          vethTried := s.vethTried || p == P_VETH_SETUP,
          filter := s.filter,
          executed := s.executed)
  }

  /** Where the child goes next, lines 2020-2116. */
  function ChildGoes(cfg: Config, s: State, ok: bool): Stage {
    if !ok && (s.child == C_UNSHARE_USER || s.child == C_UNSHARE_MORE || s.child == C_FILTER || s.child == C_PREPARE) then
      C_DEAD
    else if s.child == C_UNSHARE_MORE && !cfg.net then C_PREPARE
    else if s.child == C_CONFIGURE_VETH && !cfg.nfilter then C_PREPARE
    else if s.child == C_EXEC then C_RUNNING
    else if s.child == C_DEAD then C_DEAD
    else s.child - 1
  }

  function ChildStep(cfg: Config, s: State, ok: bool): State {
    var c := s.child;
    State(parent := s.parent,
          child := ChildGoes(cfg, s, ok),
          ready := if c == C_WRITE_READY && s.parent >= P_CLOSE_READY then s.ready + 1 else s.ready,
          netReady := if c == C_WRITE_NET_READY && s.parent >= P_CLOSE_NET_READY then s.netReady + 1 else s.netReady,
          netSync := if c == C_READ_NET_SYNC then Taken(s.netSync) else s.netSync,
          userNs := s.userNs || (c == C_UNSHARE_USER && ok),
          maps := s.maps,
          attached := s.attached,
          vethTried := s.vethTried,
          filter := s.filter || (c == C_FILTER && ok),
          executed := s.executed || c == C_EXEC)
  }

  /** A scheduling choice. `Killed` is a signal from outside; it needs no cooperation. */
  datatype Event = ParentMoves(ok: bool) | ChildMoves(ok: bool) | Killed

  predicate Enabled(s: State, e: Event) {
    match e
    case ParentMoves(_) => !ParentBlocked(s)
    case ChildMoves(_) => !ChildBlocked(s)
    case Killed => s.child != C_DEAD
  }

  function Next(cfg: Config, s: State, e: Event): State
    requires Enabled(s, e)
  {
    match e
    case ParentMoves(ok) => ParentStep(cfg, s, ok)
    case ChildMoves(ok) => ChildStep(cfg, s, ok)
    case Killed => s.(child := C_DEAD)
  }

  /** Every choice of the schedule is enabled when its turn comes. */
  predicate Possible(cfg: Config, s: State, run: seq<Event>)
    decreases |run|
  {
    run == [] || (Enabled(s, run[0]) && Possible(cfg, Next(cfg, s, run[0]), run[1..]))
  }

  function Execute(cfg: Config, s: State, run: seq<Event>): State
    requires Possible(cfg, s, run)
    decreases |run|
  {
    if run == [] then s else Execute(cfg, Next(cfg, s, run[0]), run[1..])
  }

  // ---------------------------------------------------------------------
  // The invariant
  // ---------------------------------------------------------------------

  predicate Alive(s: State) { s.child != C_DEAD }

  predicate Places(cfg: Config, s: State) {
    && s.parent <= P_CLOSE_STRAY && s.child <= C_CLOSE_STRAY
    && (P_WAIT < s.parent <= P_CLOSE_NET_STRAY ==> cfg.net)
    && (C_FILTER <= s.child <= C_CLOSE_NET_STRAY ==> cfg.net)
    && (s.child == C_FILTER ==> cfg.nfilter)
    && (s.parent == P_KILL_CLOSE_SYNC || s.parent <= P_KILL_WAIT ==> !Alive(s))
  }

  predicate MapFacts(cfg: Config, s: State) {
    && (s.ready > 0 ==> s.userNs)
    && (Alive(s) && s.child <= C_WRITE_READY ==> s.userNs)
    && (Alive(s) && s.parent <= P_CLOSE_READY ==> s.userNs)
    && (Alive(s) && s.parent <= P_ATTACH && s.parent != P_KILL ==> s.maps)
    && (Alive(s) && s.parent <= P_CLOSE_SYNC && s.parent != P_KILL ==> cfg.cgroup ==> s.attached)
    && (Alive(s) && s.child <= C_CLOSE_SYNC ==> s.parent <= P_CLOSE_NET_STRAY)
  }

  predicate NetFacts(cfg: Config, s: State) {
    && (cfg.net && Alive(s) && s.child <= C_CLOSE_NET_READY && s.parent >= P_READ_NET_READY ==> s.netReady > 0)
    && (cfg.net && Alive(s) && s.parent <= P_CLOSE_NET_READY ==> s.vethTried)
    && (s.netSync > 0 ==> s.parent <= P_CLOSE_NET_SYNC)
    && (cfg.net && Alive(s) && s.child <= C_CLOSE_NET_SYNC ==> s.parent <= P_CLOSE_NET_SYNC)
  }

  predicate ProgramFacts(cfg: Config, s: State) {
    && (Alive(s) && s.child <= C_PREPARE ==> (s.filter <==> cfg.net && cfg.nfilter))
    && (s.filter ==> cfg.net && cfg.nfilter)
    && (s.executed ==>
          && s.userNs && s.maps && (cfg.cgroup ==> s.attached)
          && (cfg.net ==> s.vethTried) && (s.filter <==> cfg.net && cfg.nfilter))
  }

  predicate Invariant(cfg: Config, s: State) {
    Places(cfg, s) && MapFacts(cfg, s) && NetFacts(cfg, s) && ProgramFacts(cfg, s)
  }

  lemma ParentKeepsInvariant(cfg: Config, s: State, ok: bool)
    requires Invariant(cfg, s) && !ParentBlocked(s)
    ensures Invariant(cfg, ParentStep(cfg, s, ok))
  {
    var t := ParentStep(cfg, s, ok);
    assert Places(cfg, t);
    assert MapFacts(cfg, t);
    assert NetFacts(cfg, t);
  }

  lemma ChildKeepsInvariant(cfg: Config, s: State, ok: bool)
    requires Invariant(cfg, s) && !ChildBlocked(s)
    ensures Invariant(cfg, ChildStep(cfg, s, ok))
  {
    var t := ChildStep(cfg, s, ok);
    assert Places(cfg, t);
    assert MapFacts(cfg, t);
    assert NetFacts(cfg, t);
  }

  /** Every step of either process, and a kill, keep the invariant. */
  lemma StepKeepsInvariant(cfg: Config, s: State, e: Event)
    requires Invariant(cfg, s) && Enabled(s, e)
    ensures Invariant(cfg, Next(cfg, s, e))
  {
    match e
    case ParentMoves(ok) => ParentKeepsInvariant(cfg, s, ok);
    case ChildMoves(ok) => ChildKeepsInvariant(cfg, s, ok);
    case Killed =>
  }

  lemma {:induction false} RunKeepsInvariant(cfg: Config, s: State, run: seq<Event>)
    requires Invariant(cfg, s) && Possible(cfg, s, run)
    ensures Invariant(cfg, Execute(cfg, s, run))
    decreases |run|
  {
    if run != [] {
      StepKeepsInvariant(cfg, s, run[0]);
      RunKeepsInvariant(cfg, Next(cfg, s, run[0]), run[1..]);
    }
  }

  // ---------------------------------------------------------------------
  // Ordering
  // ---------------------------------------------------------------------

  /** In every interleaving: a child past its sync read has its maps and, with --cgroup, its
      control group; for one past its second read the set-up of a virtual network was tried;
      and a program that runs does so behind the network filter exactly when one was asked for
      on a private network, which is why the parser refuses --nfilter without --net-veth. */
  lemma LaunchOrdering(cfg: Config, run: seq<Event>)
    requires Possible(cfg, START, run)
    ensures var s := Execute(cfg, START, run);
            && (Alive(s) && s.child < C_READ_SYNC ==> s.userNs && s.maps && (cfg.cgroup ==> s.attached))
            && (cfg.net && Alive(s) && s.child < C_READ_NET_SYNC ==> s.vethTried)
            && (s.executed ==> s.userNs && s.maps && (cfg.cgroup ==> s.attached))
            && (s.executed ==> (s.filter <==> cfg.net && cfg.nfilter))
  {
    RunKeepsInvariant(cfg, START, run);
  }

  /** The maps are written into a namespace that exists, or for a child that is dead. */
  lemma MapsAfterNamespace(cfg: Config, run: seq<Event>)
    requires Possible(cfg, START, run)
    ensures var s := Execute(cfg, START, run);
            s.parent == P_WRITE_MAPS && Alive(s) ==> s.userNs
  {
    RunKeepsInvariant(cfg, START, run);
  }

  // ---------------------------------------------------------------------
  // No deadlock, and an end
  // ---------------------------------------------------------------------

  /** Until the parent is done one of the two can move, without any outside help. */
  lemma NoDeadlock(cfg: Config, run: seq<Event>)
    requires Possible(cfg, START, run)
    ensures var s := Execute(cfg, START, run);
            s.parent != P_DONE ==> !ParentBlocked(s) || !ChildBlocked(s)
  {
    RunKeepsInvariant(cfg, START, run);
  }

  function StepsLeft(s: State): nat { s.parent + s.child }

  lemma StepDecreases(cfg: Config, s: State, e: Event)
    requires Enabled(s, e)
    ensures StepsLeft(Next(cfg, s, e)) < StepsLeft(s)
  {
  }

  lemma {:induction false} RunIsBounded(cfg: Config, s: State, run: seq<Event>)
    requires Possible(cfg, s, run)
    ensures |run| + StepsLeft(Execute(cfg, s, run)) <= StepsLeft(s)
    decreases |run|
  {
    if run != [] {
      StepDecreases(cfg, s, run[0]);
      RunIsBounded(cfg, Next(cfg, s, run[0]), run[1..]);
    }
  }

  /** A schedule ends within 33 steps, and one in which neither process can move any more
      has brought the parent past waitpid with the child gone. */
  lemma EveryLaunchFinishes(cfg: Config, run: seq<Event>)
    requires Possible(cfg, START, run)
    ensures |run| <= 33
    ensures var s := Execute(cfg, START, run);
            ParentBlocked(s) && ChildBlocked(s) ==> s.parent == P_DONE && s.child == C_DEAD
  {
    RunIsBounded(cfg, START, run);
    RunKeepsInvariant(cfg, START, run);
    NoDeadlock(cfg, run);
  }

  // ---------------------------------------------------------------------
  // When the program runs
  // ---------------------------------------------------------------------

  /** A kill before the program runs, or the failure of a step it cannot do without: the two
      unshares, the maps, the control group if --cgroup asks for it, the network filter and
      the mounts. */
  predicate Fatal(cfg: Config, s: State, e: Event) {
    match e
    case Killed => s.child > C_RUNNING
    case ParentMoves(ok) => !ok && (s.parent == P_WRITE_MAPS || (s.parent == P_ATTACH && cfg.cgroup))
    case ChildMoves(ok) =>
      !ok && (s.child == C_UNSHARE_USER || s.child == C_UNSHARE_MORE || s.child == C_FILTER || s.child == C_PREPARE)
  }

  predicate NothingFatal(cfg: Config, s: State, run: seq<Event>)
    requires Possible(cfg, s, run)
    decreases |run|
  {
    run == [] || (!Fatal(cfg, s, run[0]) && NothingFatal(cfg, Next(cfg, s, run[0]), run[1..]))
  }

  predicate OnCourse(s: State) {
    && s.parent != P_KILL && s.parent != P_KILL_CLOSE_SYNC && s.parent != P_KILL_WAIT
    && (s.executed <==> s.child <= C_RUNNING)
    && (s.executed ==> s.parent <= P_CLOSE_NET_STRAY)
  }

  predicate Lost(s: State) { !s.executed && (!Alive(s) || s.parent == P_KILL) }

  lemma CourseStep(cfg: Config, s: State, e: Event)
    requires Invariant(cfg, s) && Enabled(s, e) && OnCourse(s)
    ensures if Fatal(cfg, s, e) then Lost(Next(cfg, s, e)) else OnCourse(Next(cfg, s, e))
  {
  }

  lemma LostStep(cfg: Config, s: State, e: Event)
    requires Invariant(cfg, s) && Enabled(s, e) && Lost(s)
    ensures Lost(Next(cfg, s, e))
  {
  }

  lemma {:induction false} LostRun(cfg: Config, s: State, run: seq<Event>)
    requires Invariant(cfg, s) && Possible(cfg, s, run) && Lost(s)
    ensures Lost(Execute(cfg, s, run))
    decreases |run|
  {
    if run != [] {
      LostStep(cfg, s, run[0]);
      StepKeepsInvariant(cfg, s, run[0]);
      LostRun(cfg, Next(cfg, s, run[0]), run[1..]);
    }
  }

  lemma {:induction false} CourseRun(cfg: Config, s: State, run: seq<Event>)
    requires Invariant(cfg, s) && Possible(cfg, s, run) && OnCourse(s)
    ensures if NothingFatal(cfg, s, run) then OnCourse(Execute(cfg, s, run)) else Lost(Execute(cfg, s, run))
    decreases |run|
  {
    if run != [] {
      var t := Next(cfg, s, run[0]);
      CourseStep(cfg, s, run[0]);
      StepKeepsInvariant(cfg, s, run[0]);
      if Fatal(cfg, s, run[0]) {
        LostRun(cfg, t, run[1..]);
      } else {
        CourseRun(cfg, t, run[1..]);
      }
    }
  }

  /** Whatever the interleaving, a launch that has come to its end has run the program exactly
      if nothing fatal happened. */
  lemma ProgramRunsIff(cfg: Config, run: seq<Event>)
    requires Possible(cfg, START, run)
    requires var s := Execute(cfg, START, run); ParentBlocked(s) && ChildBlocked(s)
    ensures Execute(cfg, START, run).executed <==> NothingFatal(cfg, START, run)
  {
    CourseRun(cfg, START, run);
    EveryLaunchFinishes(cfg, run);
  }

  // Launches in which every system call works.

  predicate Smooth(run: seq<Event>) {
    forall i :: 0 <= i < |run| ==> run[i] == ParentMoves(true) || run[i] == ChildMoves(true)
  }

  predicate Furnished(cfg: Config, s: State) {
    && (s.parent >= P_ATTACH ==> !s.attached)
    && (s.parent < P_ATTACH ==> (s.attached <==> cfg.limits || cfg.cgroup))
    && (s.vethTried ==> cfg.net)
  }

  lemma FurnishedStep(cfg: Config, s: State, e: Event)
    requires Invariant(cfg, s) && Enabled(s, e) && OnCourse(s) && Furnished(cfg, s)
    requires e == ParentMoves(true) || e == ChildMoves(true)
    ensures OnCourse(Next(cfg, s, e)) && Furnished(cfg, Next(cfg, s, e))
  {
    CourseStep(cfg, s, e);
  }

  lemma {:induction false} SmoothRun(cfg: Config, s: State, run: seq<Event>)
    requires Invariant(cfg, s) && Possible(cfg, s, run) && OnCourse(s) && Furnished(cfg, s) && Smooth(run)
    ensures OnCourse(Execute(cfg, s, run)) && Furnished(cfg, Execute(cfg, s, run))
    decreases |run|
  {
    if run != [] {
      FurnishedStep(cfg, s, run[0]);
      StepKeepsInvariant(cfg, s, run[0]);
      SmoothRun(cfg, Next(cfg, s, run[0]), run[1..]);
    }
  }

  /** If every system call works, the launch ends with the program run, in its own user
      namespace with its maps, in a control group if a limit or a group was asked for, with a
      virtual network tried exactly if one was asked for and behind a network filter exactly if
      both were: in every interleaving. */
  lemma SmoothLaunch(cfg: Config, run: seq<Event>)
    requires Possible(cfg, START, run) && Smooth(run)
    requires var s := Execute(cfg, START, run); ParentBlocked(s) && ChildBlocked(s)
    ensures var s := Execute(cfg, START, run);
            && s.executed && s.userNs && s.maps
            && (s.attached <==> cfg.limits || cfg.cgroup)
            && (s.vethTried <==> cfg.net)
            && (s.filter <==> cfg.net && cfg.nfilter)
  {
    SmoothRun(cfg, START, run);
    RunKeepsInvariant(cfg, START, run);
    EveryLaunchFinishes(cfg, run);
  }

  /** Such a launch exists, from wherever the two are. */
  lemma {:induction false} Finish(cfg: Config, s: State) returns (run: seq<Event>)
    ensures Possible(cfg, s, run) && Smooth(run)
    ensures var t := Execute(cfg, s, run); ParentBlocked(t) && ChildBlocked(t)
    decreases StepsLeft(s)
  {
    if ParentBlocked(s) && ChildBlocked(s) {
      run := [];
    } else {
      var e := if ParentBlocked(s) then ChildMoves(true) else ParentMoves(true);
      StepDecreases(cfg, s, e);
      var rest := Finish(cfg, Next(cfg, s, e));
      run := [e] + rest;
      assert run[1..] == rest;
    }
  }

  lemma SmoothLaunchExists(cfg: Config)
    ensures exists run ::
              && Possible(cfg, START, run) && Smooth(run) && Execute(cfg, START, run).executed
              && ParentBlocked(Execute(cfg, START, run)) && ChildBlocked(Execute(cfg, START, run))
  {
    var run := Finish(cfg, START);
    SmoothLaunch(cfg, run);
  }
}
