/** What the WORM flags guarantee over whole runs of handler calls. */
module FuseWormProofs {
  import FuseCtr
  import opened FuseWorm

  // ---------------------------------------------------------------------
  // The six ways a call can change the tree
  // ---------------------------------------------------------------------

  datatype Change =
    | Same
    | NewFile(p: Path, bytes: seq<bv8>)
    | NewDir(p: Path)
    | Rewrite(p: Path, bytes: seq<bv8>)
    | Drop(p: Path)
    | Moved(p: Path, to: Path)

  predicate Legal(t: Tree, c: Change) {
    match c
    case Same => true
    case NewFile(p, _) => p !in t && CanHold(t, p)
    case NewDir(p) => p !in t && CanHold(t, p)
    case Rewrite(p, _) => p in t && t[p].File?
    case Drop(p) => p in t && (t[p].File? || (p != [] && Empty(t, p)))
    case Moved(from, to) => from != to && RenameError(t, from, to) == Done
  }

  function Apply(t: Tree, c: Change, id: nat): Tree
    requires Legal(t, c)
  {
    match c
    case Same => t
    case NewFile(p, bytes) => t[p := File(id, bytes)]
    case NewDir(p) => t[p := Dir]
    case Rewrite(p, bytes) => t[p := t[p].(bytes := bytes)]
    case Drop(p) => t - {p}
    case Moved(from, to) => Move(t, from, to)
  }

  function ChangeOf(codec: Codec, s: Session, op: Op): Change {
    var t := s.tree;
    if Denied(s, op) then Same
    else match op
      case OpenOp(p, how) => if p in t && t[p].File? && how.trunc then Rewrite(p, []) else Same
      case WriteOp(p, buf, offset) =>
        var data := codec(p, offset, buf);
        if p !in t then if CanHold(t, p) then NewFile(p, FuseCtr.Pwrite([], offset, data, FuseCtr.Zero())) else Same
        else if t[p].File? then Rewrite(p, FuseCtr.Pwrite(t[p].bytes, offset, data, FuseCtr.Zero()))
        else Same
      case MkdirOp(p) => if p !in t && CanHold(t, p) then NewDir(p) else Same
      case UnlinkOp(p) => if p in t && t[p].File? then Drop(p) else Same
      case RmdirOp(p) => if IsDir(t, p) && p != [] && Empty(t, p) then Drop(p) else Same
      case RenameOp(from, to) => if from != to && RenameError(t, from, to) == Done then Moved(from, to) else Same
      case CreateOp(p, how) =>
        if p !in t then if CanHold(t, p) then NewFile(p, []) else Same
        else if t[p].File? && how.trunc && !how.excl then Rewrite(p, [])
        else Same
      case _ => Same
  }

  lemma StepChange(codec: Codec, s: Session, op: Op)
    ensures var c := ChangeOf(codec, s, op);
            Legal(s.tree, c) && Step(codec, s, op).0.tree == Apply(s.tree, c, s.nextId)
  {
  }

  // ---------------------------------------------------------------------
  // Moving a subtree
  // ---------------------------------------------------------------------

  lemma MoveForward(t: Tree, from: Path, to: Path, p: Path)
    requires !Within(from, to) && !Within(to, from)
    requires p in t && !Within(to, p)
    ensures Relocated(from, to, p) in Move(t, from, to)
    ensures Move(t, from, to)[Relocated(from, to, p)] == t[p]
  {
    RelocateBack(from, to, p);
  }

  lemma MoveBackward(t: Tree, from: Path, to: Path, q: Path)
    requires !Within(from, to) && !Within(to, from)
    requires q in Move(t, from, to)
    ensures var p := Relocated(to, from, q);
            p in t && !Within(to, p) && q == Relocated(from, to, p) && Move(t, from, to)[q] == t[p]
  {
    var p :| p in t && !Within(to, p) && q == Relocated(from, to, p);
    RelocateBack(from, to, p);
  }

  // ---------------------------------------------------------------------
  // The invariant
  // ---------------------------------------------------------------------

  ghost predicate ParentsExist(t: Tree) {
    IsDir(t, []) && forall p :: p in t && p != [] ==> CanHold(t, p)
  }

  ghost predicate IdsDistinct(t: Tree) {
    forall p, q :: p in t && q in t && t[p].File? && t[q].File? && t[p].id == t[q].id ==> p == q
  }

  ghost predicate WellFormed(s: Session) {
    && ParentsExist(s.tree)
    && IdsDistinct(s.tree)
    && forall i :: i in Ids(s.tree) ==> i < s.nextId
  }

  function Ids(t: Tree): set<nat> {
    set p | p in t && t[p].File? :: t[p].id
  }

  lemma MoveKeepsParents(t: Tree, from: Path, to: Path)
    requires ParentsExist(t) && Legal(t, Moved(from, to))
    ensures ParentsExist(Move(t, from, to))
  {
    MoveForward(t, from, to, []);
    forall q | q in Move(t, from, to) && q != []
      ensures CanHold(Move(t, from, to), q)
    {
      MoveBackward(t, from, to, q);
      MoveKeepsParent(t, from, to, Relocated(to, from, q));
    }
  }

  lemma MoveKeepsParent(t: Tree, from: Path, to: Path, p: Path)
    requires ParentsExist(t) && Legal(t, Moved(from, to))
    requires p in t && !Within(to, p) && p != []
    ensures CanHold(Move(t, from, to), Relocated(from, to, p))
  {
    if p == from {
      assert Relocated(from, to, p) == to + [] == to;
      WithinParent(from, to);
      MoveForward(t, from, to, Parent(to));
    } else {
      WithinParent(to, p);
      MoveForward(t, from, to, Parent(p));
      RelocatedParent(from, to, p);
    }
  }

  lemma RelocatedParent(from: Path, to: Path, p: Path)
    requires p != [] && p != from && !(Within(from, p) && to == [])
    ensures Relocated(from, to, p) != [] && Parent(Relocated(from, to, p)) == Relocated(from, to, Parent(p))
  {
    WithinParent(from, p);
    if Within(from, p) {
      assert p == p[..|p|];
      assert Parent(p)[..|from|] == p[..|from|];
      assert Parent(to + p[|from|..]) == to + Parent(p)[|from|..];
    }
  }

  lemma WithinParent(top: Path, p: Path)
    requires p != []
    ensures Within(top, Parent(p)) ==> Within(top, p)
  {
    if Within(top, Parent(p)) {
      assert Parent(p)[..|top|] == p[..|top|];
    }
  }

  lemma {:induction false} NothingBelowAbsent(t: Tree, top: Path, p: Path)
    requires ParentsExist(t) && top !in t && p in t
    ensures !Within(top, p)
    decreases |p|
  {
    if |p| > |top| {
      NothingBelowAbsent(t, top, Parent(p));
    }
    assert top <= p ==> |p| > |top| || p == top;
  }

  lemma MoveKeepsIds(t: Tree, from: Path, to: Path)
    requires IdsDistinct(t) && Legal(t, Moved(from, to))
    ensures IdsDistinct(Move(t, from, to)) && Ids(Move(t, from, to)) <= Ids(t)
  {
    var t' := Move(t, from, to);
    forall q | q in t'
      ensures Relocated(to, from, q) in t && t[Relocated(to, from, q)] == t'[q]
    {
      MoveBackward(t, from, to, q);
    }
    forall q, r | q in t' && r in t' && t'[q].File? && t'[r].File? && t'[q].id == t'[r].id
      ensures q == r
    {
      MoveBackward(t, from, to, q);
      MoveBackward(t, from, to, r);
    }
  }

  lemma StepKeepsWellFormed(codec: Codec, s: Session, op: Op)
    requires WellFormed(s)
    ensures WellFormed(Step(codec, s, op).0)
  {
    var c := ChangeOf(codec, s, op);
    StepChange(codec, s, op);
    var t, t' := s.tree, Apply(s.tree, c, s.nextId);
    if c.Moved? {
      MoveKeepsParents(t, c.p, c.to);
      MoveKeepsIds(t, c.p, c.to);
    } else {
      LocalChangeKeepsParents(s.tree, c, s.nextId);
      LocalChangeKeepsIds(s.tree, c, s.nextId);
    }
  }

  lemma LocalChangeKeepsIds(t: Tree, c: Change, id: nat)
    requires IdsDistinct(t) && id !in Ids(t) && Legal(t, c) && !c.Moved?
    ensures IdsDistinct(Apply(t, c, id)) && Ids(Apply(t, c, id)) <= Ids(t) + (if c.NewFile? then {id} else {})
  {
    var t' := Apply(t, c, id);
    forall p | p in t' && t'[p].File?
      ensures if c.NewFile? && p == c.p then t'[p].id == id else p in t && t[p].File? && t[p].id == t'[p].id
    {
    }
    forall p | p in t && t[p].File?
      ensures t[p].id in Ids(t)
    {
    }
  }

  lemma LocalChangeKeepsParents(t: Tree, c: Change, id: nat)
    requires ParentsExist(t) && Legal(t, c) && !c.Moved?
    ensures ParentsExist(Apply(t, c, id))
  {
    if c.Drop? {
      forall q | q in t && q != [] && q != c.p
        ensures Parent(q) != c.p
      {
        if Parent(q) == c.p {
          assert Within(c.p, q);
        }
      }
    }
  }

  // ---------------------------------------------------------------------
  // One call
  // ---------------------------------------------------------------------

  /** What the kernel guarantees: create is called on absent paths only, and write on a
      file that was opened or created before and is still there. */
  predicate Disciplined(s: Session, op: Op) {
    match op
    case CreateOp(p, _) => p !in s.tree
    case WriteOp(p, _, _) => p in s.tree
    case _ => true
  }

  /** A file that is alive in both trees has the same bytes in both. */
  ghost predicate SameBytes(t: Tree, t': Tree) {
    forall p, q :: p in t && q in t' && t[p].File? && t'[q].File? && t[p].id == t'[q].id ==> t[p].bytes == t'[q].bytes
  }

  ghost predicate KeepsPaths(t: Tree, t': Tree) {
    forall p :: p in t ==> p in t' && t'[p] == t[p]
  }

  /** Under delete protection no file identity is lost in a call. */
  lemma DeleteGate(codec: Codec, s: Session, op: Op)
    requires WellFormed(s) && WormCheck(s.flags, PROTECT_DELETE)
    ensures Ids(s.tree) <= Ids(Step(codec, s, op).0.tree)
  {
    var c := ChangeOf(codec, s, op);
    StepChange(codec, s, op);
    var t, t' := s.tree, Apply(s.tree, c, s.nextId);
    assert !c.Drop? && (c.Moved? ==> c.to !in t);
    forall p | p in t && t[p].File?
      ensures t[p].id in Ids(t')
    {
      if c.Moved? {
        NothingBelowAbsent(t, c.to, p);
        MoveForward(t, c.p, c.to, p);
        assert t'[Relocated(c.p, c.to, p)].id == t[p].id;
      } else {
        assert t'[p].id == t[p].id;
      }
    }
  }

  /** Under write protection a call changes the bytes of a live file in one case only:
      create, without O_EXCL, truncates an existing non-empty file. */
  lemma WriteGate(codec: Codec, s: Session, op: Op)
    requires WellFormed(s) && WormCheck(s.flags, PROTECT_WRITE)
    ensures SameBytes(s.tree, Step(codec, s, op).0.tree)
       <==> !(&& op.CreateOp? && op.how.trunc && !op.how.excl && !ScanLocked(s.flags)
              && op.path in s.tree && s.tree[op.path].File? && s.tree[op.path].bytes != [])
  {
    var c := ChangeOf(codec, s, op);
    StepChange(codec, s, op);
    var t, t' := s.tree, Apply(s.tree, c, s.nextId);
    if c.Moved? {
      forall q | q in t'
        ensures Relocated(c.to, c.p, q) in t && t[Relocated(c.to, c.p, q)] == t'[q]
      {
        MoveBackward(t, c.p, c.to, q);
      }
    } else if c.NewFile? {
      assert forall p :: p in t && t[p].File? ==> t[p].id in Ids(t);
    } else if c.Rewrite? {
      assert op.CreateOp? && c.bytes == [];
      assert t[c.p].id == t'[c.p].id;
    }
  }

  /** Delete, write and rename protection together: every existing path keeps its node. */
  lemma AllThreeGates(codec: Codec, s: Session, op: Op)
    requires WormCheck(s.flags, PROTECT_DELETE) && WormCheck(s.flags, PROTECT_WRITE) && WormCheck(s.flags, PROTECT_RENAME)
    requires Disciplined(s, op)
    ensures KeepsPaths(s.tree, Step(codec, s, op).0.tree)
  {
    StepChange(codec, s, op);
  }

  /** Under the scan flag a call changes the tree in one case only: a write to a path that
      does not exist creates it. The flag itself stays. */
  lemma ScanGate(codec: Codec, s: Session, op: Op)
    requires ScanLocked(s.flags)
    ensures Step(codec, s, op).0.tree == s.tree
       <==> !(op.WriteOp? && op.path !in s.tree && CanHold(s.tree, op.path))
    ensures ScanLocked(Step(codec, s, op).0.flags)
  {
    StepChange(codec, s, op);
    ScanBitStays(s.flags, op);
  }

  lemma ScanBitStays(flags: bv32, op: Op)
    requires ScanLocked(flags)
    ensures op.ClearFlags? || ScanLocked(FlagStep(flags, op))
  {
    match op
    case SetFlags(mask) => assert (flags | (mask & PROTECT_ALL)) & PROTECT_SCAN != 0;
    case SetScan => assert (flags | PROTECT_SCAN | PROTECT_ALL) & PROTECT_SCAN != 0;
    case _ =>
  }

  // ---------------------------------------------------------------------
  // Whole runs
  // ---------------------------------------------------------------------

  function Run(codec: Codec, s: Session, ops: seq<Op>): Session
    decreases |ops|
  {
    if ops == [] then s else Run(codec, Step(codec, s, ops[0]).0, ops[1..])
  }

  /** Every call of the run is one the kernel would make. */
  predicate DisciplinedRun(codec: Codec, s: Session, ops: seq<Op>)
    decreases |ops|
  {
    ops == [] || (Disciplined(s, ops[0]) && DisciplinedRun(codec, Step(codec, s, ops[0]).0, ops[1..]))
  }

  /** The protection is on at every call of the run. */
  predicate Held(codec: Codec, s: Session, ops: seq<Op>, flag: bv32)
    decreases |ops|
  {
    ops == [] || (WormCheck(s.flags, flag) && Held(codec, Step(codec, s, ops[0]).0, ops[1..], flag))
  }

  predicate ClearsNone(ops: seq<Op>, flag: bv32) {
    forall i :: 0 <= i < |ops| && ops[i].ClearFlags? ==> ops[i].mask & flag == 0
  }

  /** A protection that is on stays on until a call clears its bit. */
  lemma {:induction false} HeldUnlessCleared(codec: Codec, s: Session, ops: seq<Op>, flag: bv32)
    requires flag == PROTECT_DELETE || flag == PROTECT_RENAME || flag == PROTECT_WRITE || flag == PROTECT_READ
    requires WormCheck(s.flags, flag) && ClearsNone(ops, flag)
    ensures Held(codec, s, ops, flag)
    decreases |ops|
  {
    if ops != [] {
      FlagBitStays(s, ops[0], flag);
      HeldUnlessCleared(codec, Step(codec, s, ops[0]).0, ops[1..], flag);
    }
  }

  lemma SetKeepsBits(f: bv32, mask: bv32, flag: bv32)
    ensures f & flag != 0 ==> (f | (mask & PROTECT_ALL)) & flag != 0
  {
  }

  lemma ClearKeepsOtherBits(f: bv32, mask: bv32, flag: bv32)
    requires mask & flag == 0
    ensures f & !(mask & !PROTECT_SCAN) & flag == f & flag
  {
  }

  lemma ScanBitIsSet(f: bv32)
    ensures (f | PROTECT_SCAN | PROTECT_ALL) & PROTECT_SCAN != 0
  {
  }

  lemma FlagBitStays(s: Session, op: Op, flag: bv32)
    requires flag == PROTECT_DELETE || flag == PROTECT_RENAME || flag == PROTECT_WRITE || flag == PROTECT_READ
    requires WormCheck(s.flags, flag) && (op.ClearFlags? ==> op.mask & flag == 0)
    ensures Denied(s, op) || WormCheck(FlagStep(s.flags, op), flag)
  {
    var f := s.flags;
    match op
    case SetFlags(mask) =>
      SetKeepsBits(f, mask, flag);
      SetKeepsBits(f, mask, PROTECT_SCAN);
    case ClearFlags(mask) =>
      ClearKeepsOtherBits(f, mask, flag);
    case SetScan =>
      ScanBitIsSet(f);
    case _ =>
  }

  lemma {:induction false} DeleteProtectsRun(codec: Codec, s: Session, ops: seq<Op>)
    requires WellFormed(s) && Held(codec, s, ops, PROTECT_DELETE)
    ensures Ids(s.tree) <= Ids(Run(codec, s, ops).tree)
    decreases |ops|
  {
    if ops != [] {
      DeleteGate(codec, s, ops[0]);
      StepKeepsWellFormed(codec, s, ops[0]);
      DeleteProtectsRun(codec, Step(codec, s, ops[0]).0, ops[1..]);
    }
  }

  /** Identities are never reused: one that is dead stays dead. */
  lemma {:induction false} NoResurrection(codec: Codec, s: Session, ops: seq<Op>)
    requires WellFormed(s)
    ensures s.nextId <= Run(codec, s, ops).nextId
    ensures forall i :: i in Ids(Run(codec, s, ops).tree) && i < s.nextId ==> i in Ids(s.tree)
    decreases |ops|
  {
    if ops != [] {
      var s' := Step(codec, s, ops[0]).0;
      StepIds(codec, s, ops[0]);
      StepKeepsWellFormed(codec, s, ops[0]);
      NoResurrection(codec, s', ops[1..]);
    }
  }

  lemma StepIds(codec: Codec, s: Session, op: Op)
    requires WellFormed(s)
    ensures Ids(Step(codec, s, op).0.tree) <= Ids(s.tree) + {s.nextId}
  {
    var c := ChangeOf(codec, s, op);
    StepChange(codec, s, op);
    if c.Moved? {
      MoveKeepsIds(s.tree, c.p, c.to);
    } else {
      LocalChangeKeepsIds(s.tree, c, s.nextId);
    }
  }

  /** Under write protection a file that is alive at both ends of a run has the same bytes
      at both ends, however it was renamed in between. */
  lemma {:induction false} WriteProtectsRun(codec: Codec, s: Session, ops: seq<Op>)
    requires WellFormed(s) && Held(codec, s, ops, PROTECT_WRITE) && DisciplinedRun(codec, s, ops)
    ensures SameBytes(s.tree, Run(codec, s, ops).tree)
    decreases |ops|
  {
    if ops != [] {
      var s' := Step(codec, s, ops[0]).0;
      WriteGate(codec, s, ops[0]);
      StepKeepsWellFormed(codec, s, ops[0]);
      WriteProtectsRun(codec, s', ops[1..]);
      NoResurrection(codec, s', ops[1..]);
      SameBytesCompose(s.tree, s'.tree, Run(codec, s, ops).tree);
    }
  }

  lemma SameBytesCompose(t0: Tree, t1: Tree, t2: Tree)
    requires SameBytes(t0, t1) && SameBytes(t1, t2)
    requires Ids(t0) * Ids(t2) <= Ids(t1)
    ensures SameBytes(t0, t2)
  {
    forall p, q | p in t0 && q in t2 && t0[p].File? && t2[q].File? && t0[p].id == t2[q].id
      ensures t0[p].bytes == t2[q].bytes
    {
      assert t0[p].id in Ids(t0) * Ids(t2);
      var r :| r in t1 && t1[r].File? && t1[r].id == t0[p].id;
      assert t0[p].bytes == t1[r].bytes;
    }
  }

  lemma {:induction false} AllThreeProtectRun(codec: Codec, s: Session, ops: seq<Op>)
    requires Held(codec, s, ops, PROTECT_DELETE) && Held(codec, s, ops, PROTECT_WRITE) && Held(codec, s, ops, PROTECT_RENAME)
    requires DisciplinedRun(codec, s, ops)
    ensures KeepsPaths(s.tree, Run(codec, s, ops).tree)
    decreases |ops|
  {
    if ops != [] {
      AllThreeGates(codec, s, ops[0]);
      AllThreeProtectRun(codec, Step(codec, s, ops[0]).0, ops[1..]);
    }
  }

  /** The scan flag freezes the tree, and itself, for good: no call clears it. */
  lemma {:induction false} ScanFreezesRun(codec: Codec, s: Session, ops: seq<Op>)
    requires ScanLocked(s.flags) && DisciplinedRun(codec, s, ops)
    ensures Run(codec, s, ops).tree == s.tree && ScanLocked(Run(codec, s, ops).flags)
    decreases |ops|
  {
    if ops != [] {
      ScanGate(codec, s, ops[0]);
      ScanFreezesRun(codec, Step(codec, s, ops[0]).0, ops[1..]);
    }
  }

  /** Read protection, alone or through the scan flag, lets no byte out. */
  lemma ReadGate(codec: Codec, s: Session, op: Op)
    requires WormCheck(s.flags, PROTECT_READ)
    ensures !Step(codec, s, op).1.Data?
  {
  }

  // ---------------------------------------------------------------------
  // Where the code differs from its comments
  // ---------------------------------------------------------------------

  /** The header says that write protection still lets a new file be populated. It does
      not: once created the file exists, so every write to it is refused, and it is still
      empty at the end of any run that keeps the protection. */
  lemma NewFileCannotBePopulated(codec: Codec, s: Session, p: Path, how: OpenFlags, ops: seq<Op>)
    requires WellFormed(s) && WormCheck(s.flags, PROTECT_WRITE)
    requires p !in s.tree && Step(codec, s, CreateOp(p, how)).1 == Done
    requires var s' := Step(codec, s, CreateOp(p, how)).0;
             Held(codec, s', ops, PROTECT_WRITE) && DisciplinedRun(codec, s', ops)
    ensures var s' := Step(codec, s, CreateOp(p, how)).0;
            var t := Run(codec, s', ops).tree;
            && (forall buf, offset :: Step(codec, s', WriteOp(p, buf, offset)) == (s', Err(EPERM)))
            && (forall q :: q in t && t[q].File? && t[q].id == s.nextId ==> t[q].bytes == [])
  {
    var s' := Step(codec, s, CreateOp(p, how)).0;
    StepKeepsWellFormed(codec, s, CreateOp(p, how));
    assert s'.tree[p] == File(s.nextId, []);
    WriteProtectsRun(codec, s', ops);
  }

  /** Nor does the scan flag by itself stop a write to an absent path from creating it. */
  lemma ScanAdmitsWriteToAbsentPath(codec: Codec, s: Session, p: Path, buf: seq<bv8>, offset: nat)
    requires ScanLocked(s.flags) && p !in s.tree && CanHold(s.tree, p)
    ensures p in Step(codec, s, WriteOp(p, buf, offset)).0.tree
  {
  }
}
