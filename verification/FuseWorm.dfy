/** The WORM flags of a mounted vault and the FUSE handlers they gate
    (c_src/vault/vault_fuse.c, worm_check of c_src/vault/vault_core.h).

    The cipher directory is a map from paths to nodes. Every file carries the identity of
    its inode, so that "the same file" survives a rename. */
module FuseWorm {
  import opened FuseCtr

  const PROTECT_DELETE: bv32 := 1
  const PROTECT_RENAME: bv32 := 2
  const PROTECT_WRITE: bv32 := 4
  const PROTECT_SCAN: bv32 := 8
  const PROTECT_READ: bv32 := 16
  const PROTECT_ALL: bv32 := 23

  /** worm_check: the scan flag counts as every protection bit. */
  predicate WormCheck(flags: bv32, flag: bv32) {
    if flags & PROTECT_SCAN != 0 then flag & PROTECT_ALL != 0 else flags & flag != 0
  }

  predicate ScanLocked(flags: bv32) { flags & PROTECT_SCAN != 0 }

  // ---------------------------------------------------------------------
  // The cipher directory and the system calls on it
  // ---------------------------------------------------------------------

  type Path = seq<string>
  datatype Node = File(id: nat, bytes: seq<bv8>) | Dir
  type Tree = map<Path, Node>

  datatype Errno = EPERM | ENOENT | EEXIST | EISDIR | ENOTDIR | ENOTEMPTY | EINVAL | EBUSY
  datatype Reply = Done | Count(n: nat) | Data(bytes: seq<bv8>) | Err(errno: Errno)

  datatype OpenFlags = OpenFlags(wronly: bool, rdwr: bool, trunc: bool, append: bool, excl: bool)

  function Parent(p: Path): Path
    requires p != []
  {
    p[..|p| - 1]
  }

  predicate IsDir(t: Tree, p: Path) { p in t && t[p].Dir? }

  predicate CanHold(t: Tree, p: Path) { p != [] && IsDir(t, Parent(p)) }

  predicate Within(top: Path, p: Path) { top <= p }

  predicate Empty(t: Tree, p: Path) {
    forall q :: q in t && Within(p, q) ==> q == p
  }

  /** open without O_CREAT. */
  function Open(t: Tree, p: Path, flags: OpenFlags): (Tree, Reply) {
    if p !in t then (t, Err(ENOENT))
    else if t[p].Dir? then (t, if flags.wronly || flags.rdwr || flags.trunc then Err(EISDIR) else Done)
    else (if flags.trunc then t[p := t[p].(bytes := [])] else t, Done)
  }

  /** open with O_CREAT; `id` is the inode a new file would get. */
  function Create(t: Tree, p: Path, flags: OpenFlags, id: nat): (Tree, Reply) {
    if p in t then if flags.excl then (t, Err(EEXIST)) else if t[p].Dir? then (t, Err(EISDIR)) else Open(t, p, flags)
    else if !CanHold(t, p) then (t, Err(ENOENT))
    else (t[p := File(id, [])], Done)
  }

  function Mkdir(t: Tree, p: Path): (Tree, Reply) {
    if p in t then (t, Err(EEXIST))
    else if !CanHold(t, p) then (t, Err(ENOENT))
    else (t[p := Dir], Done)
  }

  function Unlink(t: Tree, p: Path): (Tree, Reply) {
    if p !in t then (t, Err(ENOENT))
    else if t[p].Dir? then (t, Err(EISDIR))
    else (t - {p}, Done)
  }

  function Rmdir(t: Tree, p: Path): (Tree, Reply) {
    if p !in t then (t, Err(ENOENT))
    else if t[p].File? then (t, Err(ENOTDIR))
    else if p == [] then (t, Err(EBUSY))
    else if !Empty(t, p) then (t, Err(ENOTEMPTY))
    else (t - {p}, Done)
  }

  /** Why rename(2) refuses, if it does. */
  function RenameError(t: Tree, from: Path, to: Path): Reply {
    if from !in t then Err(ENOENT)
    else if from == [] || to == [] then Err(EBUSY)
    else if !CanHold(t, to) then Err(ENOENT)
    else if from == to then Done
    else if Within(from, to) then Err(EINVAL)
    else if to in t && t[to].File? && t[from].Dir? then Err(ENOTDIR)
    else if to in t && t[to].Dir? && t[from].File? then Err(EISDIR)
    else if Within(to, from) || (to in t && !Empty(t, to)) then Err(ENOTEMPTY)
    else Done
  }

  /** Where a path goes, and where it came from, when `from` becomes `to`. */
  function Relocated(from: Path, to: Path, p: Path): Path {
    if Within(from, p) then to + p[|from|..] else p
  }

  function Move(t: Tree, from: Path, to: Path): Tree
    requires !Within(from, to) && !Within(to, from)
  {
    assert forall p :: p in t && !Within(to, p) ==> Relocated(to, from, Relocated(from, to, p)) == p by {
      forall p | p in t && !Within(to, p)
        ensures Relocated(to, from, Relocated(from, to, p)) == p
      {
        RelocateBack(from, to, p);
      }
    }
    map q | q in (set p | p in t && !Within(to, p) :: Relocated(from, to, p)) :: t[Relocated(to, from, q)]
  }

  lemma RelocateBack(from: Path, to: Path, p: Path)
    requires !Within(from, to) && !Within(to, from) && !Within(to, p)
    ensures Relocated(to, from, Relocated(from, to, p)) == p
    ensures Within(from, p) <==> Within(to, Relocated(from, to, p))
  {
    if Within(from, p) {
      var rest := p[|from|..];
      assert (to + rest)[..|to|] == to && (to + rest)[|to|..] == rest;
      assert from + rest == p;
    }
  }

  function Rename(t: Tree, from: Path, to: Path): (Tree, Reply) {
    var r := RenameError(t, from, to);
    (if r == Done && from != to then Move(t, from, to) else t, r)
  }

  // ---------------------------------------------------------------------
  // What a handler call does
  // ---------------------------------------------------------------------

  datatype Session = Session(tree: Tree, nextId: nat, flags: bv32)

  datatype Op =
    | OpenOp(path: Path, how: OpenFlags)
    | ReadOp(path: Path, size: nat, offset: nat)
    | WriteOp(path: Path, buf: seq<bv8>, offset: nat)
    | MkdirOp(path: Path)
    | UnlinkOp(path: Path)
    | RmdirOp(path: Path)
    | RenameOp(path: Path, to: Path)
    | CreateOp(path: Path, how: OpenFlags)
    | SetFlags(mask: bv32)
    | ClearFlags(mask: bv32)
    | SetScan

  /** The stream cipher of a protected vault, the identity of a normal one. */
  type Codec = (Path, nat, seq<bv8>) -> seq<bv8>

  predicate WantsWrite(how: OpenFlags) { how.wronly || how.rdwr || how.trunc || how.append }

  /** The gates: what the flags forbid before any system call has an effect. */
  predicate Denied(s: Session, op: Op) {
    match op
    case OpenOp(_, how) => WormCheck(s.flags, PROTECT_WRITE) && WantsWrite(how)
    case ReadOp(_, _, _) => WormCheck(s.flags, PROTECT_READ)
    case WriteOp(p, _, _) => WormCheck(s.flags, PROTECT_WRITE) && p in s.tree
    case MkdirOp(_) => ScanLocked(s.flags)
    case UnlinkOp(_) => WormCheck(s.flags, PROTECT_DELETE)
    case RmdirOp(_) => WormCheck(s.flags, PROTECT_DELETE)
    case RenameOp(_, to) =>
      || WormCheck(s.flags, PROTECT_RENAME)
      || ((WormCheck(s.flags, PROTECT_DELETE) || WormCheck(s.flags, PROTECT_WRITE)) && to in s.tree)
    case CreateOp(_, _) => ScanLocked(s.flags)
    case SetFlags(_) => false
    case ClearFlags(_) => ScanLocked(s.flags)
    case SetScan => false
  }

  function KernelWrite(t: Tree, p: Path, data: seq<bv8>, offset: nat, id: nat): (Tree, Reply) {
    var (t', r) := Create(t, p, OpenFlags(true, false, false, false, false), id);
    if r.Err? || p !in t' || t'[p].Dir? then (t', r)
    else (t'[p := t'[p].(bytes := Pwrite(t'[p].bytes, offset, data, Zero()))], Count(|data|))
  }

  function KernelRead(t: Tree, p: Path, size: nat, offset: nat): Reply {
    if p !in t then Err(ENOENT)
    else if t[p].Dir? then Err(EISDIR)
    else Data(Pread(t[p].bytes, offset, size))
  }

  function TreeStep(codec: Codec, s: Session, op: Op): (Tree, Reply) {
    match op
    case OpenOp(p, how) => Open(s.tree, p, how)
    case ReadOp(p, size, offset) =>
      var r := KernelRead(s.tree, p, size, offset);
      (s.tree, if r.Data? then Data(codec(p, offset, r.bytes)) else r)
    case WriteOp(p, buf, offset) =>
      var (t, r) := KernelWrite(s.tree, p, codec(p, offset, buf), offset, s.nextId);
      (t, if r.Count? then Count(|buf|) else r)
    case MkdirOp(p) => Mkdir(s.tree, p)
    case UnlinkOp(p) => Unlink(s.tree, p)
    case RmdirOp(p) => Rmdir(s.tree, p)
    case RenameOp(from, to) => Rename(s.tree, from, to)
    case CreateOp(p, how) => Create(s.tree, p, how, s.nextId)
    case SetFlags(mask) => (s.tree, if mask & PROTECT_SCAN != 0 then Err(EINVAL) else Done)
    case ClearFlags(_) => (s.tree, Done)
    case SetScan => (s.tree, Done)
  }

  function FlagStep(flags: bv32, op: Op): bv32 {
    match op
    case SetFlags(mask) => if mask & PROTECT_SCAN != 0 then flags else flags | (mask & PROTECT_ALL)
    case ClearFlags(mask) => flags & !(mask & !PROTECT_SCAN)
    case SetScan => flags | PROTECT_SCAN | PROTECT_ALL
    case _ => flags
  }

  function Step(codec: Codec, s: Session, op: Op): (Session, Reply) {
    if Denied(s, op) then (s, Err(EPERM))
    else
      var (t, r) := TreeStep(codec, s, op);
      (Session(t, s.nextId + 1, FlagStep(s.flags, op)), r)
  }

  // ---------------------------------------------------------------------
  // What each call does, said of the tree place by place
  // ---------------------------------------------------------------------

  /** Nothing differs but at `p`. */
  ghost predicate SameBut(t: Tree, t': Tree, p: Path) {
    forall q :: q != p ==> (q in t <==> q in t') && (q in t ==> t'[q] == t[q])
  }

  /** The system call `bit` stands for is protected. */
  predicate IsProtected(flags: bv32, bit: bv32) { flags & PROTECT_SCAN != 0 || flags & bit != 0 }

  /** The four bits that stand for system calls. */
  predicate IsGate(bit: bv32) {
    bit == PROTECT_DELETE || bit == PROTECT_RENAME || bit == PROTECT_WRITE || bit == PROTECT_READ
  }

  lemma GateBits(flags: bv32)
    ensures forall bit :: IsGate(bit) ==> (WormCheck(flags, bit) <==> IsProtected(flags, bit))
  {
  }

  /** After setting, a gate is shut if it was or is asked to be; after clearing, if it was and
      is not asked to open. Neither touches the scan lock. */
  predicate IsMasked(was: bv32, mask: bv32, now: bv32) {
    && (now & PROTECT_SCAN == was & PROTECT_SCAN)
    && (now & PROTECT_DELETE == 0 <==> was & PROTECT_DELETE == 0 && mask & PROTECT_DELETE == 0)
    && (now & PROTECT_RENAME == 0 <==> was & PROTECT_RENAME == 0 && mask & PROTECT_RENAME == 0)
    && (now & PROTECT_WRITE == 0 <==> was & PROTECT_WRITE == 0 && mask & PROTECT_WRITE == 0)
    && (now & PROTECT_READ == 0 <==> was & PROTECT_READ == 0 && mask & PROTECT_READ == 0)
  }

  predicate IsCleared(was: bv32, mask: bv32, now: bv32) {
    && (now & PROTECT_SCAN == was & PROTECT_SCAN)
    && (now & PROTECT_DELETE != 0 <==> was & PROTECT_DELETE != 0 && mask & PROTECT_DELETE == 0)
    && (now & PROTECT_RENAME != 0 <==> was & PROTECT_RENAME != 0 && mask & PROTECT_RENAME == 0)
    && (now & PROTECT_WRITE != 0 <==> was & PROTECT_WRITE != 0 && mask & PROTECT_WRITE == 0)
    && (now & PROTECT_READ != 0 <==> was & PROTECT_READ != 0 && mask & PROTECT_READ == 0)
  }

  /** A new file or directory needs a directory to be put in. */
  lemma PutEffect(t: Tree, p: Path, how: OpenFlags, id: nat)
    ensures var (t', r) := Create(t, p, how, id);
            && SameBut(t, t', p)
            && (p in t && how.excl ==> r == Err(EEXIST) && t' == t)
            && (p in t && !how.excl && t[p].Dir? ==> r == Err(EISDIR) && t' == t)
            && (p in t && !how.excl && t[p].File? ==>
                  r == Done && p in t' && t'[p] == File(t[p].id, if how.trunc then [] else t[p].bytes))
            && (p !in t && (p == [] || p[..|p| - 1] !in t || !t[p[..|p| - 1]].Dir?) ==> r == Err(ENOENT) && t' == t)
            && (p !in t && p != [] && p[..|p| - 1] in t && t[p[..|p| - 1]].Dir? ==>
                  r == Done && p in t' && t'[p] == File(id, []))
    ensures var (t', r) := Mkdir(t, p);
            && SameBut(t, t', p)
            && (p in t ==> r == Err(EEXIST) && t' == t)
            && (p !in t && (p == [] || p[..|p| - 1] !in t || !t[p[..|p| - 1]].Dir?) ==> r == Err(ENOENT) && t' == t)
            && (p !in t && p != [] && p[..|p| - 1] in t && t[p[..|p| - 1]].Dir? ==> r == Done && p in t' && t'[p] == Dir)
  {
  }

  lemma OpenEffect(t: Tree, p: Path, how: OpenFlags)
    ensures var (t', r) := Open(t, p, how);
            && SameBut(t, t', p)
            && (p !in t ==> r == Err(ENOENT) && t' == t)
            && (p in t && t[p].Dir? ==>
                  t' == t && r == if how.wronly || how.rdwr || how.trunc then Err(EISDIR) else Done)
            && (p in t && t[p].File? ==>
                  r == Done && p in t' && t'[p] == File(t[p].id, if how.trunc then [] else t[p].bytes))
  {
  }

  lemma TakeEffect(t: Tree, p: Path)
    ensures var (t', r) := Unlink(t, p);
            && SameBut(t, t', p)
            && (p !in t ==> r == Err(ENOENT) && t' == t)
            && (p in t && t[p].Dir? ==> r == Err(EISDIR) && t' == t)
            && (p in t && t[p].File? ==> r == Done && p !in t')
    ensures var (t', r) := Rmdir(t, p);
            && SameBut(t, t', p)
            && (p !in t ==> r == Err(ENOENT) && t' == t)
            && (p in t && t[p].File? ==> r == Err(ENOTDIR) && t' == t)
            && (p in t && t[p].Dir? ==>
                  if p != [] && forall q :: q in t && |p| < |q| ==> q[..|p|] != p then r == Done && p !in t'
                  else r == Err(if p == [] then EBUSY else ENOTEMPTY) && t' == t)
  {
    forall q | q in t
      ensures p < q ==> |p| < |q| && q[..|p|] == p
      ensures |p| < |q| && q[..|p|] == p ==> p < q
    {
    }
  }

  /** What the arguments of a rename that succeeds are like: the target's directory is there,
      neither is below the other, and what is at the target is of the same kind and empty. */
  ghost predicate MayMove(t: Tree, from: Path, to: Path) {
    && from in t && from != [] && to != [] && to[..|to| - 1] in t && t[to[..|to| - 1]].Dir?
    && (from != to ==>
          && !(from <= to) && !(to <= from)
          && (to in t ==> (t[to].Dir? <==> t[from].Dir?) && forall q :: q in t && to <= q ==> q == to))
  }

  /** What was below `from` is below `to`, what was at `to` is gone, the rest is as it was. */
  ghost predicate IsMoved(t: Tree, t': Tree, from: Path, to: Path) {
    && (forall rest :: (to + rest in t' <==> from + rest in t) && (from + rest in t ==> t'[to + rest] == t[from + rest]))
    && (forall q :: from <= q ==> q !in t')
    && (forall q :: !(from <= q) && !(to <= q) ==> (q in t' <==> q in t) && (q in t ==> t'[q] == t[q]))
  }

  /** A rename that succeeds moves the whole subtree and nothing else. */
  lemma RenameEffect(t: Tree, from: Path, to: Path)
    ensures var (t', r) := Rename(t, from, to);
            && (r == Done <==> MayMove(t, from, to))
            && (from !in t ==> r == Err(ENOENT))
            && (r != Done || from == to ==> t' == t)
            && (r == Done && from != to ==> IsMoved(t, t', from, to))
  {
    var (t', r) := Rename(t, from, to);
    if r == Done && from != to {
      forall rest: Path
        ensures to + rest in t' <==> from + rest in t
        ensures from + rest in t ==> t'[to + rest] == t[from + rest]
      {
        MovedBelow(t, from, to, rest);
      }
      forall q: Path | !(to <= q)
        ensures if from <= q then q !in t' else (q in t' <==> q in t) && (q in t ==> t'[q] == t[q])
      {
        MovedElsewhere(t, from, to, q);
      }
    }
  }

  lemma PrefixesOfOne(a: Path, b: Path, p: Path)
    ensures a <= p && b <= p ==> a <= b || b <= a
  {
    if a <= p && b <= p {
      assert forall i :: 0 <= i < |a| ==> a[i] == p[i];
      assert forall i :: 0 <= i < |b| ==> b[i] == p[i];
    }
  }

  lemma MovedBelow(t: Tree, from: Path, to: Path, rest: Path)
    requires !Within(from, to) && !Within(to, from)
    ensures to + rest in Move(t, from, to) <==> from + rest in t
    ensures from + rest in t ==> Move(t, from, to)[to + rest] == t[from + rest]
  {
    var p, q := from + rest, to + rest;
    assert p[..|from|] == from && p[|from|..] == rest && q[..|to|] == to && q[|to|..] == rest;
    assert Relocated(from, to, p) == q && Relocated(to, from, q) == p;
    PrefixesOfOne(from, to, p);
    forall p' | !Within(to, p')
      ensures Relocated(from, to, p') == q ==> p' == p
    {
      RelocateBack(from, to, p');
    }
  }

  lemma MovedElsewhere(t: Tree, from: Path, to: Path, q: Path)
    requires !Within(from, to) && !Within(to, from) && !Within(to, q)
    ensures Within(from, q) ==> q !in Move(t, from, to)
    ensures !Within(from, q) ==> (q in Move(t, from, to) <==> q in t) && (q in t ==> Move(t, from, to)[q] == t[q])
  {
    forall p' | !Within(to, p')
      ensures Relocated(from, to, p') == q ==> p' == q && !Within(from, q)
    {
      RelocateBack(from, to, p');
    }
    if !Within(from, q) {
      assert Relocated(from, to, q) == q && Relocated(to, from, q) == q;
    }
  }

  /** The part of the bytes that is read. */
  predicate IsSlice(bytes: seq<bv8>, offset: nat, size: nat, got: seq<bv8>) {
    && |got| == (if offset >= |bytes| then 0 else if offset + size <= |bytes| then size else |bytes| - offset)
    && forall i :: 0 <= i < |got| ==> got[i] == bytes[offset + i]
  }

  /** The bytes after a write: the data at its place, zeros in a gap, the rest as it was. */
  predicate IsOverwritten(was: seq<bv8>, offset: nat, data: seq<bv8>, now: seq<bv8>) {
    && |now| == (if data == [] || offset + |data| <= |was| then |was| else offset + |data|)
    && forall j :: 0 <= j < |now| ==>
         now[j] == if offset <= j < offset + |data| then data[j - offset] else if j < |was| then was[j] else 0
  }

  lemma WriteEffect(codec: Codec, s: Session, p: Path, buf: seq<bv8>, offset: nat)
    requires !Denied(s, WriteOp(p, buf, offset))
    ensures var t, (s', r) := s.tree, Step(codec, s, WriteOp(p, buf, offset));
            && SameBut(t, s'.tree, p) && s'.flags == s.flags && s'.nextId == s.nextId + 1
            && (p in t && t[p].Dir? ==> r == Err(EISDIR) && s'.tree == t)
            && (p !in t && (p == [] || p[..|p| - 1] !in t || !t[p[..|p| - 1]].Dir?) ==> r == Err(ENOENT) && s'.tree == t)
            && ((p in t && t[p].File?) || (p !in t && p != [] && p[..|p| - 1] in t && t[p[..|p| - 1]].Dir?) ==>
                  && r == Count(|buf|) && p in s'.tree && s'.tree[p].File?
                  && s'.tree[p].id == (if p in t then t[p].id else s.nextId)
                  && IsOverwritten(if p in t then t[p].bytes else [], offset, codec(p, offset, buf), s'.tree[p].bytes))
  {
    var t := s.tree;
    PutEffect(t, p, OpenFlags(true, false, false, false, false), s.nextId);
    PwriteBytes(if p in t && t[p].File? then t[p].bytes else [], offset, codec(p, offset, buf));
  }

  /** What is written is what is read back at the same place, through any codec that undoes
      itself. */
  lemma WriteThenRead(codec: Codec, s: Session, p: Path, buf: seq<bv8>, offset: nat)
    requires codec(p, offset, codec(p, offset, buf)) == buf && |codec(p, offset, buf)| == |buf|
    requires Step(codec, s, WriteOp(p, buf, offset)).1.Count? && !IsProtected(s.flags, PROTECT_READ)
    ensures Step(codec, Step(codec, s, WriteOp(p, buf, offset)).0, ReadOp(p, |buf|, offset)).1 == Data(buf)
  {
    GateBits(s.flags);
    WriteEffect(codec, s, p, buf, offset);
    var s' := Step(codec, s, WriteOp(p, buf, offset)).0;
    var now := s'.tree[p].bytes;
    PreadBytes(now, offset, |buf|);
    assert Pread(now, offset, |buf|) == codec(p, offset, buf);
  }

  /** One mounted vault. Every handler tests the flags first, as the source does, and then
      makes its system calls on the cipher directory. */
  class Mount {
    const codec: Codec
    var tree: Tree
    var nextId: nat
    var wormFlags: bv32

    constructor (codec: Codec, flags: bv32)
      ensures this.codec == codec && tree == map[[] := Dir] && wormFlags == flags
    {
      this.codec, tree, nextId, wormFlags := codec, map[[] := Dir], 0, flags;
    }

    ghost function Now(): Session
      reads this
    {
      Session(tree, nextId, wormFlags)
    }

    method OpenFile(p: Path, how: OpenFlags) returns (r: Reply)
      modifies this
      ensures (Now(), r) == Step(codec, old(Now()), OpenOp(p, how))
      ensures wormFlags == old(wormFlags)
      ensures var t := old(tree);
              if IsProtected(wormFlags, PROTECT_WRITE) && (how.wronly || how.rdwr || how.trunc || how.append) then
                r == Err(EPERM) && tree == t
              else
                && SameBut(t, tree, p)
                && (p !in t ==> r == Err(ENOENT) && tree == t)
                && (p in t && t[p].Dir? ==>
                      tree == t && r == if how.wronly || how.rdwr || how.trunc then Err(EISDIR) else Done)
                && (p in t && t[p].File? ==>
                      r == Done && p in tree && tree[p] == File(t[p].id, if how.trunc then [] else t[p].bytes))
    {
      GateBits(wormFlags);
      OpenEffect(tree, p, how);
      if WormCheck(wormFlags, PROTECT_WRITE) {
        if how.wronly || how.rdwr || how.trunc || how.append {
          return Err(EPERM);
        }
      }
      var (t, res) := Open(tree, p, how);
      tree, nextId := t, nextId + 1;
      r := res;
    }

    method Read(p: Path, size: nat, offset: nat) returns (r: Reply)
      modifies this
      ensures (Now(), r) == Step(codec, old(Now()), ReadOp(p, size, offset))
      ensures tree == old(tree) && wormFlags == old(wormFlags)
      ensures if IsProtected(wormFlags, PROTECT_READ) then r == Err(EPERM)
              else if p !in tree then r == Err(ENOENT)
              else if tree[p].Dir? then r == Err(EISDIR)
              else exists got :: IsSlice(tree[p].bytes, offset, size, got) && r == Data(codec(p, offset, got))
    {
      GateBits(wormFlags);
      if p in tree && tree[p].File? {
        PreadBytes(tree[p].bytes, offset, size);
        assert IsSlice(tree[p].bytes, offset, size, Pread(tree[p].bytes, offset, size));
      }
      if WormCheck(wormFlags, PROTECT_READ) {
        return Err(EPERM);
      }
      r := KernelRead(tree, p, size, offset);
      if r.Data? {
        r := Data(codec(p, offset, r.bytes));
      }
      nextId := nextId + 1;
    }

    /** Under write protection the file is opened with O_CREAT|O_EXCL, so an existing one
        answers EEXIST, which is reported as EPERM. */
    method Write(p: Path, buf: seq<bv8>, offset: nat) returns (r: Reply)
      modifies this
      ensures (Now(), r) == Step(codec, old(Now()), WriteOp(p, buf, offset))
      ensures wormFlags == old(wormFlags) && SameBut(old(tree), tree, p)
      ensures var t := old(tree);
              if IsProtected(wormFlags, PROTECT_WRITE) && p in t then r == Err(EPERM) && tree == t
              else if p in t && t[p].Dir? then r == Err(EISDIR) && tree == t
              else if p !in t && (p == [] || p[..|p| - 1] !in t || !t[p[..|p| - 1]].Dir?) then r == Err(ENOENT) && tree == t
              else
                && r == Count(|buf|) && p in tree && tree[p].File?
                && tree[p].id == (if p in t then t[p].id else old(nextId))
                && IsOverwritten(if p in t then t[p].bytes else [], offset, codec(p, offset, buf), tree[p].bytes)
    {
      GateBits(wormFlags);
      if !Denied(Now(), WriteOp(p, buf, offset)) {
        WriteEffect(codec, Now(), p, buf, offset);
      }
      var protected := WormCheck(wormFlags, PROTECT_WRITE);
      var (t, handle) := Create(tree, p, OpenFlags(true, false, false, false, protected), nextId);
      if handle.Err? {
        if protected && handle.errno == EEXIST {
          return Err(EPERM);
        }
        nextId := nextId + 1;
        return handle;
      }
      var data := codec(p, offset, buf);
      tree := t[p := t[p].(bytes := Pwrite(t[p].bytes, offset, data, Zero()))];
      nextId := nextId + 1;
      r := Count(|buf|);
    }

    method MakeDir(p: Path) returns (r: Reply)
      modifies this
      ensures (Now(), r) == Step(codec, old(Now()), MkdirOp(p))
      ensures wormFlags == old(wormFlags) && SameBut(old(tree), tree, p)
      ensures var t := old(tree);
              if wormFlags & PROTECT_SCAN != 0 then r == Err(EPERM) && tree == t
              else if p in t then r == Err(EEXIST) && tree == t
              else if p == [] || p[..|p| - 1] !in t || !t[p[..|p| - 1]].Dir? then r == Err(ENOENT) && tree == t
              else r == Done && p in tree && tree[p] == Dir
    {
      PutEffect(tree, p, OpenFlags(false, false, false, false, false), 0);
      if wormFlags & PROTECT_SCAN != 0 {
        return Err(EPERM);
      }
      var (t, res) := Mkdir(tree, p);
      tree, nextId, r := t, nextId + 1, res;
    }

    method Remove(p: Path) returns (r: Reply)
      modifies this
      ensures (Now(), r) == Step(codec, old(Now()), UnlinkOp(p))
      ensures wormFlags == old(wormFlags) && SameBut(old(tree), tree, p)
      ensures var t := old(tree);
              if IsProtected(wormFlags, PROTECT_DELETE) then r == Err(EPERM) && tree == t
              else if p !in t then r == Err(ENOENT) && tree == t
              else if t[p].Dir? then r == Err(EISDIR) && tree == t
              else r == Done && p !in tree
    {
      GateBits(wormFlags);
      TakeEffect(tree, p);
      if WormCheck(wormFlags, PROTECT_DELETE) {
        return Err(EPERM);
      }
      var (t, res) := Unlink(tree, p);
      tree, nextId, r := t, nextId + 1, res;
    }

    method RemoveDir(p: Path) returns (r: Reply)
      modifies this
      ensures (Now(), r) == Step(codec, old(Now()), RmdirOp(p))
      ensures wormFlags == old(wormFlags) && SameBut(old(tree), tree, p)
      ensures var t := old(tree);
              if IsProtected(wormFlags, PROTECT_DELETE) then r == Err(EPERM) && tree == t
              else if p !in t then r == Err(ENOENT) && tree == t
              else if t[p].File? then r == Err(ENOTDIR) && tree == t
              else if p != [] && forall q :: q in t && |p| < |q| ==> q[..|p|] != p then r == Done && p !in tree
              else r == Err(if p == [] then EBUSY else ENOTEMPTY) && tree == t
    {
      GateBits(wormFlags);
      TakeEffect(tree, p);
      if WormCheck(wormFlags, PROTECT_DELETE) {
        return Err(EPERM);
      }
      var (t, res) := Rmdir(tree, p);
      tree, nextId, r := t, nextId + 1, res;
    }

    method RenameTo(from: Path, to: Path) returns (r: Reply)
      modifies this
      ensures (Now(), r) == Step(codec, old(Now()), RenameOp(from, to))
      ensures wormFlags == old(wormFlags)
      ensures var t, flags := old(tree), wormFlags;
              if IsProtected(flags, PROTECT_RENAME) ||
                 ((IsProtected(flags, PROTECT_DELETE) || IsProtected(flags, PROTECT_WRITE)) && to in t)
              then r == Err(EPERM) && tree == t
              else
                && (r == Done <==> MayMove(t, from, to))
                && (from !in t ==> r == Err(ENOENT))
                && (r != Done || from == to ==> tree == t)
                && (r == Done && from != to ==> IsMoved(t, tree, from, to))
    {
      GateBits(wormFlags);
      RenameEffect(tree, from, to);
      if WormCheck(wormFlags, PROTECT_RENAME) {
        return Err(EPERM);
      }
      if WormCheck(wormFlags, PROTECT_DELETE) || WormCheck(wormFlags, PROTECT_WRITE) {
        if to in tree {
          return Err(EPERM);
        }
      }
      var (t, res) := Rename(tree, from, to);
      tree, nextId, r := t, nextId + 1, res;
    }

    method CreateFile(p: Path, how: OpenFlags) returns (r: Reply)
      modifies this
      ensures (Now(), r) == Step(codec, old(Now()), CreateOp(p, how))
      ensures wormFlags == old(wormFlags) && SameBut(old(tree), tree, p)
      ensures var t := old(tree);
              if wormFlags & PROTECT_SCAN != 0 then r == Err(EPERM) && tree == t
              else if p in t then
                if how.excl then r == Err(EEXIST) && tree == t
                else if t[p].Dir? then r == Err(EISDIR) && tree == t
                else r == Done && p in tree && tree[p] == File(t[p].id, if how.trunc then [] else t[p].bytes)
              else if p == [] || p[..|p| - 1] !in t || !t[p[..|p| - 1]].Dir? then r == Err(ENOENT) && tree == t
              else r == Done && p in tree && tree[p] == File(old(nextId), [])
    {
      PutEffect(tree, p, how, nextId);
      if wormFlags & PROTECT_SCAN != 0 {
        return Err(EPERM);
      }
      var (t, res) := Create(tree, p, how, nextId);
      tree, nextId, r := t, nextId + 1, res;
    }

    method WormSetFlags(flags: bv32) returns (r: Reply)
      modifies this
      ensures (Now(), r) == Step(codec, old(Now()), SetFlags(flags))
      ensures tree == old(tree)
      ensures flags & PROTECT_SCAN != 0 ==> r == Err(EINVAL) && wormFlags == old(wormFlags)
      ensures flags & PROTECT_SCAN == 0 ==>
                r == Done && IsMasked(old(wormFlags), flags, wormFlags)
    {
      nextId := nextId + 1;
      if flags & PROTECT_SCAN != 0 {
        return Err(EINVAL);
      }
      wormFlags := wormFlags | (flags & PROTECT_ALL);
      r := Done;
    }

    method WormClearFlags(flags: bv32) returns (r: Reply)
      modifies this
      ensures (Now(), r) == Step(codec, old(Now()), ClearFlags(flags))
      ensures tree == old(tree)
      ensures old(wormFlags) & PROTECT_SCAN != 0 ==> r == Err(EPERM) && wormFlags == old(wormFlags)
      ensures old(wormFlags) & PROTECT_SCAN == 0 ==>
                r == Done && IsCleared(old(wormFlags), flags, wormFlags)
    {
      if wormFlags & PROTECT_SCAN != 0 {
        return Err(EPERM);
      }
      var cleared := flags & !PROTECT_SCAN;
      wormFlags := wormFlags & !cleared;
      nextId := nextId + 1;
      r := Done;
    }

    method WormSetScan() returns (r: Reply)
      modifies this
      ensures (Now(), r) == Step(codec, old(Now()), SetScan)
      ensures tree == old(tree) && r == Done
      ensures wormFlags & PROTECT_SCAN != 0 && forall bit :: IsGate(bit) ==> wormFlags & bit != 0
    {
      wormFlags := wormFlags | (PROTECT_SCAN | PROTECT_ALL);
      nextId := nextId + 1;
      r := Done;
    }
  }
}
