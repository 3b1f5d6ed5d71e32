/** The recursive copy that snapshots are made of (copy_dir_all and copy_file_secure,
    rust/vault_ops.rs:91-170, called with replace and preserve set), on a file system that
    both source and destination are part of. */
module TreeCopy {

  type Name = string

  /** A path from the vault's root, which is the empty path. */
  type Path = seq<Name>

  type Bytes = seq<bv8>

  /** Where a link leads: to a directory or a file outside the tree, or to nothing. */
  datatype Leads = Nowhere | ToFile | ToDir

  datatype Node = File(bytes: Bytes) | Dir | Link(to: Leads)

  type Fs = map<Path, Node>

  const SNAPSHOTS: Name := ".vault_snapshots"

  /** Whether a directory is made, what a failing copy leaves of a file, if it fails, and
      whether something works on a path that leads out of the tree. */
  datatype Io = Io(makesDir: Path -> bool, copies: Path -> bool, partial: Path -> Bytes, beyond: Path -> bool)

  function Parent(p: Path): Path
    requires p != []
  {
    p[..|p| - 1]
  }

  /** There is a directory to put the path in. */
  predicate Receives(fs: Fs, p: Path) { p != [] && Parent(p) in fs && fs[Parent(p)].Dir? }

  ghost predicate WellFormed(fs: Fs) {
    && [] in fs && fs[[]].Dir?
    && forall p {:trigger Receives(fs, p)} :: p in fs && p != [] ==> Receives(fs, p)
  }

  predicate LeadsOut(fs: Fs, p: Path) { p in fs && fs[p] == Link(ToDir) }

  /** On the way to the path a link to a directory leads out of the tree. */
  predicate Beyond(fs: Fs, p: Path)
    decreases |p|
  {
    p != [] && (LeadsOut(fs, Parent(p)) || Beyond(fs, Parent(p)))
  }

  /** What lies beyond is not in the tree. */
  lemma {:induction false} BeyondIsAbsent(fs: Fs, p: Path)
    requires WellFormed(fs) && Beyond(fs, p)
    ensures p !in fs && !Receives(fs, p)
    decreases |p|
  {
    if p in fs {
      assert Receives(fs, p);
    }
    if Beyond(fs, Parent(p)) {
      BeyondIsAbsent(fs, Parent(p));
    }
  }

  lemma {:induction false} SameBeyond(a: Fs, b: Fs, p: Path)
    requires forall q {:trigger LeadsOut(a, q)} :: q <= p && q != p ==> (LeadsOut(a, q) <==> LeadsOut(b, q))
    ensures Beyond(a, p) <==> Beyond(b, p)
    decreases |p|
  {
    if p != [] {
      assert LeadsOut(a, Parent(p)) <==> LeadsOut(b, Parent(p));
      SameBeyond(a, b, Parent(p));
    }
  }

  predicate SameAt(a: Fs, b: Fs, p: Path) { (p in a <==> p in b) && (p in a ==> a[p] == b[p]) }

  /** No snapshot directory on the way. */
  predicate Clean(rel: Path) { SNAPSHOTS !in rel }

  /** What a copy of `src` takes along: directories and regular files. */
  predicate Copied(fs: Fs, src: Path, rel: Path) {
    Clean(rel) && src + rel in fs && !fs[src + rel].Link?
  }

  /** Where it puts something. */
  predicate Written(fs: Fs, src: Path, dst: Path, p: Path) {
    dst <= p && Copied(fs, src, p[|dst|..])
  }

  /** The copy never writes where it reads. */
  ghost predicate Apart(fs: Fs, src: Path, dst: Path) {
    forall p :: Written(fs, src, dst, p) && src <= p ==> !Clean(p[|src|..])
  }

  /** What is in the way of the copy is of the right kind. */
  ghost predicate NoConflict(fs: Fs, src: Path, dst: Path) {
    forall p :: Written(fs, src, dst, p) && p in fs ==>
      !fs[p].Link? && (fs[p].Dir? <==> fs[src + p[|dst|..]].Dir?)
  }

  ghost predicate OnlyWritten(before: Fs, after: Fs, src: Path, dst: Path) {
    forall p :: !Written(before, src, dst, p) ==> SameAt(before, after, p)
  }

  ghost predicate AllWritten(before: Fs, after: Fs, src: Path, dst: Path) {
    forall p :: Written(before, src, dst, p) ==> p in after && after[p] == before[src + p[|dst|..]]
  }

  /** What a copy that succeeds leaves at a place it writes: what it copies, except that what
      stands in the place of a directory stays. */
  function Landed(fs: Fs, src: Path, dst: Path, p: Path): Node
    requires Written(fs, src, dst, p)
  {
    var node := fs[src + p[|dst|..]];
    if p in fs && !fs[p].Dir? && node.Dir? then fs[p] else node
  }

  /** It is there, unless a link leads out of the tree on the way. */
  predicate LandsAt(before: Fs, after: Fs, src: Path, dst: Path, p: Path)
    requires Written(before, src, dst, p)
  {
    if Beyond(before, p) then p !in after else p in after && after[p] == Landed(before, src, dst, p)
  }

  ghost predicate AllLanded(before: Fs, after: Fs, src: Path, dst: Path) {
    forall p :: Written(before, src, dst, p) ==> LandsAt(before, after, src, dst, p)
  }

  /** Paths below `src` that are read are at most `bound` longer. */
  ghost predicate Bounded(fs: Fs, src: Path, bound: nat) {
    forall p :: p in fs && src <= p && Clean(p[|src|..]) ==> |p| <= |src| + bound
  }

  ghost predicate AllWorks(io: Io) { forall p :: io.makesDir(p) && io.copies(p) }

  function Children(fs: Fs, dir: Path): set<Name> {
    set p | p in fs && |p| == |dir| + 1 && dir <= p :: p[|dir|]
  }

  // ---- One directory, its entries done one by one ---------------------------------------

  /** Written below one of the entries `done`, or the directory itself. */
  predicate WrittenBy(fs: Fs, src: Path, dst: Path, done: set<Name>, p: Path) {
    Written(fs, src, dst, p) && (p == dst || p[|dst|] in done)
  }

  ghost predicate OnlyBy(before: Fs, after: Fs, src: Path, dst: Path, done: set<Name>) {
    forall p :: !WrittenBy(before, src, dst, done, p) ==> SameAt(before, after, p)
  }

  ghost predicate AllBy(before: Fs, after: Fs, src: Path, dst: Path, done: set<Name>) {
    forall p :: WrittenBy(before, src, dst, done, p) ==> LandsAt(before, after, src, dst, p)
  }

  lemma Rebase(src: Path, dst: Path, n: Name, p: Path)
    requires dst + [n] <= p
    ensures dst <= p && |p| > |dst| && p[|dst|] == n
    ensures p[|dst|..] == [n] + p[|dst| + 1..] && src + [n] + p[|dst| + 1..] == src + p[|dst|..]
  {
    assert p[|dst|] == (dst + [n])[|dst|];
  }

  /** What is read is still there. */
  lemma ReadsAgree(before: Fs, now: Fs, src: Path, dst: Path, done: set<Name>, q: Path)
    requires Apart(before, src, dst) && OnlyBy(before, now, src, dst, done)
    requires src <= q && Clean(q[|src|..])
    ensures SameAt(before, now, q)
  {
    assert !WrittenBy(before, src, dst, done, q);
  }

  /** Copying one entry writes what copying the directory writes below that entry. */
  lemma ChildWrites(before: Fs, now: Fs, src: Path, dst: Path, done: set<Name>, n: Name, p: Path)
    requires Apart(before, src, dst) && OnlyBy(before, now, src, dst, done) && n != SNAPSHOTS
    ensures Written(now, src + [n], dst + [n], p) <==>
            Written(before, src, dst, p) && p != dst && p[|dst|] == n
    ensures Written(now, src + [n], dst + [n], p) ==>
            now[src + [n] + p[|dst| + 1..]] == before[src + p[|dst|..]]
  {
    if dst + [n] <= p {
      Rebase(src, dst, n, p);
      var q := src + p[|dst|..];
      assert q[|src|..] == p[|dst|..];
      assert Clean(p[|dst|..]) <==> Clean(p[|dst| + 1..]);
      if Clean(p[|dst|..]) {
        ReadsAgree(before, now, src, dst, done, q);
      }
    }
    assert dst <= p && p != dst && p[|dst|] == n ==> dst + [n] <= p;
  }

  /** The links on the way to an entry's places are those that were there. */
  lemma BeyondStays(before: Fs, now: Fs, src: Path, dst: Path, done: set<Name>, n: Name, p: Path)
    requires WellFormed(before) && IsDir(before, src) && OnlyBy(before, now, src, dst, done) && n !in done
    requires AllBy(before, now, src, dst, done) && dst + [n] <= p
    ensures Beyond(before, p) <==> Beyond(now, p)
  {
    AtDst(before, src, dst);
    forall q: Path | q <= p && q != p
      ensures LeadsOut(before, q) <==> LeadsOut(now, q)
    {
      if q == dst {
        assert WrittenBy(before, src, dst, done, dst);
        if Beyond(before, dst) {
          BeyondIsAbsent(before, dst);
        }
      } else {
        assert |q| > |dst| ==> q[|dst|] == p[|dst|] == (dst + [n])[|dst|] == n;
        assert !WrittenBy(before, src, dst, done, q);
      }
    }
    SameBeyond(before, now, p);
  }

  lemma ChildLands(before: Fs, now: Fs, next: Fs, src: Path, dst: Path, done: set<Name>, n: Name, p: Path)
    requires WellFormed(before) && IsDir(before, src) && AllBy(before, now, src, dst, done)
    requires Apart(before, src, dst) && OnlyBy(before, now, src, dst, done) && n != SNAPSHOTS && n !in done
    requires Written(now, src + [n], dst + [n], p) && LandsAt(now, next, src + [n], dst + [n], p)
    ensures Written(before, src, dst, p) && LandsAt(before, next, src, dst, p)
  {
    ChildWrites(before, now, src, dst, done, n, p);
    BeyondStays(before, now, src, dst, done, n, p);
    assert !WrittenBy(before, src, dst, done, p);
    assert SameAt(before, now, p);
  }

  lemma ChildApart(before: Fs, now: Fs, src: Path, dst: Path, done: set<Name>, n: Name)
    requires Apart(before, src, dst) && OnlyBy(before, now, src, dst, done) && n != SNAPSHOTS
    ensures Apart(now, src + [n], dst + [n])
  {
    forall p | Written(now, src + [n], dst + [n], p) && src + [n] <= p
      ensures !Clean(p[|src + [n]|..])
    {
      ChildWrites(before, now, src, dst, done, n, p);
      Rebase([], src, n, p);
      assert !Clean(p[|src|..]);
    }
  }

  lemma ChildBounded(before: Fs, now: Fs, src: Path, dst: Path, done: set<Name>, n: Name, bound: nat)
    requires Apart(before, src, dst) && OnlyBy(before, now, src, dst, done) && n != SNAPSHOTS
    requires Bounded(before, src, bound) && bound >= 1
    ensures Bounded(now, src + [n], bound - 1)
  {
    forall p | p in now && src + [n] <= p && Clean(p[|src + [n]|..])
      ensures |p| <= |src| + 1 + (bound - 1)
    {
      Rebase([], src, n, p);
      assert Clean(p[|src|..]);
      ReadsAgree(before, now, src, dst, done, p);
    }
  }

  lemma ChildNoConflict(before: Fs, now: Fs, src: Path, dst: Path, done: set<Name>, n: Name)
    requires Apart(before, src, dst) && OnlyBy(before, now, src, dst, done) && n != SNAPSHOTS && n !in done
    requires NoConflict(before, src, dst)
    ensures NoConflict(now, src + [n], dst + [n])
  {
    forall p | Written(now, src + [n], dst + [n], p) && p in now
      ensures !now[p].Link? && (now[p].Dir? <==> now[src + [n] + p[|dst + [n]|..]].Dir?)
    {
      ChildWrites(before, now, src, dst, done, n, p);
      assert !WrittenBy(before, src, dst, done, p);
      assert SameAt(before, now, p);
    }
  }

  /** One entry more is done. */
  lemma ChildDone(before: Fs, now: Fs, next: Fs, src: Path, dst: Path, done: set<Name>, n: Name)
    requires Apart(before, src, dst) && OnlyBy(before, now, src, dst, done) && n != SNAPSHOTS && n !in done
    requires WellFormed(before) && IsDir(before, src) && OnlyWritten(now, next, src + [n], dst + [n])
    ensures OnlyBy(before, next, src, dst, done + {n})
    ensures AllBy(before, now, src, dst, done) && AllLanded(now, next, src + [n], dst + [n]) ==>
            AllBy(before, next, src, dst, done + {n})
  {
    forall p | !WrittenBy(before, src, dst, done + {n}, p)
      ensures SameAt(before, next, p)
    {
      ChildWrites(before, now, src, dst, done, n, p);
      assert SameAt(before, now, p);
    }
    if AllBy(before, now, src, dst, done) && AllLanded(now, next, src + [n], dst + [n]) {
      forall p | WrittenBy(before, src, dst, done + {n}, p)
        ensures LandsAt(before, next, src, dst, p)
      {
        ChildWrites(before, now, src, dst, done, n, p);
        if Written(now, src + [n], dst + [n], p) {
          ChildLands(before, now, next, src, dst, done, n, p);
        } else {
          assert WrittenBy(before, src, dst, done, p);
          assert SameAt(now, next, p);
        }
      }
    }
  }

  // ---- Entries of each kind -------------------------------------------------------------

  /** What has something below it is a directory. */
  lemma {:induction false} AboveIsDir(fs: Fs, p: Path, q: Path)
    requires WellFormed(fs) && q in fs && p <= q && p != q
    ensures p in fs && fs[p].Dir?
    decreases |q|
  {
    assert Receives(fs, q);
    if p != Parent(q) {
      AboveIsDir(fs, p, Parent(q));
    }
  }

  /** Nothing is copied from below anything but a directory. */
  lemma OnlyItself(fs: Fs, src: Path, dst: Path, p: Path)
    requires WellFormed(fs) && src in fs && !fs[src].Dir? && Written(fs, src, dst, p)
    ensures p == dst && fs[src].File?
  {
    var q := src + p[|dst|..];
    if q != src {
      AboveIsDir(fs, src, q);
    }
    assert p[|dst|..] == [];
  }

  lemma {:induction false} NothingLeadsOut(fs: Fs, src: Path, dst: Path, p: Path)
    requires WellFormed(fs) && NoConflict(fs, src, dst) && !Beyond(fs, dst) && Written(fs, src, dst, p)
    ensures !Beyond(fs, p)
    decreases |p|
  {
    if p != dst {
      var up := Parent(p);
      var q := src + p[|dst|..];
      assert up[|dst|..] == p[|dst|..|p| - 1] && src + up[|dst|..] == Parent(q);
      assert Receives(fs, q);
      assert Written(fs, src, dst, up);
      NothingLeadsOut(fs, src, dst, up);
    }
  }

  lemma LandedWithoutConflict(before: Fs, after: Fs, src: Path, dst: Path)
    requires WellFormed(before) && !Beyond(before, dst)
    requires NoConflict(before, src, dst) && AllLanded(before, after, src, dst)
    ensures AllWritten(before, after, src, dst)
  {
    forall p | Written(before, src, dst, p)
      ensures p in after && after[p] == before[src + p[|dst|..]]
    {
      NothingLeadsOut(before, src, dst, p);
    }
  }

  /** A file's copy is the whole copy of that entry. */
  lemma FileCopied(now: Fs, next: Fs, src: Path, dst: Path)
    requires WellFormed(now) && src in now && now[src].File?
    requires forall p :: p != dst ==> SameAt(now, next, p)
    ensures OnlyWritten(now, next, src, dst)
    ensures (if Beyond(now, dst) then next == now else dst in next && next[dst] == now[src]) ==>
              AllLanded(now, next, src, dst)
  {
    if Beyond(now, dst) {
      BeyondIsAbsent(now, dst);
    }
    assert src + dst[|dst|..] == src;
    forall p | Written(now, src, dst, p)
      ensures p == dst
    {
      OnlyItself(now, src, dst, p);
    }
  }

  lemma LinkSkipped(now: Fs, src: Path, dst: Path)
    requires WellFormed(now) && src in now && now[src].Link?
    ensures OnlyWritten(now, now, src, dst) && AllLanded(now, now, src, dst)
  {
    forall p | Written(now, src, dst, p)
      ensures false
    {
      OnlyItself(now, src, dst, p);
    }
  }

  lemma SnapshotsSkipped(before: Fs, now: Fs, src: Path, dst: Path, done: set<Name>)
    requires OnlyBy(before, now, src, dst, done)
    ensures OnlyBy(before, now, src, dst, done + {SNAPSHOTS})
    ensures AllBy(before, now, src, dst, done) ==> AllBy(before, now, src, dst, done + {SNAPSHOTS})
  {
    forall p | WrittenBy(before, src, dst, done + {SNAPSHOTS}, p)
      ensures WrittenBy(before, src, dst, done, p)
    {
      if p != dst {
        assert p[|dst|] == p[|dst|..][0];
      }
    }
  }

  /** With every entry done the directory is done. */
  lemma EntriesAreAll(before: Fs, now: Fs, src: Path, dst: Path, done: set<Name>)
    requires WellFormed(before) && Children(before, src) <= done
    requires OnlyBy(before, now, src, dst, done)
    ensures OnlyWritten(before, now, src, dst)
    ensures AllBy(before, now, src, dst, done) ==> AllLanded(before, now, src, dst)
  {
    forall p | Written(before, src, dst, p)
      ensures WrittenBy(before, src, dst, done, p)
    {
      if p != dst {
        var q := src + p[|dst|..];
        var child := src + [p[|dst|]];
        assert child <= q;
        if child != q {
          AboveIsDir(before, child, q);
        }
        assert child[|src|] in Children(before, src);
      }
    }
  }

  lemma StartsWithItself(before: Fs, now: Fs, src: Path, dst: Path)
    requires src in before && before[src].Dir?
    requires forall p :: p != dst ==> SameAt(before, now, p)
    ensures OnlyBy(before, now, src, dst, {})
    ensures (if Beyond(before, dst) then dst !in now
             else dst in now && now[dst] == if dst in before && !before[dst].Dir? then before[dst] else Dir) ==>
              AllBy(before, now, src, dst, {})
  {
    assert src + dst[|dst|..] == src;
  }

  /** Where nothing stood before, a copy that has succeeded leaves every directory and regular
      file that is not in a snapshot directory, as it was, and nothing else. */
  lemma CopyArrives(before: Fs, after: Fs, src: Path, dst: Path, rel: Path)
    requires WellFormed(before) && IsDir(before, src) && OnlyWritten(before, after, src, dst)
    requires AllLanded(before, after, src, dst) && Receives(before, dst) && dst !in before
    ensures dst + rel in after <==>
              src + rel in before && !before[src + rel].Link? && ".vault_snapshots" !in rel
    ensures dst + rel in after ==> after[dst + rel] == before[src + rel]
  {
    var p := dst + rel;
    assert p[|dst|..] == rel;
    if p in before && p != dst {
      AboveIsDir(before, dst, p);
    }
    if Beyond(before, dst) {
      BeyondIsAbsent(before, dst);
    }
    if Written(before, src, dst, p) {
      NothingIsInTheWay(before, src, dst);
      NothingLeadsOut(before, src, dst, p);
      assert LandsAt(before, after, src, dst, p);
    } else {
      assert SameAt(before, after, p);
    }
  }

  lemma NothingIsInTheWay(fs: Fs, src: Path, dst: Path)
    requires WellFormed(fs) && dst !in fs
    ensures NoConflict(fs, src, dst)
  {
    forall p | Written(fs, src, dst, p)
      ensures p !in fs
    {
      if p in fs {
        AboveIsDir(fs, dst, p);
      }
    }
  }

  // ---- The copy -------------------------------------------------------------------------

  class VaultTree {
    var fs: Fs

    constructor (fs: Fs)
      ensures this.fs == fs
    {
      this.fs := fs;
    }

    /** copy_file_secure of a regular file: a link or a directory in the way is an error, and
        a copy that fails midway leaves a part. Beyond a link nothing in the tree changes. */
    method CopyFile(io: Io, src: Path, dst: Path) returns (ok: bool)
      requires WellFormed(fs) && src in fs && fs[src].File?
      modifies this
      ensures WellFormed(fs) && forall p :: p != dst ==> SameAt(old(fs), fs, p)
      ensures ok ==> if Beyond(old(fs), dst) then fs == old(fs) else dst in fs && fs[dst] == old(fs)[src]
      ensures Receives(old(fs), dst) && (dst in old(fs) ==> old(fs)[dst].File?) && io.copies(dst) ==> ok
    {
      if Beyond(fs, dst) {
        BeyondIsAbsent(fs, dst);
        return io.beyond(dst);
      }
      if dst in fs && !fs[dst].File? {
        return false;
      }
      if !Receives(fs, dst) {
        return false;
      }
      FileKeepsShape(fs, dst, io.partial(dst));
      FileKeepsShape(fs, dst, fs[src].bytes);
      if !io.copies(dst) {
        fs := fs[dst := File(io.partial(dst))];
        return false;
      }
      fs := fs[dst := fs[src]];
      return true;
    }

    /** fs::write. */
    method WriteFile(io: Io, dst: Path, bytes: Bytes) returns (ok: bool)
      requires WellFormed(fs)
      modifies this
      ensures WellFormed(fs) && forall p :: p != dst ==> SameAt(old(fs), fs, p)
      ensures Beyond(old(fs), dst) ==> fs == old(fs)
      ensures ok && !Beyond(old(fs), dst) ==> dst in fs && fs[dst] == File(bytes)
      ensures Receives(old(fs), dst) && (dst in old(fs) ==> old(fs)[dst].File?) && io.copies(dst) ==> ok
    {
      if Beyond(fs, dst) {
        BeyondIsAbsent(fs, dst);
        return io.beyond(dst);
      }
      if (dst in fs && !fs[dst].File?) || !Receives(fs, dst) || !io.copies(dst) {
        return false;
      }
      FileKeepsShape(fs, dst, bytes);
      fs := fs[dst := File(bytes)];
      return true;
    }

    /** create_dir_all, of a directory whose parent should be there, unless something exists
        there: a link counts that leads to something. */
    method MakeDir(io: Io, dst: Path) returns (ok: bool)
      requires WellFormed(fs)
      modifies this
      ensures WellFormed(fs) && forall p :: p != dst ==> SameAt(old(fs), fs, p)
      ensures !ok || Beyond(old(fs), dst) || dst in old(fs) ==> fs == old(fs)
      ensures ok && !Beyond(old(fs), dst) && dst !in old(fs) ==> IsDir(fs, dst)
      ensures dst in old(fs) ==> (ok <==> old(fs)[dst] != Link(Nowhere))
      ensures dst !in old(fs) && Receives(old(fs), dst) && io.makesDir(dst) ==> ok
    {
      if Beyond(fs, dst) {
        BeyondIsAbsent(fs, dst);
        return io.beyond(dst);
      }
      if dst in fs {
        return fs[dst] != Link(Nowhere);
      }
      if !Receives(fs, dst) || !io.makesDir(dst) {
        return false;
      }
      DirKeepsShape(fs, dst);
      fs := fs[dst := Dir];
      return true;
    }

    /** copy_dir_all of a directory. Whatever happens, nothing changes but where the copy puts
        something; on success everything is there, but for what stands in the place of a
        directory, and for what a link leads out of the tree; and without conflicts and I/O
        errors it succeeds. */
    method CopyDirAll(io: Io, src: Path, dst: Path, ghost bound: nat) returns (ok: bool)
      requires WellFormed(fs) && src in fs && fs[src].Dir?
      requires Apart(fs, src, dst) && Bounded(fs, src, bound)
      modifies this
      ensures WellFormed(fs) && OnlyWritten(old(fs), fs, src, dst)
      ensures ok ==> AllLanded(old(fs), fs, src, dst)
      ensures AllWorks(io) && NoConflict(old(fs), src, dst) && (dst in old(fs) || Receives(old(fs), dst)) ==> ok
      decreases bound, 1
    {
      ghost var before := fs;
      if Beyond(before, dst) {
        BeyondIsAbsent(before, dst);
      }
      var made := MakeDir(io, dst);
      StartsWithItself(before, fs, src, dst);
      AtDst(before, src, dst);
      if !made {
        OnlyByIsOnlyWritten(before, fs, src, dst, {});
        return false;
      }
      SameChildren(before, fs, src, dst);
      var names := Children(fs, src);
      ghost var done: set<Name> := {};
      while names != {}
        invariant WellFormed(fs) && OnlyBy(before, fs, src, dst, done)
        invariant Children(before, src) <= done + names && done !! names
        invariant names - {SNAPSHOTS} <= Children(before, src)
        invariant AllBy(before, fs, src, dst, done) && (NoConflict(before, src, dst) && !Beyond(before, dst) ==> IsDir(fs, dst))
        decreases |names|
      {
        var n :| n in names;
        names := names - {n};
        if n == SNAPSHOTS {
          SnapshotsSkipped(before, fs, src, dst, done);
          done := done + {n};
        } else {
          var copied := CopyEntry(io, src, dst, n, before, done, bound);
          done := done + {n};
          if !copied {
            OnlyByIsOnlyWritten(before, fs, src, dst, done);
            return false;
          }
        }
      }
      EntriesAreAll(before, fs, src, dst, done);
      return true;
    }

    /** One turn of the loop of copy_dir_all. */
    method CopyEntry(io: Io, src: Path, dst: Path, n: Name, ghost before: Fs, ghost done: set<Name>, ghost bound: nat)
      returns (ok: bool)
      requires Apart(before, src, dst) && Bounded(before, src, bound)
      requires n != SNAPSHOTS && n !in done && n in Children(before, src)
      requires WellFormed(before) && IsDir(before, src)
      requires WellFormed(fs) && OnlyBy(before, fs, src, dst, done)
      modifies this
      ensures WellFormed(fs) && OnlyBy(before, fs, src, dst, done + {n})
      ensures IsDir(old(fs), dst) ==> IsDir(fs, dst)
      ensures ok && AllBy(before, old(fs), src, dst, done) ==> AllBy(before, fs, src, dst, done + {n})
      ensures AllWorks(io) && NoConflict(before, src, dst) && IsDir(old(fs), dst) ==> ok
      decreases bound, 0
    {
      ghost var now := fs;
      ChildIsThere(before, now, src, dst, done, n, bound);
      ChildApart(before, now, src, dst, done, n);
      ChildBounded(before, now, src, dst, done, n, bound);
      assert Parent(dst + [n]) == dst;
      if NoConflict(before, src, dst) {
        ChildNoConflict(before, now, src, dst, done, n);
      }
      ok := CopyNode(io, src + [n], dst + [n], bound - 1);
      ChildDone(before, now, fs, src, dst, done, n);
      ParentStays(now, fs, src, dst, n);
    }

    /** What the loop does with an entry: directories and regular files are copied, the rest is
        passed over. */
    method CopyNode(io: Io, src: Path, dst: Path, ghost bound: nat) returns (ok: bool)
      requires WellFormed(fs) && src in fs && Apart(fs, src, dst) && Bounded(fs, src, bound)
      modifies this
      ensures WellFormed(fs) && OnlyWritten(old(fs), fs, src, dst)
      ensures ok ==> AllLanded(old(fs), fs, src, dst)
      ensures AllWorks(io) && NoConflict(old(fs), src, dst) && Receives(old(fs), dst) ==> ok
      decreases bound, 2
    {
      ghost var now := fs;
      if fs[src].Dir? {
        ok := CopyDirAll(io, src, dst, bound);
      } else if fs[src].File? {
        ok := CopyFile(io, src, dst);
        FileCopied(now, fs, src, dst);
        AtDst(now, src, dst);
      } else {
        ok := true;
        LinkSkipped(now, src, dst);
      }
    }
  }

  predicate IsDir(fs: Fs, p: Path) { p in fs && fs[p].Dir? }

  /** Making the destination adds no entry to the source. */
  lemma SameChildren(before: Fs, now: Fs, src: Path, dst: Path)
    requires src in before && before[src].Dir? && Apart(before, src, dst) && (dst in now || now == before)
    requires forall p :: p != dst ==> SameAt(before, now, p)
    ensures Children(before, src) <= Children(now, src)
    ensures Children(now, src) - {SNAPSHOTS} <= Children(before, src)
  {
    AtDst(before, src, dst);
    forall n | n in Children(now, src) && n != SNAPSHOTS
      ensures n in Children(before, src)
    {
      var p :| p in now && |p| == |src| + 1 && src <= p && p[|src|] == n;
      assert p[|src|..] == [n];
      assert p != dst;
      assert SameAt(before, now, p);
    }
    forall n | n in Children(before, src)
      ensures n in Children(now, src)
    {
      var p :| p in before && |p| == |src| + 1 && src <= p && p[|src|] == n;
      assert p != dst ==> SameAt(before, now, p);
    }
  }

  lemma ParentStays(now: Fs, next: Fs, src: Path, dst: Path, n: Name)
    requires OnlyWritten(now, next, src + [n], dst + [n])
    ensures IsDir(now, dst) ==> IsDir(next, dst)
    ensures IsDir(now, dst) ==> Receives(now, dst + [n])
  {
    assert Parent(dst + [n]) == dst;
    assert !Written(now, src + [n], dst + [n], dst);
    assert SameAt(now, next, dst);
  }

  lemma OnlyByIsOnlyWritten(before: Fs, now: Fs, src: Path, dst: Path, done: set<Name>)
    requires OnlyBy(before, now, src, dst, done)
    ensures OnlyWritten(before, now, src, dst)
  {
  }

  /** The destination itself is written. */
  lemma AtDst(fs: Fs, src: Path, dst: Path)
    requires src in fs
    ensures src + dst[|dst|..] == src
    ensures !fs[src].Link? ==> Written(fs, src, dst, dst)
  {
  }

  lemma ChildIsThere(before: Fs, now: Fs, src: Path, dst: Path, done: set<Name>, n: Name, bound: nat)
    requires Apart(before, src, dst) && Bounded(before, src, bound) && OnlyBy(before, now, src, dst, done)
    requires n != SNAPSHOTS && n in Children(before, src)
    ensures src + [n] in now && bound >= 1
  {
    var p :| p in before && |p| == |src| + 1 && src <= p && p[|src|] == n;
    assert p == src + [n];
    assert p[|src|..] == [n];
    ReadsAgree(before, now, src, dst, done, p);
  }

  lemma FileKeepsShape(fs: Fs, p: Path, bytes: Bytes)
    requires WellFormed(fs) && p != [] && Parent(p) in fs && fs[Parent(p)].Dir? && (p in fs ==> fs[p].File?)
    ensures WellFormed(fs[p := File(bytes)])
  {
    var next := fs[p := File(bytes)];
    forall q | q in next && q != []
      ensures Receives(next, q)
    {
      assert Receives(fs, q);
    }
  }

  lemma DirKeepsShape(fs: Fs, p: Path)
    requires WellFormed(fs) && p !in fs && Parent(p) in fs && fs[Parent(p)].Dir?
    ensures WellFormed(fs[p := Dir])
  {
    var next := fs[p := Dir];
    forall q | q in next && q != []
      ensures Receives(next, q)
    {
      assert Receives(fs, q);
    }
  }
}
