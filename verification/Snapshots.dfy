/** Snapshots of a vault: create, restore and diff (rust/vault_ops.rs:650-739, 815-871,
    874-971). Tags are taken as sanitized; the text of meta.txt is left open. */
module Snapshots {
  import opened Sequences
  import opened TreeCopy

  const STAGE: Name := ".vault_restore_stage"
  const DATA: Name := "data"
  const META: Name := "meta.txt"

  function Target(tag: Name): Path { [SNAPSHOTS, tag] }

  function Data(tag: Name): Path { [SNAPSHOTS, tag, DATA] }

  /** In the vault itself, neither a snapshot nor staged. */
  predicate Own(p: Path) { p == [] || (p[0] != SNAPSHOTS && p[0] != STAGE) }

  predicate InSnapshots(p: Path) { p != [] && p[0] == SNAPSHOTS }

  predicate InStage(p: Path) { p != [] && p[0] == STAGE }

  ghost function Longest(ps: set<Path>): (n: nat)
    ensures forall p :: p in ps ==> |p| <= n
  {
    if ps == {} then 0
    else
      var p :| p in ps;
      var n := Longest(ps - {p});
      if |p| > n then |p| else n
  }

  ghost function Bound(fs: Fs): (n: nat)
    ensures forall src :: Bounded(fs, src, n)
  {
    Longest(fs.Keys)
  }

  // ---- What a snapshot is and what restoring means --------------------------------------

  /** Under `at` lies exactly what copying `src` takes along. */
  ghost predicate IsCopy(before: Fs, src: Path, now: Fs, at: Path) {
    forall p :: at <= p ==>
      && (p in now <==> Copied(before, src, p[|at|..]))
      && (p in now ==> now[p] == before[src + p[|at|..]])
  }

  /** The vault's own entries are exactly what the snapshot holds. */
  ghost predicate IsRestored(before: Fs, tag: Name, now: Fs) {
    forall p :: p != [] && !InSnapshots(p) ==>
      && (p in now <==> Copied(before, Data(tag), p))
      && (p in now ==> now[p] == before[Data(tag) + p])
  }

  ghost predicate SnapshotsSame(a: Fs, b: Fs) { forall p :: InSnapshots(p) ==> SameAt(a, b, p) }

  /** Whatever is done to the vault between taking a snapshot and restoring it, outside the
      snapshots: the vault is back to the directories and regular files it had, links and
      nested snapshot directories excluded. */
  lemma RoundTrip(taken: Fs, kept: Fs, edited: Fs, restored: Fs, tag: Name, p: Path)
    requires IsCopy(taken, [], kept, Data(tag)) && SnapshotsSame(kept, edited)
    requires IsRestored(edited, tag, restored)
    requires p != [] && !InSnapshots(p)
    ensures p in restored <==> p in taken && !taken[p].Link? && Clean(p)
    ensures p in restored ==> restored[p] == taken[p]
  {
    var q := Data(tag) + p;
    assert q[|Data(tag)|..] == p && [] + p == p;
    assert InSnapshots(q) && SameAt(kept, edited, q);
    assert q in kept <==> Copied(taken, [], p);
  }

  // ---- Creating -------------------------------------------------------------------------

  /** Nothing but the one snapshot (and the directory for all of them) is touched. */
  ghost predicate OnlySnapshot(before: Fs, now: Fs, tag: Name) {
    forall p :: !(Target(tag) <= p) && p != [SNAPSHOTS] ==> SameAt(before, now, p)
  }

  lemma NothingBelow(fs: Fs, at: Path, p: Path)
    requires WellFormed(fs) && at !in fs && at <= p
    ensures p !in fs
  {
    if p in fs && p != at {
      AboveIsDir(fs, at, p);
    }
  }

  /** Copying the vault into one of its snapshots never reads what it writes. */
  lemma SnapshotIsApart(fs: Fs, tag: Name)
    ensures Apart(fs, [], Data(tag))
  {
    forall p | Written(fs, [], Data(tag), p)
      ensures !Clean(p[0..])
    {
      assert p[0] == Data(tag)[0];
      assert p[0..][0] == SNAPSHOTS;
    }
  }

  /** The copy into an empty data directory is the whole snapshot. */
  lemma SnapshotIsCopy(before: Fs, ready: Fs, now: Fs, tag: Name)
    requires WellFormed(before) && Target(tag) !in before
    requires forall p :: p != [SNAPSHOTS] && p != Target(tag) && p != Data(tag) ==> SameAt(before, ready, p)
    requires OnlyWritten(ready, now, [], Data(tag)) && AllWritten(ready, now, [], Data(tag))
    requires Data(tag) in ready && ready[Data(tag)].Dir?
    ensures IsCopy(before, [], now, Data(tag))
  {
    forall p | Data(tag) <= p
      ensures p in now <==> Copied(before, [], p[3..])
      ensures p in now ==> now[p] == before[[] + p[3..]]
    {
      var rel := p[3..];
      assert [] + rel == rel;
      if Clean(rel) {
        assert rel != [SNAPSHOTS] && rel != Target(tag) && rel != Data(tag);
        assert SameAt(before, ready, rel);
      }
      assert Target(tag) <= p;
      NothingBelow(before, Target(tag), p);
      if p != Data(tag) {
        assert SameAt(before, ready, p);
      } else {
        assert rel == [];
      }
      assert Written(ready, [], Data(tag), p) <==> Copied(before, [], rel);
    }
  }

  lemma CopyStaysInTarget(before: Fs, ready: Fs, now: Fs, tag: Name)
    requires OnlySnapshot(before, ready, tag) && OnlyWritten(ready, now, [], Data(tag))
    ensures OnlySnapshot(before, now, tag)
  {
    forall p | !(Target(tag) <= p) && p != [SNAPSHOTS]
      ensures SameAt(before, now, p)
    {
      assert Data(tag)[..2] == Target(tag);
      assert !Written(ready, [], Data(tag), p);
      assert SameAt(before, ready, p) && SameAt(ready, now, p);
    }
  }

  lemma MetaStaysOutside(before: Fs, now: Fs, next: Fs, tag: Name)
    requires OnlySnapshot(before, now, tag) && IsCopy(before, [], now, Data(tag)) && Data(tag) in now
    requires forall p :: p != Target(tag) + [META] ==> SameAt(now, next, p)
    ensures OnlySnapshot(before, next, tag) && IsCopy(before, [], next, Data(tag)) && Data(tag) in next
  {
    var meta := Target(tag) + [META];
    forall p | Data(tag) <= p
      ensures p in next <==> Copied(before, [], p[3..])
      ensures p in next ==> next[p] == before[[] + p[3..]]
    {
      assert p[2] == DATA && meta[2] == META && |META| != |DATA|;
      assert SameAt(now, next, p);
      assert p in now <==> Copied(before, [], p[3..]);
    }
    forall p | !(Target(tag) <= p) && p != [SNAPSHOTS]
      ensures SameAt(before, next, p)
    {
      assert SameAt(before, now, p) && SameAt(now, next, p);
    }
  }

  /** The directory of all snapshots is a link that leads out of the tree: then so does every
      path below it. */
  predicate LinkedAway(fs: Fs) { LeadsOut(fs, [SNAPSHOTS]) }

  lemma BelowLink(fs: Fs, tag: Name)
    requires WellFormed(fs)
    ensures LinkedAway(fs) <==> Beyond(fs, Target(tag))
    ensures LinkedAway(fs) ==> Beyond(fs, Data(tag)) && Beyond(fs, Target(tag) + [META])
  {
    assert Parent(Target(tag)) == [SNAPSHOTS] && Parent([SNAPSHOTS]) == [];
    assert !Beyond(fs, []) && !Beyond(fs, [SNAPSHOTS]);
    assert Parent(Data(tag)) == Target(tag) && Parent(Target(tag) + [META]) == Target(tag);
  }

  /** The tag is new and no link or file has the place of the directory of all snapshots. */
  predicate HasRoom(fs: Fs, tag: Name) {
    && [".vault_snapshots", tag] !in fs
    && ([".vault_snapshots"] in fs ==> fs[[".vault_snapshots"]].Dir?)
  }

  /** The snapshot holds every directory and regular file of the vault, as it was, that is not
      in a snapshot directory, and nothing else. */
  ghost predicate IsTaken(before: Fs, now: Fs, tag: Name) {
    forall p: Path {:trigger Kept(now, tag, p)} ::
      && (Kept(now, tag, p) <==> p in before && !before[p].Link? && ".vault_snapshots" !in p)
      && (Kept(now, tag, p) ==> now[[".vault_snapshots", tag, "data"] + p] == before[p])
  }

  predicate Kept(now: Fs, tag: Name, p: Path) { [".vault_snapshots", tag, "data"] + p in now }

  lemma CopyIsTaken(before: Fs, now: Fs, tag: Name)
    requires IsCopy(before, [], now, Data(tag))
    ensures IsTaken(before, now, tag)
  {
    forall p: Path
      ensures Kept(now, tag, p) <==> p in before && !before[p].Link? && ".vault_snapshots" !in p
      ensures Kept(now, tag, p) ==> now[[".vault_snapshots", tag, "data"] + p] == before[p]
    {
      var q := Data(tag) + p;
      assert q[|Data(tag)|..] == p && [] + p == p;
    }
  }

  /** The directories a snapshot needs are made. */
  method MakeTarget(vault: VaultTree, io: Io, tag: Name) returns (ok: bool)
    requires WellFormed(vault.fs)
    modifies vault
    ensures WellFormed(vault.fs) && OnlySnapshot(old(vault.fs), vault.fs, tag)
    ensures Target(tag) in old(vault.fs) ==> !ok && vault.fs == old(vault.fs)
    ensures LinkedAway(old(vault.fs)) ==> vault.fs == old(vault.fs)
    ensures AllWorks(io) && HasRoom(old(vault.fs), tag) ==> ok
    ensures ok && !LinkedAway(old(vault.fs)) ==>
              && IsDir(vault.fs, Data(tag))
              && forall p :: p != [SNAPSHOTS] && p != Target(tag) && p != Data(tag) ==> SameAt(old(vault.fs), vault.fs, p)
  {
    ghost var before := vault.fs;
    if Target(tag) in vault.fs {
      AboveIsDir(vault.fs, [SNAPSHOTS], Target(tag));
    }
    BelowLink(before, tag);
    ok := vault.MakeDir(io, [SNAPSHOTS]);
    assert Parent([SNAPSHOTS]) == [] && !Beyond(before, [SNAPSHOTS]);
    assert SameAt(before, vault.fs, Target(tag));
    if !ok || Target(tag) in vault.fs {
      return false;
    }
    ghost var one := vault.fs;
    BelowLink(one, tag);
    assert Parent(Target(tag)) == [SNAPSHOTS];
    assert HasRoom(before, tag) ==> IsDir(one, [SNAPSHOTS]) && Receives(one, Target(tag));
    ok := vault.MakeDir(io, Target(tag));
    if !ok {
      return;
    }
    NothingBelow(one, Target(tag), Data(tag));
    assert SameAt(one, vault.fs, Data(tag));
    ghost var two := vault.fs;
    BelowLink(two, tag);
    if !LinkedAway(before) {
      DataNotBeyond(two, tag);
    }
    assert Parent(Data(tag)) == Target(tag);
    assert HasRoom(before, tag) ==> IsDir(two, Target(tag)) && Receives(two, Data(tag));
    ok := vault.MakeDir(io, Data(tag));
    assert Target(tag) <= Data(tag);
    forall p | p != [SNAPSHOTS] && p != Target(tag) && p != Data(tag)
      ensures SameAt(before, vault.fs, p)
    {
      assert SameAt(before, one, p) && SameAt(one, two, p) && SameAt(two, vault.fs, p);
    }
  }

  lemma DataNotBeyond(fs: Fs, tag: Name)
    requires WellFormed(fs) && IsDir(fs, Target(tag))
    ensures !Beyond(fs, Data(tag))
  {
    assert Parent(Data(tag)) == Target(tag);
    if Beyond(fs, Target(tag)) {
      BeyondIsAbsent(fs, Target(tag));
    }
  }

  /** vault_snapshot_create. Where the directory of all snapshots is a link to a directory, what
      it does happens outside the tree. */
  method Create(vault: VaultTree, io: Io, tag: Name, meta: Bytes) returns (ok: bool)
    requires WellFormed(vault.fs)
    modifies vault
    ensures WellFormed(vault.fs) && OnlySnapshot(old(vault.fs), vault.fs, tag)
    ensures Target(tag) in old(vault.fs) ==> !ok && vault.fs == old(vault.fs)
    ensures LinkedAway(old(vault.fs)) ==> forall p :: SameAt(old(vault.fs), vault.fs, p)
    ensures ok && !LinkedAway(old(vault.fs)) ==>
              IsCopy(old(vault.fs), [], vault.fs, Data(tag)) && Data(tag) in vault.fs
    ensures ok && !LinkedAway(old(vault.fs)) ==>
              && IsTaken(old(vault.fs), vault.fs, tag)
              && [".vault_snapshots", tag, "meta.txt"] in vault.fs
              && vault.fs[[".vault_snapshots", tag, "meta.txt"]] == File(meta)
    ensures AllWorks(io) && HasRoom(old(vault.fs), tag) ==> ok
  {
    ghost var before := vault.fs;
    ok := MakeTarget(vault, io, tag);
    if !ok {
      return;
    }
    ghost var ready := vault.fs;
    SnapshotIsApart(ready, tag);
    if !LinkedAway(before) {
      DataIsFree(before, ready, tag);
    }
    ok := vault.CopyDirAll(io, [], Data(tag), Bound(ready));
    CopyStaysInTarget(before, ready, vault.fs, tag);
    ghost var copied := vault.fs;
    if LinkedAway(before) {
      AwayIsUntouched(before, copied, tag);
      BelowLink(copied, tag);
    }
    if !ok {
      return;
    }
    if !LinkedAway(before) {
      if Beyond(ready, Data(tag)) {
        BeyondIsAbsent(ready, Data(tag));
      }
      LandedWithoutConflict(ready, copied, [], Data(tag));
      SnapshotIsCopy(before, ready, copied, tag);
      DataIsWritten(ready, copied, tag);
    }
    if !LinkedAway(before) {
      MetaIsFree(before, ready, copied, tag);
    }
    assert Target(tag) + [META] == [".vault_snapshots", tag, "meta.txt"];
    ok := vault.WriteFile(io, Target(tag) + [META], meta);
    if !LinkedAway(before) {
      MetaStaysOutside(before, copied, vault.fs, tag);
      CopyIsTaken(before, vault.fs, tag);
    }
  }

  lemma AwayIsUntouched(before: Fs, now: Fs, tag: Name)
    requires WellFormed(before) && WellFormed(now) && OnlyWritten(before, now, [], Data(tag)) && LinkedAway(before)
    ensures LinkedAway(now) && forall p :: SameAt(before, now, p)
  {
    assert !Written(before, [], Data(tag), [SNAPSHOTS]);
    assert SameAt(before, now, [SNAPSHOTS]);
    forall p | Written(before, [], Data(tag), p)
      ensures p !in before && p !in now
    {
      assert [SNAPSHOTS] <= Data(tag) <= p && [SNAPSHOTS] != p;
      if p in before {
        AboveIsDir(before, [SNAPSHOTS], p);
      }
      if p in now {
        AboveIsDir(now, [SNAPSHOTS], p);
      }
    }
  }

  lemma MetaIsFree(before: Fs, ready: Fs, copied: Fs, tag: Name)
    requires WellFormed(before) && WellFormed(ready) && WellFormed(copied) && Target(tag) !in before && Data(tag) in copied
    requires forall p :: p != [SNAPSHOTS] && p != Target(tag) && p != Data(tag) ==> SameAt(before, ready, p)
    requires OnlyWritten(ready, copied, [], Data(tag))
    ensures Target(tag) + [META] !in copied && Receives(copied, Target(tag) + [META]) && !Beyond(copied, Target(tag) + [META])
  {
    var meta := Target(tag) + [META];
    assert meta[2] == META && Data(tag)[2] == DATA && |META| != |DATA|;
    assert SameAt(before, ready, meta) && !Written(ready, [], Data(tag), meta);
    assert SameAt(ready, copied, meta);
    NothingBelow(before, Target(tag), meta);
    AboveIsDir(copied, Target(tag), Data(tag));
    assert Parent(meta) == Target(tag);
    if Beyond(copied, meta) {
      BeyondIsAbsent(copied, meta);
    }
  }

  lemma DataIsWritten(ready: Fs, now: Fs, tag: Name)
    requires WellFormed(ready) && AllWritten(ready, now, [], Data(tag))
    ensures Data(tag) in now
  {
    AtDst(ready, [], Data(tag));
  }

  /** Nothing is in the way of the copy. */
  lemma DataIsFree(before: Fs, ready: Fs, tag: Name)
    requires WellFormed(before) && WellFormed(ready) && Target(tag) !in before && IsDir(ready, Data(tag))
    requires forall p :: p != [SNAPSHOTS] && p != Target(tag) && p != Data(tag) ==> SameAt(before, ready, p)
    ensures NoConflict(ready, [], Data(tag))
  {
    forall p | Written(ready, [], Data(tag), p) && p in ready
      ensures !ready[p].Link? && (ready[p].Dir? <==> ready[[] + p[3..]].Dir?)
    {
      assert p != Data(tag) ==> SameAt(before, ready, p);
      assert Target(tag) <= p;
      NothingBelow(before, Target(tag), p);
      assert [] + p[3..] == [];
    }
  }

  // ---- Restoring ------------------------------------------------------------------------

  datatype Outcome = NoSnapshot | StagingFailed | MoveFailed | Restored

  /** remove_dir_all or remove_file: the entry and all below it goes, or stays. */
  function Without(fs: Fs, at: Path): Fs { map p | p in fs && !(at <= p) :: fs[p] }

  lemma WithoutKeepsShape(fs: Fs, at: Path)
    requires WellFormed(fs) && at != []
    ensures WellFormed(Without(fs, at))
  {
    forall p | p in Without(fs, at) && p != []
      ensures Receives(Without(fs, at), p)
    {
      assert Receives(fs, p);
      assert at <= Parent(p) ==> at <= p;
    }
  }

  /** Nothing in the snapshot would be staged on top of the stage. */
  predicate NoStageInside(fs: Fs, tag: Name) { Data(tag) + [STAGE] !in fs }

  lemma StartsWith(p: Path, a: Path)
    ensures a != [] && a <= p ==> p != [] && p[0] == a[0]
  {
  }

  lemma NamesDiffer()
    ensures STAGE != SNAPSHOTS
  {
    assert |STAGE| != |SNAPSHOTS|;
  }

  lemma StageIsApart(fs: Fs, tag: Name)
    ensures Apart(fs, Data(tag), [STAGE])
  {
    NamesDiffer();
    forall p | Written(fs, Data(tag), [STAGE], p)
      ensures !(Data(tag) <= p)
    {
      StartsWith(p, [STAGE]);
      StartsWith(p, Data(tag));
    }
  }

  /** Moving the stage into the vault does not run into the stage. */
  lemma MoveIsApart(fs: Fs)
    requires WellFormed(fs) && [STAGE, STAGE] !in fs
    ensures Apart(fs, [STAGE], [])
  {
    forall p | Written(fs, [STAGE], [], p) && [STAGE] <= p
      ensures false
    {
      var q := [STAGE] + p[0..];
      assert q[0] == STAGE && q[1] == p[0] == STAGE;
      assert q[..2] == [STAGE, STAGE];
      NothingBelow(fs, [STAGE, STAGE], q);
    }
  }

  lemma StageIsFree(ready: Fs, tag: Name)
    requires WellFormed(ready) && [STAGE] !in ready
    ensures NoConflict(ready, Data(tag), [STAGE])
  {
    forall p | [STAGE] <= p
      ensures p !in ready
    {
      NothingBelow(ready, [STAGE], p);
    }
  }

  lemma StageIsCopy(before: Fs, ready: Fs, now: Fs, tag: Name)
    requires WellFormed(ready) && [STAGE] !in ready && IsDir(ready, Data(tag))
    requires forall p :: !InStage(p) ==> SameAt(before, ready, p)
    requires OnlyWritten(ready, now, Data(tag), [STAGE])
    ensures forall p :: !InStage(p) ==> SameAt(before, now, p)
    ensures AllWritten(ready, now, Data(tag), [STAGE]) ==> IsCopy(before, Data(tag), now, [STAGE])
  {
    NamesDiffer();
    forall p | !InStage(p)
      ensures SameAt(before, now, p)
    {
      StartsWith(p, [STAGE]);
      assert !Written(ready, Data(tag), [STAGE], p);
      assert SameAt(before, ready, p) && SameAt(ready, now, p);
    }
    forall p | [STAGE] <= p
      ensures p !in ready
      ensures SameAt(before, ready, Data(tag) + p[1..])
    {
      NothingBelow(ready, [STAGE], p);
      StartsWith(Data(tag) + p[1..], Data(tag));
    }
    if AllWritten(ready, now, Data(tag), [STAGE]) {
      forall p | [STAGE] <= p
        ensures p in now <==> Copied(before, Data(tag), p[1..])
        ensures p in now ==> now[p] == before[Data(tag) + p[1..]]
      {
        assert p !in ready && SameAt(before, ready, Data(tag) + p[1..]);
        assert Written(ready, Data(tag), [STAGE], p) <==> Copied(before, Data(tag), p[1..]);
      }
    }
  }

  /** The checks and the staging copy, lines 818-848. */
  method StageSnapshot(vault: VaultTree, io: Io, removes: Name -> bool, tag: Name) returns (outcome: Outcome)
    requires WellFormed(vault.fs)
    modifies vault
    ensures WellFormed(vault.fs) && forall p :: !InStage(p) ==> SameAt(old(vault.fs), vault.fs, p)
    ensures outcome == NoSnapshot <==> !IsDir(old(vault.fs), Data(tag))
    ensures outcome == NoSnapshot ==> vault.fs == old(vault.fs)
    ensures outcome == Restored ==> IsCopy(old(vault.fs), Data(tag), vault.fs, [STAGE]) && IsDir(vault.fs, [STAGE])
    ensures IsDir(old(vault.fs), Data(tag)) && [STAGE] !in old(vault.fs) && AllWorks(io) ==> outcome == Restored
    ensures outcome != MoveFailed
  {
    ghost var before := vault.fs;
    if Data(tag) !in vault.fs || !vault.fs[Data(tag)].Dir? {
      return NoSnapshot;
    }
    if [STAGE] in vault.fs {
      if vault.fs[[STAGE]].File? || vault.fs[[STAGE]] == Link(Nowhere) || !removes(STAGE) {
        return StagingFailed;
      }
      WithoutKeepsShape(vault.fs, [STAGE]);
      vault.fs := Without(vault.fs, [STAGE]);
    }
    ghost var ready := vault.fs;
    NamesDiffer();
    StartsWith(Data(tag), [STAGE]);
    assert SameAt(before, ready, Data(tag));
    StageIsApart(ready, tag);
    assert Parent([STAGE]) == [];
    var ok := vault.CopyDirAll(io, Data(tag), [STAGE], Bound(ready));
    StageIsFree(ready, tag);
    assert !Beyond(ready, [STAGE]) by {
      assert Parent([STAGE]) == [];
    }
    if ok {
      LandedWithoutConflict(ready, vault.fs, Data(tag), [STAGE]);
    }
    StageIsCopy(before, ready, vault.fs, tag);
    if !ok {
      return StagingFailed;
    }
    AtDst(ready, Data(tag), [STAGE]);
    return Restored;
  }

  /** The vault's own entries below `gone` are removed. */
  ghost predicate Cleared(before: Fs, now: Fs, gone: set<Name>) {
    forall p :: if p != [] && p[0] in gone then p !in now else SameAt(before, now, p)
  }

  /** The names at the vault's root that can be removed, snapshots and stage excepted. */
  ghost predicate Goes(fs: Fs, removes: Name -> bool, gone: set<Name>) {
    forall n :: n in gone <==> n in Children(fs, []) && n != SNAPSHOTS && n != STAGE && removes(n)
  }

  /** The loop over the vault's entries, lines 851-863: an entry that cannot be removed stays. */
  method ClearVault(vault: VaultTree, removes: Name -> bool) returns (gone: set<Name>)
    requires WellFormed(vault.fs)
    modifies vault
    ensures WellFormed(vault.fs) && Cleared(old(vault.fs), vault.fs, gone)
    ensures Goes(old(vault.fs), removes, gone)
  {
    ghost var all := Children(vault.fs, []);
    var names := Children(vault.fs, []);
    gone := {};
    while names != {}
      invariant names <= all && WellFormed(vault.fs) && Cleared(old(vault.fs), vault.fs, gone)
      invariant forall n :: n in gone <==> n in all && n !in names && n != SNAPSHOTS && n != STAGE && removes(n)
      decreases |names|
    {
      var n :| n in names;
      names := names - {n};
      if n != SNAPSHOTS && n != STAGE && removes(n) {
        ghost var was := vault.fs;
        WithoutKeepsShape(vault.fs, [n]);
        vault.fs := Without(vault.fs, [n]);
        ClearedGrows(old(vault.fs), was, gone, n);
        gone := gone + {n};
      }
    }
  }

  lemma ClearedGrows(before: Fs, was: Fs, gone: set<Name>, n: Name)
    requires Cleared(before, was, gone)
    ensures Cleared(before, Without(was, [n]), gone + {n})
  {
    forall p
      ensures if p != [] && p[0] in gone + {n} then p !in Without(was, [n]) else SameAt(before, Without(was, [n]), p)
    {
      StartsWith(p, [n]);
      assert p != [] && p[0] == n ==> [n] <= p;
    }
  }

  /** An own entry that is still there when the stage is moved in. */
  predicate Stuck(before: Fs, removes: Name -> bool, p: Path) {
    p != [] && Own(p) && p in before && !removes(p[0])
  }

  /** On the way to the place a stuck link leads out of the tree. */
  predicate StuckBeyond(before: Fs, removes: Name -> bool, p: Path)
    decreases |p|
  {
    && p != []
    && ((Stuck(before, removes, Parent(p)) && before[Parent(p)] == Link(ToDir)) || StuckBeyond(before, removes, Parent(p)))
  }

  /** An own place of the vault after the move: what was staged, over what was stuck; but what
      is stuck in the place of a directory stays, and what a stuck link leads out of the tree is
      not there. */
  predicate RestoredOver(before: Fs, tag: Name, removes: Name -> bool, now: Fs, p: Path) {
    if !Copied(before, Data(tag), p) then
      if Stuck(before, removes, p) then p in now && now[p] == before[p] else p !in now
    else if StuckBeyond(before, removes, p) then p !in now
    else
      var node := before[Data(tag) + p];
      p in now && now[p] == if Stuck(before, removes, p) && !before[p].Dir? && node.Dir? then before[p] else node
  }

  /** A stuck entry does no harm: it is in the snapshot too, and if that has a directory there
      it is one. */
  predicate Harmless(before: Fs, tag: Name, p: Path)
    requires p in before
  {
    Copied(before, Data(tag), p) && (before[Data(tag) + p].Dir? ==> before[p].Dir?)
  }

  /** The vault has been cleared with the stage filled. */
  ghost predicate IsReady(before: Fs, staged: Fs, ready: Fs, tag: Name, removes: Name -> bool) {
    && WellFormed(before) && WellFormed(staged) && WellFormed(ready) && NoStageInside(before, tag)
    && IsCopy(before, Data(tag), staged, [STAGE]) && IsDir(staged, [STAGE])
    && (forall p :: !InStage(p) ==> SameAt(before, staged, p))
    && exists gone :: Goes(staged, removes, gone) && Cleared(staged, ready, gone)
  }

  lemma StageStays(before: Fs, staged: Fs, ready: Fs, tag: Name, removes: Name -> bool, p: Path)
    requires IsReady(before, staged, ready, tag, removes)
    ensures IsDir(ready, [STAGE]) && [STAGE, STAGE] !in ready && IsDir(ready, [])
    ensures SnapshotsSame(before, ready)
    ensures SameAt(staged, ready, [STAGE] + p)
  {
    NamesDiffer();
    assert ([STAGE] + p)[0] == STAGE;
    assert SameAt(staged, ready, [STAGE]) && SameAt(staged, ready, []) && SameAt(staged, ready, [STAGE, STAGE]);
    assert [STAGE] <= [STAGE, STAGE] && [STAGE, STAGE][1..] == [STAGE];
    forall p | InSnapshots(p)
      ensures SameAt(before, ready, p)
    {
      assert SameAt(before, staged, p) && SameAt(staged, ready, p);
    }
  }

  /** What is left of the vault's own entries is what is stuck. */
  lemma OnlyStuckIsLeft(before: Fs, staged: Fs, ready: Fs, tag: Name, removes: Name -> bool, p: Path)
    requires IsReady(before, staged, ready, tag, removes) && p != [] && Own(p)
    ensures p in ready <==> Stuck(before, removes, p)
    ensures p in ready ==> ready[p] == before[p]
  {
    assert SameAt(before, staged, p);
    var gone :| Goes(staged, removes, gone) && Cleared(staged, ready, gone);
    if p in staged {
      var top := p[..1];
      if top != p {
        AboveIsDir(staged, top, p);
      }
      assert top[0] in Children(staged, []);
    }
    assert p[0] in gone || SameAt(staged, ready, p);
  }

  /** The move writes what the snapshot holds. */
  lemma MoveWrites(before: Fs, staged: Fs, ready: Fs, tag: Name, removes: Name -> bool, p: Path)
    requires IsReady(before, staged, ready, tag, removes)
    ensures Written(ready, [STAGE], [], p) <==> Copied(before, Data(tag), p)
    ensures Written(ready, [STAGE], [], p) ==> ready[[STAGE] + p[0..]] == before[Data(tag) + p]
  {
    var q := [STAGE] + p;
    StageStays(before, staged, ready, tag, removes, p);
    assert p[0..] == p && q[1..] == p && [STAGE] <= q;
    assert q in staged <==> Copied(before, Data(tag), p);
  }

  lemma MoveIsFree(before: Fs, staged: Fs, ready: Fs, tag: Name, removes: Name -> bool)
    requires IsReady(before, staged, ready, tag, removes) && forall n :: removes(n)
    ensures NoConflict(ready, [STAGE], [])
  {
    forall p | Written(ready, [STAGE], [], p) && p in ready
      ensures !ready[p].Link? && (ready[p].Dir? <==> ready[[STAGE] + p[0..]].Dir?)
    {
      CleanStart(p);
      StageStays(before, staged, ready, tag, removes, p);
      assert [STAGE] + p[0..] == [STAGE] + p;
      if p != [] {
        if Own(p) {
          OnlyStuckIsLeft(before, staged, ready, tag, removes, p);
        } else {
          assert ([STAGE] + p)[..2] == [STAGE, STAGE];
          NothingBelow(ready, [STAGE, STAGE], [STAGE] + p);
        }
      } else {
        assert [STAGE] + p == [STAGE];
      }
    }
  }

  lemma {:induction false} BeyondIsStuck(before: Fs, staged: Fs, ready: Fs, tag: Name, removes: Name -> bool, p: Path)
    requires IsReady(before, staged, ready, tag, removes) && (p == [] || Own(p))
    ensures Beyond(ready, p) <==> StuckBeyond(before, removes, p)
    decreases |p|
  {
    if p != [] {
      var up := Parent(p);
      BeyondIsStuck(before, staged, ready, tag, removes, up);
      StageStays(before, staged, ready, tag, removes, []);
      if up != [] {
        OnlyStuckIsLeft(before, staged, ready, tag, removes, up);
      }
    }
  }

  lemma MovedOver(before: Fs, staged: Fs, ready: Fs, now: Fs, tag: Name, removes: Name -> bool, p: Path)
    requires IsReady(before, staged, ready, tag, removes) && p != [] && Own(p)
    requires OnlyWritten(ready, now, [STAGE], []) && AllLanded(ready, now, [STAGE], [])
    ensures RestoredOver(before, tag, removes, now, p)
  {
    MoveWrites(before, staged, ready, tag, removes, p);
    OnlyStuckIsLeft(before, staged, ready, tag, removes, p);
    BeyondIsStuck(before, staged, ready, tag, removes, p);
    if !Copied(before, Data(tag), p) {
      assert SameAt(ready, now, p);
    } else {
      assert LandsAt(ready, now, [STAGE], [], p);
      assert p[0..] == p;
    }
  }

  /** The stage goes if it can be removed. */
  lemma StageGoes(ready: Fs, now: Fs, p: Path)
    requires OnlyWritten(ready, now, [STAGE], []) && IsDir(ready, [STAGE]) && [STAGE, STAGE] !in ready
    ensures [STAGE] in now
    ensures p in Without(now, [STAGE]) <==> p in now && !InStage(p)
  {
    assert [STAGE] + [STAGE][0..] == [STAGE, STAGE];
    assert SameAt(ready, now, [STAGE]);
    StartsWith(p, [STAGE]);
  }

  /** Without harm no stuck link is on the way to anything that is restored. */
  lemma {:induction false} NoHarmOnTheWay(before: Fs, tag: Name, removes: Name -> bool, p: Path)
    requires WellFormed(before) && Copied(before, Data(tag), p)
    requires forall q :: Stuck(before, removes, q) ==> Harmless(before, tag, q)
    ensures !StuckBeyond(before, removes, p)
    decreases |p|
  {
    if p != [] {
      var up := Parent(p);
      assert Parent(Data(tag) + p) == Data(tag) + up;
      assert Receives(before, Data(tag) + p);
      NoHarmOnTheWay(before, tag, removes, up);
    }
  }

  /** What is known of the vault after a restore decides whether it is the snapshot's state. */
  lemma RestoredIff(before: Fs, tag: Name, removes: Name -> bool, now: Fs)
    requires WellFormed(before) && NoStageInside(before, tag)
    requires forall p :: p != [] && Own(p) ==> RestoredOver(before, tag, removes, now, p)
    requires if removes(STAGE) then forall p :: InStage(p) ==> p !in now else [STAGE] in now
    ensures IsRestored(before, tag, now) <==>
            removes(STAGE) && forall p :: Stuck(before, removes, p) ==> Harmless(before, tag, p)
  {
    forall p | InStage(p)
      ensures !Copied(before, Data(tag), p)
    {
      assert (Data(tag) + p)[..4] == Data(tag) + [STAGE];
      NothingBelow(before, Data(tag) + [STAGE], Data(tag) + p);
    }
    NamesDiffer();
    assert InStage([STAGE]) && !InSnapshots([STAGE]);
    if IsRestored(before, tag, now) {
      forall p | Stuck(before, removes, p)
        ensures Harmless(before, tag, p)
      {
        assert RestoredOver(before, tag, removes, now, p);
      }
    }
    if removes(STAGE) && forall p :: Stuck(before, removes, p) ==> Harmless(before, tag, p) {
      forall p | p != [] && !InSnapshots(p)
        ensures p in now <==> Copied(before, Data(tag), p)
        ensures p in now ==> now[p] == before[Data(tag) + p]
      {
        if Own(p) {
          assert RestoredOver(before, tag, removes, now, p);
          if Copied(before, Data(tag), p) {
            NoHarmOnTheWay(before, tag, removes, p);
          }
        }
      }
    }
  }

  lemma CleanStart(p: Path)
    ensures Clean(p[0..]) && p != [] ==> p[0] != SNAPSHOTS
  {
    assert p[0..] == p;
  }

  lemma SnapshotsKept(before: Fs, ready: Fs, now: Fs)
    requires SnapshotsSame(before, ready)
    requires OnlyWritten(ready, now, [STAGE], [])
    ensures SnapshotsSame(before, now) && SnapshotsSame(before, Without(now, [STAGE]))
  {
    NamesDiffer();
    forall p | InSnapshots(p)
      ensures SameAt(before, now, p) && SameAt(before, Without(now, [STAGE]), p)
    {
      CleanStart(p);
      StartsWith(p, [STAGE]);
      assert !Written(ready, [STAGE], [], p);
      assert SameAt(before, ready, p) && SameAt(ready, now, p);
    }
  }

  /** Outside the snapshots the vault holds every directory and regular file of the snapshot, as
      it is there, and nothing else. */
  ghost predicate IsPutBack(before: Fs, now: Fs, tag: Name) {
    forall p: Path {:trigger Kept(before, tag, p)} :: p != [] && p[0] != ".vault_snapshots" ==>
      && (p in now <==>
            && Kept(before, tag, p) && !before[[".vault_snapshots", tag, "data"] + p].Link?
            && ".vault_snapshots" !in p)
      && (p in now ==> now[p] == before[[".vault_snapshots", tag, "data"] + p])
  }

  lemma RestoredIsPutBack(before: Fs, now: Fs, tag: Name)
    requires IsRestored(before, tag, now)
    ensures IsPutBack(before, now, tag)
  {
    assert [".vault_snapshots", tag, "data"] == Data(tag);
  }

  /** vault_snapshot_restore, of a snapshot that holds no entry with the stage's name. No
      snapshot ever changes; nothing of the vault's own changes unless the whole snapshot was
      staged first. Failing removals are ignored: success means the snapshot is restored exactly
      if the stage could be removed and every own entry that could not is harmless. */
  method Restore(vault: VaultTree, io: Io, removes: Name -> bool, tag: Name) returns (outcome: Outcome)
    requires WellFormed(vault.fs) && NoStageInside(vault.fs, tag)
    modifies vault
    ensures WellFormed(vault.fs) && SnapshotsSame(old(vault.fs), vault.fs)
    ensures outcome == NoSnapshot <==> !IsDir(old(vault.fs), Data(tag))
    ensures outcome == NoSnapshot || outcome == StagingFailed ==>
              forall p :: !InStage(p) ==> SameAt(old(vault.fs), vault.fs, p)
    ensures outcome == Restored ==>
              forall p :: p != [] && Own(p) ==> RestoredOver(old(vault.fs), tag, removes, vault.fs, p)
    ensures outcome == Restored ==>
              (IsRestored(old(vault.fs), tag, vault.fs) <==>
               removes(STAGE) && forall p :: Stuck(old(vault.fs), removes, p) ==> Harmless(old(vault.fs), tag, p))
    ensures outcome == Restored && (forall n :: removes(n)) ==> IsPutBack(old(vault.fs), vault.fs, tag)
    ensures IsDir(old(vault.fs), Data(tag)) && [STAGE] !in old(vault.fs) && AllWorks(io) && (forall n :: removes(n)) ==>
              outcome == Restored
  {
    ghost var before := vault.fs;
    NamesDiffer();
    outcome := StageSnapshot(vault, io, removes, tag);
    if outcome != Restored {
      return;
    }
    ghost var staged := vault.fs;
    var gone := ClearVault(vault, removes);
    ghost var ready := vault.fs;
    assert IsReady(before, staged, ready, tag, removes);
    StageStays(before, staged, ready, tag, removes, []);
    MoveIsApart(ready);
    if forall n :: removes(n) {
      MoveIsFree(before, staged, ready, tag, removes);
    }
    var ok := vault.CopyDirAll(io, [STAGE], [], Bound(ready));
    SnapshotsKept(before, ready, vault.fs);
    if !ok {
      return MoveFailed;
    }
    ghost var moved := vault.fs;
    if removes(STAGE) {
      WithoutKeepsShape(vault.fs, [STAGE]);
      vault.fs := Without(vault.fs, [STAGE]);
    }
    Settles(before, staged, ready, moved, tag, removes);
    if IsRestored(before, tag, vault.fs) {
      RestoredIsPutBack(before, vault.fs, tag);
    }
  }

  lemma Settles(before: Fs, staged: Fs, ready: Fs, moved: Fs, tag: Name, removes: Name -> bool)
    requires IsReady(before, staged, ready, tag, removes)
    requires OnlyWritten(ready, moved, [STAGE], []) && AllLanded(ready, moved, [STAGE], [])
    ensures var now := if removes(STAGE) then Without(moved, [STAGE]) else moved;
            && (forall p :: p != [] && Own(p) ==> RestoredOver(before, tag, removes, now, p))
            && (IsRestored(before, tag, now) <==>
                removes(STAGE) && forall p :: Stuck(before, removes, p) ==> Harmless(before, tag, p))
  {
    var now := if removes(STAGE) then Without(moved, [STAGE]) else moved;
    StageStays(before, staged, ready, tag, removes, []);
    forall p
      ensures p != [] && Own(p) ==> RestoredOver(before, tag, removes, now, p)
      ensures [STAGE] in moved && (p in Without(moved, [STAGE]) <==> p in moved && !InStage(p))
    {
      StageGoes(ready, moved, p);
      if p != [] && Own(p) {
        MovedOver(before, staged, ready, moved, tag, removes, p);
      }
    }
    RestoredIff(before, tag, removes, now);
  }

  // ---- Diff -----------------------------------------------------------------------------

  /** The regular files below `root`, snapshot directories skipped. */
  function FilesBelow(fs: Fs, root: Path): set<Path> {
    set p | p in fs && root <= p && fs[p].File? && Clean(p[|root|..]) :: p[|root|..]
  }

  lemma InFilesBelow(fs: Fs, root: Path, rel: Path)
    ensures rel in FilesBelow(fs, root) <==> root + rel in fs && fs[root + rel].File? && Clean(rel)
  {
    assert (root + rel)[|root|..] == rel;
    assert forall p :: root <= p && p[|root|..] == rel ==> p == root + rel;
  }

  /** map_files: their sizes. */
  function MapFiles(fs: Fs, root: Path): map<Path, nat> {
    map rel | rel in FilesBelow(fs, root) :: InFilesBelow(fs, root, rel); |fs[root + rel].bytes|
  }

  lemma SizesAreKept(fs: Fs, root: Path, rel: Path)
    ensures rel in MapFiles(fs, root) <==>
              root + rel in fs && fs[root + rel].File? && ".vault_snapshots" !in rel
    ensures rel in MapFiles(fs, root) ==> MapFiles(fs, root)[rel] == |fs[root + rel].bytes|
  {
    InFilesBelow(fs, root, rel);
  }

  datatype Summary = Summary(added: nat, removed: nat, modified: nat, same: nat)

  /** The keys of an ordered map in their order. */
  ghost predicate IsKeys(keys: seq<Path>, m: map<Path, nat>) {
    Distinct(keys) && forall p :: p in keys <==> p in m
  }

  function Lacks(a: map<Path, nat>): Path -> bool { p => p !in a }

  function Differs(a: map<Path, nat>, b: map<Path, nat>): Path -> bool { p => p in a && p in b && a[p] != b[p] }

  lemma SizeOfKeys(keys: seq<Path>, m: map<Path, nat>, f: Path -> bool, found: set<Path>)
    requires IsKeys(keys, m) && forall p :: p in found <==> p in m && f(p)
    ensures CountIf(keys, f) == |found|
  {
    CountIsSize(keys, f, found);
  }

  /** The counting of vault_snapshot_diff, lines 933-962. Nothing is reported exactly if the two
      sides hold the same files with the same sizes. */
  method Diff(a: map<Path, nat>, aKeys: seq<Path>, b: map<Path, nat>, bKeys: seq<Path>) returns (r: Summary)
    requires IsKeys(aKeys, a) && IsKeys(bKeys, b)
    ensures r.added == CountIf(bKeys, Lacks(a)) && r.modified == CountIf(bKeys, Differs(a, b))
    ensures r.removed == CountIf(aKeys, Lacks(b)) && r.added + r.modified + r.same == |bKeys|
    ensures r.added == |set p | p in b && p !in a| && r.removed == |set p | p in a && p !in b|
    ensures r.modified == |set p | p in a && p in b && a[p] != b[p]|
    ensures r.same == |set p | p in a && p in b && a[p] == b[p]|
    ensures r.added == 0 && r.removed == 0 && r.modified == 0 <==> a == b
  {
    var added, modified, same, removed := 0, 0, 0, 0;
    for i := 0 to |bKeys|
      invariant added == CountIf(bKeys[..i], Lacks(a)) && modified == CountIf(bKeys[..i], Differs(a, b))
      invariant added + modified + same == i
    {
      var k := bKeys[i];
      CountStep(bKeys, i, Lacks(a));
      CountStep(bKeys, i, Differs(a, b));
      if k !in a {
        added := added + 1;
      } else if a[k] != b[k] {
        modified := modified + 1;
      } else {
        same := same + 1;
      }
    }
    for i := 0 to |aKeys|
      invariant removed == CountIf(aKeys[..i], Lacks(b))
    {
      CountStep(aKeys, i, Lacks(b));
      if aKeys[i] !in b {
        removed := removed + 1;
      }
    }
    assert aKeys[..|aKeys|] == aKeys && bKeys[..|bKeys|] == bKeys;
    NoDifferenceIffSame(a, aKeys, b, bKeys);
    SizesOfParts(a, aKeys, b, bKeys);
    r := Summary(added, removed, modified, same);
  }

  lemma SizesOfParts(a: map<Path, nat>, aKeys: seq<Path>, b: map<Path, nat>, bKeys: seq<Path>)
    requires IsKeys(aKeys, a) && IsKeys(bKeys, b)
    ensures CountIf(bKeys, Lacks(a)) == |set p | p in b && p !in a| && CountIf(aKeys, Lacks(b)) == |set p | p in a && p !in b|
    ensures CountIf(bKeys, Differs(a, b)) == |set p | p in a && p in b && a[p] != b[p]|
    ensures |bKeys| - CountIf(bKeys, Lacks(a)) - CountIf(bKeys, Differs(a, b)) == |set p | p in a && p in b && a[p] == b[p]|
  {
    SizeOfKeys(bKeys, b, Lacks(a), set p | p in b && p !in a);
    SizeOfKeys(aKeys, a, Lacks(b), set p | p in a && p !in b);
    SizeOfKeys(bKeys, b, Differs(a, b), set p | p in a && p in b && a[p] != b[p]);
    SizeOfKeys(bKeys, b, Agrees(a, b), set p | p in a && p in b && a[p] == b[p]);
    CountsAddUp(a, b, bKeys);
  }

  function Agrees(a: map<Path, nat>, b: map<Path, nat>): Path -> bool { p => p in a && p in b && a[p] == b[p] }

  lemma {:induction false} CountsAddUp(a: map<Path, nat>, b: map<Path, nat>, keys: seq<Path>)
    requires forall p :: p in keys ==> p in b
    ensures CountIf(keys, Lacks(a)) + CountIf(keys, Differs(a, b)) + CountIf(keys, Agrees(a, b)) == |keys|
  {
    if keys != [] {
      CountsAddUp(a, b, keys[..|keys| - 1]);
      assert keys[|keys| - 1] in keys;
    }
  }

  lemma NoDifferenceIffSame(a: map<Path, nat>, aKeys: seq<Path>, b: map<Path, nat>, bKeys: seq<Path>)
    requires IsKeys(aKeys, a) && IsKeys(bKeys, b)
    ensures CountIf(bKeys, Lacks(a)) == 0 && CountIf(aKeys, Lacks(b)) == 0 && CountIf(bKeys, Differs(a, b)) == 0 <==> a == b
  {
    CountZero(bKeys, Lacks(a));
    CountZero(aKeys, Lacks(b));
    CountZero(bKeys, Differs(a, b));
    if (forall p :: p in bKeys ==> !Lacks(a)(p)) && (forall p :: p in aKeys ==> !Lacks(b)(p)) {
      assert forall p :: p in a <==> p in b;
    }
  }

  /** Right after a restore the diff of the snapshot against the vault is empty. */
  lemma RestoredHasNoDifference(before: Fs, now: Fs, tag: Name)
    requires IsRestored(before, tag, now) && SnapshotsSame(before, now) && [] in now && now[[]].Dir?
    requires IsDir(before, Data(tag))
    ensures MapFiles(now, Data(tag)) == MapFiles(now, [])
  {
    forall rel: Path
      ensures rel in FilesBelow(now, Data(tag)) <==> rel in FilesBelow(now, [])
      ensures rel in FilesBelow(now, []) ==> Data(tag) + rel in now && [] + rel in now && now[Data(tag) + rel] == now[[] + rel]
    {
      RestoredFile(before, now, tag, rel);
    }
  }

  lemma RestoredFile(before: Fs, now: Fs, tag: Name, rel: Path)
    requires IsRestored(before, tag, now) && SnapshotsSame(before, now) && [] in now && now[[]].Dir?
    requires IsDir(before, Data(tag))
    ensures rel in FilesBelow(now, Data(tag)) <==> rel in FilesBelow(now, [])
    ensures rel in FilesBelow(now, []) ==>
              Data(tag) + rel in now && [] + rel in now && now[Data(tag) + rel] == now[[] + rel]
  {
    var p := Data(tag) + rel;
    assert InSnapshots(p) && SameAt(before, now, p);
    assert [] + rel == rel;
    InFilesBelow(now, Data(tag), rel);
    InFilesBelow(now, [], rel);
    if rel == [] {
      assert p == Data(tag);
    } else if InSnapshots(rel) {
      assert !Clean(rel);
    } else {
      assert rel in now <==> Copied(before, Data(tag), rel);
    }
  }
}
