/** A vault's directory under a change of password: rekey_vault_files
    (c_src/vault/vault_crypto.c:734-790) and vault_change_password
    (c_src/vault/vault_catalog.c:696-754). */
module VaultRekey {
  import opened Options
  import opened FileCrypto
  import opened Sequences

  type Name = string

  /** A directory entry: a regular file, a symbolic link to a regular file outside the
      directory, or anything else. */
  datatype Node = File(bytes: Bytes) | LinkTo(bytes: Bytes) | Other

  type Files = map<Name, Node>

  datatype Err = OK | ERR_CRYPTO | ERR_IO | ERR_AUTH

  /** How I/O goes: opening the directory, and on each file by what is done with it. A
      decryption or encryption that reports success comes with what reached the disk. */
  datatype Works = Works(opens: bool, stats: Name -> bool, decrypt: Name -> Option<nat>,
                         encrypt: Name -> Option<Passed>, rename: Name -> bool)

  /** One rekeying: the cipher, the process, how I/O goes, the keys and the fresh ivs. */
  datatype Job = Job(g: Gcm, pid: string, works: Works, oldKey: Key, newKey: Key, ivs: Name -> Iv)

  predicate EndsWith(n: Name, suffix: string) {
    |suffix| <= |n| && n[|n| - |suffix|..] == suffix
  }

  predicate IsEnc(n: Name) { |n| > 4 && EndsWith(n, ".enc") }

  lemma EncNames(n: Name)
    ensures IsEnc(n) <==> exists b: Name :: b != "" && n == b + ".enc"
  {
    if IsEnc(n) {
      assert n == n[..|n| - 4] + ".enc";
    }
  }

  predicate IsPid(pid: string) { pid != "" && forall i :: 0 <= i < |pid| ==> '0' <= pid[i] <= '9' }

  /** The temporary names of this process. */
  predicate IsTemp(n: Name, pid: string) {
    EndsWith(n, ".rekey_tmp_" + pid) || EndsWith(n, ".rekey_new_" + pid) || EndsWith(n, ".tmp." + pid)
  }

  function TmpName(n: Name, pid: string): (t: Name)
    ensures IsTemp(t, pid)
  {
    AppendEnds(n, ".rekey_tmp_" + pid);
    n + (".rekey_tmp_" + pid)
  }

  function NewName(n: Name, pid: string): (t: Name)
    ensures IsTemp(t, pid)
  {
    AppendEnds(n, ".rekey_new_" + pid);
    n + (".rekey_new_" + pid)
  }

  function OutTmpName(n: Name, pid: string): (t: Name)
    ensures IsTemp(t, pid)
  {
    AppendEnds(n, ".tmp." + pid);
    n + (".tmp." + pid)
  }

  lemma AppendEnds(n: Name, suffix: string)
    ensures EndsWith(n + suffix, suffix)
  {
  }

  /** A temporary name ends in a digit, so it is never taken for an encrypted file. */
  lemma TempsAreNotEnc(n: Name, pid: string)
    requires IsPid(pid) && IsTemp(n, pid)
    ensures !IsEnc(n)
  {
    assert n[|n| - 1] == pid[|pid| - 1] by {
      if EndsWith(n, ".rekey_tmp_" + pid) {
        LastOf(n, ".rekey_tmp_" + pid);
      } else if EndsWith(n, ".rekey_new_" + pid) {
        LastOf(n, ".rekey_new_" + pid);
      } else {
        LastOf(n, ".tmp." + pid);
      }
    }
    if IsEnc(n) {
      LastOf(n, ".enc");
    }
  }

  lemma LastOf(n: Name, suffix: string)
    requires suffix != "" && EndsWith(n, suffix)
    ensures n != "" && n[|n| - 1] == suffix[|suffix| - 1]
  {
    assert n[|n| - |suffix|..][|suffix| - 1] == suffix[|suffix| - 1];
  }

  // ---- What rekeying does to the files --------------------------------------------------

  predicate SameAt(a: Files, b: Files, n: Name) {
    (n in a <==> n in b) && (n in a ==> a[n] == b[n])
  }

  /** Nothing but temporary names differs. */
  ghost predicate SameButTemps(a: Files, b: Files, pid: string) {
    forall n :: !IsTemp(n, pid) ==> SameAt(a, b, n)
  }

  /** A file that rekeying takes up. */
  predicate IsSealed(files: Files, n: Name) { IsEnc(n) && n in files && files[n].File? }

  /** Decryption and encryption of the file report success. */
  predicate Reseals(j: Job, n: Name, file: Bytes) {
    Open(j.g, j.oldKey, file).Some? && j.works.decrypt(n).Some? && j.works.encrypt(n).Some?
  }

  /** What is then under the temporary name. */
  function Resealed(j: Job, n: Name, file: Bytes): Bytes
    requires Reseals(j, n, file)
  {
    Stored(j.g, j.newKey, j.ivs(n), Front(Open(j.g, j.oldKey, file).value, j.works.decrypt(n).value),
           j.works.encrypt(n).value)
  }

  /** Both outputs of the file's rekeying arrive whole. */
  predicate Arrives(j: Job, n: Name, file: Bytes)
    requires Reseals(j, n, file)
  {
    var plain := Open(j.g, j.oldKey, file).value;
    |plain| <= j.works.decrypt(n).value && IsWhole(plain, j.works.encrypt(n).value)
  }

  lemma WholeOpens(j: Job, n: Name, file: Bytes)
    requires Reseals(j, n, file) && Arrives(j, n, file)
    ensures Open(j.g, j.newKey, Resealed(j, n, file)) == Open(j.g, j.oldKey, file)
  {
    var plain := Open(j.g, j.oldKey, file).value;
    ShortDoesNotOpen(j.g, j.newKey, j.ivs(n), plain, j.works.encrypt(n).value, j.newKey);
    OpenLength(j.g, j.oldKey, file);
    OpenSeal(j.g, j.newKey, j.ivs(n), plain);
  }

  lemma ShortOpensNowhere(j: Job, n: Name, file: Bytes, key: Key)
    requires Reseals(j, n, file) && !Arrives(j, n, file)
    ensures Open(j.g, key, Resealed(j, n, file)) != Open(j.g, j.oldKey, file)
  {
    var part := Front(Open(j.g, j.oldKey, file).value, j.works.decrypt(n).value);
    OpenLength(j.g, j.oldKey, file);
    ShortDoesNotOpen(j.g, j.newKey, j.ivs(n), part, j.works.encrypt(n).value, key);
    SealParts(j.g, j.newKey, j.ivs(n), part);
    OpenLength(j.g, key, Resealed(j, n, file));
  }

  /** The resealed file opens to what it held exactly if everything arrived; and if not, it
      does so under no key at all. */
  lemma ResealedOpens(j: Job, n: Name, file: Bytes, key: Key)
    requires Reseals(j, n, file)
    ensures Arrives(j, n, file) ==> Open(j.g, j.newKey, Resealed(j, n, file)) == Open(j.g, j.oldKey, file)
    ensures !Arrives(j, n, file) ==> Open(j.g, key, Resealed(j, n, file)) != Open(j.g, j.oldKey, file)
  {
    if Arrives(j, n, file) {
      WholeOpens(j, n, file);
    } else {
      ShortOpensNowhere(j, n, file, key);
    }
  }

  /** The resealed file is in the place of the old one. */
  predicate Replaced(j: Job, before: Files, after: Files, n: Name) {
    && n in before && before[n].File? && Reseals(j, n, before[n].bytes)
    && n in after && after[n] == File(Resealed(j, n, before[n].bytes))
  }

  /** The files of `done` are replaced, everything else is as it was. */
  ghost predicate Between(j: Job, before: Files, after: Files, done: set<Name>) {
    forall n :: !IsTemp(n, j.pid) ==>
      if n in done then Replaced(j, before, after, n) else SameAt(before, after, n)
  }

  /** A name that the loop does not pass over: a sealed file on which lstat works. */
  predicate IsTaken(j: Job, before: Files, n: Name) { IsSealed(before, n) && j.works.stats(n) }

  /** The files taken up among the first `k` names of the listing. */
  function Taken(j: Job, before: Files, listing: seq<Name>, k: nat): set<Name>
    requires k <= |listing|
  {
    set i | 0 <= i < k && IsTaken(j, before, listing[i]) :: listing[i]
  }

  ghost predicate ListsAll(listing: seq<Name>, files: Files) {
    Distinct(listing) && forall n :: n in files ==> n in listing
  }

  /** What the rekeying of one file reports. */
  function MoveErr(j: Job, n: Name, file: Bytes): Err {
    if !Reseals(j, n, file) then ERR_CRYPTO else if !j.works.rename(n) then ERR_IO else OK
  }

  function NthErr(j: Job, before: Files, n: Name): Err {
    if IsTaken(j, before, n) then MoveErr(j, n, before[n].bytes) else OK
  }

  /** The loop gets through `k` names and ends with `err`: it stops at the first file whose
      rekeying reports an error, and does not even begin when the directory does not open. */
  predicate EndsAt(j: Job, before: Files, listing: seq<Name>, err: Err, k: nat) {
    if !j.works.opens then k == 0 && err == OK
    else
      && k <= |listing| && (forall i :: 0 <= i < k ==> NthErr(j, before, listing[i]) == OK)
      && if k == |listing| then err == OK else err == NthErr(j, before, listing[k]) != OK
  }

  /** Where rekeying leaves the directory. */
  ghost predicate RekeyEnds(j: Job, before: Files, after: Files, listing: seq<Name>, err: Err) {
    exists k: nat :: k <= |listing| && EndsAt(j, before, listing, err, k) &&
                     Between(j, before, after, Taken(j, before, listing, k))
  }

  /** Rekeying reports success. */
  predicate RekeyWorks(j: Job, before: Files, listing: seq<Name>) {
    !j.works.opens || forall i :: 0 <= i < |listing| ==> NthErr(j, before, listing[i]) == OK
  }

  /** One more file replaced. */
  lemma BetweenGrows(j: Job, before: Files, mid: Files, after: Files, done: set<Name>, n: Name)
    requires Between(j, before, mid, done) && n !in done && !IsTemp(n, j.pid) && ReplacedOnly(j, mid, after, n)
    ensures Between(j, before, after, done + {n})
  {
    forall m | !IsTemp(m, j.pid)
      ensures if m in done + {n} then Replaced(j, before, after, m) else SameAt(before, after, m)
    {
      assert SameAt(before, mid, n);
      if m != n {
        assert SameAt(mid, after, m);
      }
    }
  }

  lemma BetweenStays(j: Job, before: Files, mid: Files, after: Files, done: set<Name>)
    requires Between(j, before, mid, done) && SameButTemps(mid, after, j.pid)
    ensures Between(j, before, after, done)
  {
    forall m | !IsTemp(m, j.pid)
      ensures if m in done then Replaced(j, before, after, m) else SameAt(before, after, m)
    {
      assert SameAt(mid, after, m);
    }
  }

  /** Since `from` only temporary names have differed from `before`. */
  ghost predicate Quiet(history: seq<Files>, from: nat, before: Files, pid: string) {
    && from < |history|
    && forall k {:trigger SameButTemps(before, history[k], pid)} :: from <= k < |history| ==>
         SameButTemps(before, history[k], pid)
  }

  /** Some files are replaced and the rest are as before. */
  ghost predicate SomeReplaced(j: Job, before: Files, now: Files, listing: seq<Name>) {
    exists k :: 0 <= k <= |listing| && Between(j, before, now, Taken(j, before, listing, k))
  }

  /** In every state since `from` some files are replaced and the rest are as before. */
  ghost predicate AlwaysBetween(j: Job, history: seq<Files>, from: nat, before: Files, listing: seq<Name>) {
    && from < |history|
    && forall k {:trigger SomeReplaced(j, before, history[k], listing)} :: from <= k < |history| ==>
         SomeReplaced(j, before, history[k], listing)
  }

  lemma TempChanges(before: Files, files: Files, t: Name, bytes: Bytes, pid: string)
    requires SameButTemps(before, files, pid) && IsTemp(t, pid)
    ensures SameButTemps(before, files[t := File(bytes)], pid) && SameButTemps(before, files - {t}, pid)
  {
    forall n | !IsTemp(n, pid)
      ensures SameAt(before, files[t := File(bytes)], n) && SameAt(before, files - {t}, n)
    {
      assert SameAt(before, files, n);
    }
  }

  class VaultDir {
    const g: Gcm
    const pid: string
    var files: Files
    /** Every state the directory was in, the present one last. */
    ghost var history: seq<Files>

    ghost predicate Valid()
      reads this
    {
      IsPid(pid) && history != [] && history[|history| - 1] == files
    }

    constructor (g: Gcm, pid: string, files: Files)
      requires IsPid(pid)
      ensures Valid() && this.g == g && this.pid == pid && this.files == files
    {
      this.g, this.pid, this.files, history := g, pid, files, [files];
    }

    /** A temporary file is created or written. */
    method Write(t: Name, bytes: Bytes, ghost from: nat, ghost before: Files)
      requires Valid() && IsTemp(t, pid) && Quiet(history, from, before, pid)
      modifies this
      ensures Valid() && old(history) <= history && Quiet(history, from, before, pid)
      ensures files == old(files)[t := File(bytes)]
    {
      TempChanges(before, history[|history| - 1], t, bytes, pid);
      files := files[t := File(bytes)];
      history := history + [files];
    }

    /** A temporary file is removed, if it is there. */
    method Unlink(t: Name, ghost from: nat, ghost before: Files)
      requires Valid() && IsTemp(t, pid) && Quiet(history, from, before, pid)
      modifies this
      ensures Valid() && old(history) <= history && Quiet(history, from, before, pid)
      ensures files == old(files) - {t}
    {
      TempChanges(before, history[|history| - 1], t, [], pid);
      files := files - {t};
      history := history + [files];
    }

    /** A temporary file takes another temporary name. */
    method Rename(t: Name, u: Name, ghost from: nat, ghost before: Files)
      requires Valid() && IsTemp(t, pid) && IsTemp(u, pid) && Quiet(history, from, before, pid)
      requires t in files && files[t].File?
      modifies this
      ensures Valid() && old(history) <= history && Quiet(history, from, before, pid)
      ensures files == (old(files) - {t})[u := old(files)[t]]
    {
      TempChanges(before, history[|history| - 1], t, [], pid);
      TempChanges(before, files - {t}, u, files[t].bytes, pid);
      files := (files - {t})[u := files[t]];
      history := history + [files];
    }

    ghost predicate For(j: Job)
      reads this
    {
      Valid() && j.g == g && j.pid == pid
    }

    /** decrypt_file from `n` to a temporary name: through another temporary name, and only
        what authenticates gets there, as far as it reaches the disk. */
    method DecryptTo(j: Job, n: Name, out: Name, ghost from: nat, ghost before: Files) returns (ok: bool)
      requires For(j) && Quiet(history, from, before, pid)
      requires n in files && files[n].File? && !IsTemp(n, pid) && IsTemp(out, pid)
      modifies this
      ensures For(j) && old(history) <= history && Quiet(history, from, before, pid)
      ensures ok <==> j.works.decrypt(n).Some? && Open(g, j.oldKey, old(files)[n].bytes).Some?
      ensures ok ==> out in files &&
                     files[out] == File(Front(Open(g, j.oldKey, old(files)[n].bytes).value, j.works.decrypt(n).value))
    {
      var tmp := OutTmpName(out, pid);
      Write(tmp, [], from, before);
      if j.works.decrypt(n) == None {
        Unlink(tmp, from, before);
        return false;
      }
      var plain := DecryptFile(g, j.oldKey, files[n].bytes, j.works.decrypt(n).value);
      ok := plain.Some?;
      if ok {
        Write(tmp, plain.value, from, before);
        Rename(tmp, out, from, before);
      } else {
        Unlink(tmp, from, before);
      }
    }

    /** Lines 753-778: a re-encrypted copy of `n` under a temporary name. */
    method Reseal(j: Job, n: Name, ghost from: nat, ghost before: Files) returns (ok: bool)
      requires For(j) && Quiet(history, from, before, pid) && before == files
      requires IsSealed(files, n) && !IsTemp(n, pid)
      modifies this
      ensures For(j) && old(history) <= history && Quiet(history, from, before, pid)
      ensures ok <==> Reseals(j, n, before[n].bytes)
      ensures ok ==> NewName(n, pid) in files && files[NewName(n, pid)] == File(Resealed(j, n, before[n].bytes))
    {
      var tmp, reenc := TmpName(n, pid), NewName(n, pid);
      var decrypted := DecryptTo(j, n, tmp, from, before);
      if !decrypted {
        Unlink(tmp, from, before);
        return false;
      }
      if j.works.encrypt(n) == None {
        Unlink(tmp, from, before);
        Unlink(reenc, from, before);
        return false;
      }
      var stored := EncryptFile(g, j.newKey, j.ivs(n), files[tmp].bytes, j.works.encrypt(n).value);
      Write(reenc, stored, from, before);
      NamesDiffer(n, pid);
      Unlink(tmp, from, before);
      return true;
    }

    /** Lines 751-786 for one regular .enc file: nothing but temporary names changes until the
        rename puts the new file in place. */
    method RekeyOne(j: Job, n: Name) returns (err: Err)
      requires For(j) && IsSealed(files, n) && !IsTemp(n, pid)
      modifies this
      ensures For(j) && old(history) <= history && (err == OK ==> |old(history)| < |history|)
      ensures err == MoveErr(j, n, old(files)[n].bytes)
      ensures err == OK <==> Reseals(j, n, old(files)[n].bytes) && j.works.rename(n)
      ensures err == ERR_IO <==> Reseals(j, n, old(files)[n].bytes) && !j.works.rename(n)
      ensures Quiet(if err == OK then history[..|history| - 1] else history, |old(history)| - 1, old(files), pid)
      ensures err == OK ==> ReplacedOnly(j, old(files), files, n)
    {
      ghost var before, from := files, |history| - 1;
      var ok := Reseal(j, n, from, before);
      var reenc := NewName(n, pid);
      if !ok {
        return ERR_CRYPTO;
      }
      if !j.works.rename(n) {
        Unlink(reenc, from, before);
        return ERR_IO;
      }
      ghost var quiet := history;
      RenamePutsInPlace(j, before, files, n);
      files := (files - {reenc})[n := files[reenc]];
      history := history + [files];
      assert history[..|history| - 1] == quiet;
      return OK;
    }

    /** One turn of the loop of rekey_vault_files. */
    method RekeyNth(j: Job, listing: seq<Name>, k: nat, ghost from: nat, ghost before: Files) returns (err: Err)
      requires For(j) && Distinct(listing) && k < |listing|
      requires Between(j, before, files, Taken(j, before, listing, k))
      requires AlwaysBetween(j, history, from, before, listing)
      modifies this
      ensures For(j) && AlwaysBetween(j, history, from, before, listing)
      ensures Between(j, before, files, Taken(j, before, listing, if err == OK then k + 1 else k))
      ensures err == NthErr(j, before, listing[k])
    {
      var n := listing[k];
      TakenStep(j, before, listing, k);
      if IsTemp(n, pid) {
        TempsAreNotEnc(n, pid);
      } else {
        assert SameAt(before, files, n);
      }
      if !IsEnc(n) {
        return OK;
      }
      if n !in files || !j.works.stats(n) || !files[n].File? {
        return OK;
      }
      ghost var mid := files;
      err := RekeyOne(j, n);
      StillBetween(j, old(history), history, err == OK, from, before, mid, listing, k);
    }

    /** rekey_vault_files. The listing is what readdir delivers, no name twice. Whatever
        happens, and at every moment, the files are replaced one by one; it reports success
        exactly if the directory does not open or no file taken up reports an error, and
        otherwise stops at the first that does. */
    method RekeyFiles(j: Job, listing: seq<Name>) returns (err: Err)
      requires For(j) && Distinct(listing)
      modifies this
      ensures For(j)
      ensures AlwaysBetween(j, history, |old(history)| - 1, old(files), listing)
      ensures RekeyEnds(j, old(files), files, listing, err)
      ensures err == OK <==> RekeyWorks(j, old(files), listing)
      ensures !j.works.opens ==> files == old(files)
    {
      ghost var before, from := files, |history| - 1;
      NothingReplacedYet(j, files, listing);
      if !j.works.opens {
        assert EndsAt(j, before, listing, OK, 0);
        return OK;
      }
      for k := 0 to |listing|
        invariant For(j) && AlwaysBetween(j, history, from, before, listing)
        invariant Between(j, before, files, Taken(j, before, listing, k))
        invariant forall i :: 0 <= i < k ==> NthErr(j, before, listing[i]) == OK
      {
        err := RekeyNth(j, listing, k, from, before);
        if err != OK {
          assert EndsAt(j, before, listing, err, k);
          return;
        }
      }
      assert EndsAt(j, before, listing, OK, |listing|);
      return OK;
    }
  }

  lemma NothingReplacedYet(j: Job, files: Files, listing: seq<Name>)
    ensures Between(j, files, files, Taken(j, files, listing, 0))
    ensures SomeReplaced(j, files, files, listing)
  {
    assert Between(j, files, files, Taken(j, files, listing, 0));
  }

  lemma NamesDiffer(n: Name, pid: string)
    ensures TmpName(n, pid) != NewName(n, pid)
  {
    assert TmpName(n, pid)[|n| + 7] == 't';
    assert NewName(n, pid)[|n| + 7] == 'n';
  }

  /** One file replaced, and nothing but temporary names changed besides. */
  ghost predicate ReplacedOnly(j: Job, mid: Files, after: Files, n: Name) {
    && Replaced(j, mid, after, n)
    && forall m :: !IsTemp(m, j.pid) && m != n ==> SameAt(mid, after, m)
  }

  lemma RenamePutsInPlace(j: Job, before: Files, files: Files, n: Name)
    requires SameButTemps(before, files, j.pid) && !IsTemp(n, j.pid) && IsSealed(before, n)
    requires Reseals(j, n, before[n].bytes) && NewName(n, j.pid) in files
    requires files[NewName(n, j.pid)] == File(Resealed(j, n, before[n].bytes))
    ensures var reenc := NewName(n, j.pid);
            ReplacedOnly(j, before, (files - {reenc})[n := files[reenc]], n)
  {
    var reenc := NewName(n, j.pid);
    forall m | !IsTemp(m, j.pid) && m != n
      ensures SameAt(before, (files - {reenc})[n := files[reenc]], m)
    {
      assert SameAt(before, files, m);
    }
  }

  /** The files taken up before `listing[k]` are not `listing[k]`. */
  lemma TakenStep(j: Job, before: Files, listing: seq<Name>, k: nat)
    requires Distinct(listing) && k < |listing|
    ensures listing[k] !in Taken(j, before, listing, k)
    ensures Taken(j, before, listing, k + 1) ==
            Taken(j, before, listing, k) + if IsTaken(j, before, listing[k]) then {listing[k]} else {}
  {
  }

  /** While one file is on its way the directory stays between the keys, and so it does when
      the file has arrived. */
  lemma StillBetween(j: Job, was: seq<Files>, history: seq<Files>, moved: bool, from: nat, before: Files, mid: Files,
                     listing: seq<Name>, k: nat)
    requires from < |was| && was <= history && was[|was| - 1] == mid && (moved ==> |was| < |history|)
    requires Distinct(listing) && k < |listing| && IsTaken(j, before, listing[k]) && !IsTemp(listing[k], j.pid)
    requires AlwaysBetween(j, was, from, before, listing)
    requires Between(j, before, mid, Taken(j, before, listing, k))
    requires Quiet(if moved then history[..|history| - 1] else history, |was| - 1, mid, j.pid)
    requires moved ==> ReplacedOnly(j, mid, history[|history| - 1], listing[k])
    ensures AlwaysBetween(j, history, from, before, listing)
    ensures Between(j, before, history[|history| - 1], Taken(j, before, listing, if moved then k + 1 else k))
  {
    var quiet := if moved then history[..|history| - 1] else history;
    TakenStep(j, before, listing, k);
    if moved {
      BetweenGrows(j, before, mid, history[|history| - 1], Taken(j, before, listing, k), listing[k]);
    }
    forall i | from <= i < |history|
      ensures SomeReplaced(j, before, history[i], listing)
      ensures i == |history| - 1 && !moved ==> Between(j, before, history[i], Taken(j, before, listing, k))
    {
      if i < |was| - 1 {
        assert SomeReplaced(j, before, was[i], listing);
      } else if i < |quiet| {
        assert SameButTemps(mid, quiet[i], j.pid);
        BetweenStays(j, before, mid, history[i], Taken(j, before, listing, k));
      }
    }
  }

  // ---- What becomes of the data ---------------------------------------------------------

  /** None of these files opens under both keys. GCM does not commit to its key, so this is
      said of the files at hand and not of all there could be. */
  ghost predicate Apart(j: Job, files: Files) {
    forall n :: n in files && files[n].File? ==>
      Open(j.g, j.oldKey, files[n].bytes) == None || Open(j.g, j.newKey, files[n].bytes) == None
  }

  /** The file opens under the key to what it held before. */
  predicate StillOpens(j: Job, before: Files, after: Files, n: Name, key: Key)
    requires IsSealed(before, n)
  {
    n in after && after[n].File? && Open(j.g, key, after[n].bytes) == Open(j.g, j.oldKey, before[n].bytes)
  }

  /** Every sealed file opened under the old key and opens to the same plaintext under the
      new one. */
  ghost predicate AllMoved(j: Job, before: Files, after: Files) {
    forall n :: IsSealed(before, n) ==>
      Open(j.g, j.oldKey, before[n].bytes).Some? && StillOpens(j, before, after, n, j.newKey)
  }

  /** Every sealed file opens under the old key to what it did, or not if it did not. */
  ghost predicate AllPreserved(j: Job, before: Files, after: Files) {
    forall n :: IsSealed(before, n) ==> StillOpens(j, before, after, n, j.oldKey)
  }

  /** No sealed file is destroyed: each opens to what it held under one of the two keys. */
  ghost predicate NoneDestroyed(j: Job, before: Files, after: Files) {
    forall n :: IsSealed(before, n) ==>
      StillOpens(j, before, after, n, j.oldKey) || StillOpens(j, before, after, n, j.newKey)
  }

  lemma SealedIsNoTemp(files: Files, n: Name, pid: string)
    requires IsPid(pid) && IsSealed(files, n)
    ensures !IsTemp(n, pid)
  {
    if IsTemp(n, pid) {
      TempsAreNotEnc(n, pid);
    }
  }

  /** What a replaced file opens to. */
  lemma ReplacedOpens(j: Job, before: Files, after: Files, n: Name)
    requires IsSealed(before, n) && Replaced(j, before, after, n)
    ensures StillOpens(j, before, after, n, j.newKey) <==> Arrives(j, n, before[n].bytes)
    ensures StillOpens(j, before, after, n, j.oldKey) ==> Arrives(j, n, before[n].bytes)
  {
    ResealedOpens(j, n, before[n].bytes, j.newKey);
    ResealedOpens(j, n, before[n].bytes, j.oldKey);
  }

  /** Wherever rekeying is on its way, no sealed file is destroyed exactly if everything
      arrived of every file taken up so far: a flush that fails, or a read error taken for the
      end of the input, is reported by no one, and the file is then under neither key. */
  lemma NothingIsDestroyedIff(j: Job, before: Files, now: Files, listing: seq<Name>, k: nat)
    requires IsPid(j.pid) && k <= |listing| && Between(j, before, now, Taken(j, before, listing, k))
    ensures NoneDestroyed(j, before, now) <==>
            forall n :: n in Taken(j, before, listing, k) ==>
              Reseals(j, n, before[n].bytes) && Arrives(j, n, before[n].bytes)
  {
    forall n | IsSealed(before, n)
      ensures n in Taken(j, before, listing, k) ==>
                Reseals(j, n, before[n].bytes) &&
                (StillOpens(j, before, now, n, j.oldKey) || StillOpens(j, before, now, n, j.newKey) <==>
                 Arrives(j, n, before[n].bytes))
      ensures n !in Taken(j, before, listing, k) ==> StillOpens(j, before, now, n, j.oldKey)
    {
      SealedIsNoTemp(before, n, j.pid);
      if n in Taken(j, before, listing, k) {
        ReplacedOpens(j, before, now, n);
      } else {
        assert SameAt(before, now, n);
      }
    }
  }

  /** The loop comes by every sealed file, and everything arrives: the directory opens, readdir
      delivers them all, lstat works on each, and both outputs are whole. */
  ghost predicate MeetsAll(j: Job, files: Files, listing: seq<Name>) {
    forall n :: IsSealed(files, n) ==>
      && j.works.opens && n in listing && j.works.stats(n)
      && Reseals(j, n, files[n].bytes) && Arrives(j, n, files[n].bytes)
  }

  /** When rekeying reports success, all sealed files are under the new key exactly if the loop
      came by every one of them and everything arrived: an unopened directory, or a file that
      lstat fails on, is success with the file left under the key that is about to be
      forgotten. */
  lemma SuccessMovesWhatItMeets(j: Job, before: Files, after: Files, listing: seq<Name>)
    requires IsPid(j.pid) && RekeyEnds(j, before, after, listing, OK)
    ensures MeetsAll(j, before, listing) ==> AllMoved(j, before, after)
    ensures Apart(j, before) && AllMoved(j, before, after) ==> MeetsAll(j, before, listing)
  {
    var k: nat :| k <= |listing| && EndsAt(j, before, listing, OK, k) &&
                  Between(j, before, after, Taken(j, before, listing, k));
    forall n | IsSealed(before, n)
      ensures n in Taken(j, before, listing, k) <==> j.works.opens && n in listing && j.works.stats(n)
      ensures n in Taken(j, before, listing, k) ==>
                Reseals(j, n, before[n].bytes) &&
                (StillOpens(j, before, after, n, j.newKey) <==> Arrives(j, n, before[n].bytes))
      ensures n !in Taken(j, before, listing, k) ==> SameAt(before, after, n)
    {
      SealedIsNoTemp(before, n, j.pid);
      if n in Taken(j, before, listing, k) {
        ReplacedOpens(j, before, after, n);
      }
    }
  }

  /** All I/O works. */
  ghost predicate NothingFails(w: Works) {
    w.opens && forall n: Name :: w.stats(n) && w.decrypt(n).Some? && w.encrypt(n).Some? && w.rename(n)
  }

  /** The bytes were the sealing of a plaintext under the one key and are its sealing under the
      other. */
  ghost predicate IsRekeyed(g: Gcm, oldKey: Key, newKey: Key, iv: Iv, was: Bytes, now: Bytes) {
    exists plain: Bytes ::
      |was| >= 12 && IsSealingOf(g, oldKey, was[..12], plain, was) && IsSealingOf(g, newKey, iv, plain, now)
  }

  /** Rekeying the file gets everything to the disk. */
  predicate GetsThrough(w: Works, n: Name, file: Bytes) {
    && w.decrypt(n).Some? && w.encrypt(n).Some?
    && |file| <= w.decrypt(n).value && |file| <= w.encrypt(n).value.read && |file| <= w.encrypt(n).value.kept
  }

  /** Every listed regular file with the .enc ending has gone from key to key. */
  ghost predicate AllRekeyed(g: Gcm, w: Works, oldKey: Key, newKey: Key, ivs: Name -> Iv, before: Files, after: Files,
                             listing: seq<Name>)
  {
    forall b: Name :: b != "" && b + ".enc" in listing && b + ".enc" in before && before[b + ".enc"].File? &&
                      GetsThrough(w, b + ".enc", before[b + ".enc"].bytes) ==>
      && b + ".enc" in after && after[b + ".enc"].File?
      && IsRekeyed(g, oldKey, newKey, ivs(b + ".enc"), before[b + ".enc"].bytes, after[b + ".enc"].bytes)
  }

  /** Every listed regular file with the .enc ending has the right tag for the key. */
  ghost predicate AllAuthentic(g: Gcm, key: Key, files: Files, listing: seq<Name>) {
    forall b: Name :: b != "" && b + ".enc" in listing && b + ".enc" in files && files[b + ".enc"].File? ==>
      Authentic(g, key, files[b + ".enc"].bytes)
  }

  lemma ResealedBytes(j: Job, n: Name, file: Bytes)
    requires Reseals(j, n, file) && GetsThrough(j.works, n, file)
    ensures IsRekeyed(j.g, j.oldKey, j.newKey, j.ivs(n), file, Resealed(j, n, file))
  {
    var plain := Open(j.g, j.oldKey, file).value;
    OpenBytes(j.g, j.oldKey, file);
    StoredBytes(j.g, j.newKey, j.ivs(n), plain, j.works.encrypt(n).value);
  }

  lemma RekeyedOutright(j: Job, before: Files, after: Files, listing: seq<Name>)
    requires IsPid(j.pid) && NothingFails(j.works) && RekeyEnds(j, before, after, listing, OK)
    ensures AllRekeyed(j.g, j.works, j.oldKey, j.newKey, j.ivs, before, after, listing)
  {
    var k: nat :| k <= |listing| && EndsAt(j, before, listing, OK, k) &&
                  Between(j, before, after, Taken(j, before, listing, k));
    forall b: Name | b != "" && b + ".enc" in listing && b + ".enc" in before && before[b + ".enc"].File? &&
                     GetsThrough(j.works, b + ".enc", before[b + ".enc"].bytes)
      ensures b + ".enc" in after && after[b + ".enc"].File?
      ensures IsRekeyed(j.g, j.oldKey, j.newKey, j.ivs(b + ".enc"), before[b + ".enc"].bytes, after[b + ".enc"].bytes)
    {
      var n := b + ".enc";
      EncNames(n);
      SealedIsNoTemp(before, n, j.pid);
      assert n in Taken(j, before, listing, k);
      ResealedBytes(j, n, before[n].bytes);
    }
  }

  /** With no failing call rekeying reports success exactly if every file it meets is
      authentic. */
  lemma RekeyWorksIff(j: Job, before: Files, listing: seq<Name>)
    requires NothingFails(j.works)
    ensures RekeyWorks(j, before, listing) <==> AllAuthentic(j.g, j.oldKey, before, listing)
  {
    forall n | n in before && before[n].File?
      ensures Reseals(j, n, before[n].bytes) <==> Authentic(j.g, j.oldKey, before[n].bytes)
    {
      OpenBytes(j.g, j.oldKey, before[n].bytes);
    }
    forall n: Name
      ensures IsEnc(n) <==> exists b: Name :: b != "" && n == b + ".enc"
    {
      EncNames(n);
    }
    if RekeyWorks(j, before, listing) {
      forall b: Name | b != "" && b + ".enc" in listing && b + ".enc" in before && before[b + ".enc"].File?
        ensures Authentic(j.g, j.oldKey, before[b + ".enc"].bytes)
      {
        EncNames(b + ".enc");
        var i :| 0 <= i < |listing| && listing[i] == b + ".enc";
        assert NthErr(j, before, listing[i]) == OK;
      }
    }
  }

  /** Whatever rekeying reports: what is not a regular .enc file is as it was. */
  lemma OthersStay(j: Job, before: Files, after: Files, listing: seq<Name>, err: Err, n: Name)
    requires RekeyEnds(j, before, after, listing, err) && !IsTemp(n, j.pid)
    requires n !in listing || |n| <= 4 || n[|n| - 4..] != ".enc" || n !in before || !before[n].File?
    ensures (n in after <==> n in before) && (n in before ==> after[n] == before[n])
  {
    var k: nat :| k <= |listing| && EndsAt(j, before, listing, err, k) &&
                  Between(j, before, after, Taken(j, before, listing, k));
    assert n !in Taken(j, before, listing, k);
  }

  lemma EndsOnce(j: Job, before: Files, listing: seq<Name>, err: Err, k: nat, l: nat)
    requires EndsAt(j, before, listing, err, k) && EndsAt(j, before, listing, err, l)
    ensures k == l
  {
    if k < l {
      assert false;
    } else if l < k {
      assert false;
    }
  }

  /** When rekeying stops at `listing[k]`, the old key, which is still the vault's, opens
      every sealed file as before exactly if none was taken up earlier. */
  lemma AbortPreservesIff(j: Job, before: Files, after: Files, listing: seq<Name>, err: Err, k: nat)
    requires IsPid(j.pid) && Apart(j, after) && k < |listing|
    requires RekeyEnds(j, before, after, listing, err)
    requires err != OK && EndsAt(j, before, listing, err, k)
    ensures AllPreserved(j, before, after) <==> forall i :: 0 <= i < k ==> !IsTaken(j, before, listing[i])
  {
    var l: nat :| l <= |listing| && EndsAt(j, before, listing, err, l) &&
                  Between(j, before, after, Taken(j, before, listing, l));
    EndsOnce(j, before, listing, err, k, l);
    forall n | IsSealed(before, n)
      ensures StillOpens(j, before, after, n, j.oldKey) <==> n !in Taken(j, before, listing, k)
    {
      SealedIsNoTemp(before, n, j.pid);
      if n in Taken(j, before, listing, k) {
        ReplacedOpens(j, before, after, n);
      } else {
        assert SameAt(before, after, n);
      }
    }
    if i :| 0 <= i < k && IsTaken(j, before, listing[i]) {
      assert listing[i] in Taken(j, before, listing, k);
    }
  }

  /** A witness, whatever the cipher: on a full disk the buffered plaintext and the buffered
      sealing of a small file are both lost when the files are closed, no one reports it, and
      an empty file is put in the place of the sealed one. */
  lemma FullDiskDestroys(j: Job, n: Name, iv: Iv, plain: Bytes, after: Files, err: Err)
    requires IsPid(j.pid) && IsEnc(n) && |plain| + IV_LEN + TAG_LEN <= MAX_DECRYPT_SIZE
    requires j.works.opens && j.works.stats(n) && j.works.rename(n)
    requires j.works.decrypt(n) == Some(0) && j.works.encrypt(n) == Some(Passed(0, 0))
    requires RekeyEnds(j, map[n := File(Seal(j.g, j.oldKey, iv, plain))], after, [n], err)
    ensures err == OK && n in after && after[n] == File([])
    ensures !NoneDestroyed(j, map[n := File(Seal(j.g, j.oldKey, iv, plain))], after)
  {
    var before: Files := map[n := File(Seal(j.g, j.oldKey, iv, plain))];
    OpenSeal(j.g, j.oldKey, iv, plain);
    assert [n][0] == n && IsTaken(j, before, [n][0]);
    var k: nat :| k <= 1 && EndsAt(j, before, [n], err, k) && Between(j, before, after, Taken(j, before, [n], k));
    assert NthErr(j, before, [n][0]) == OK;
    assert k == 1 && n in Taken(j, before, [n], 1);
    NothingIsDestroyedIff(j, before, after, [n], 1);
    SealedIsNoTemp(before, n, j.pid);
    assert Replaced(j, before, after, n);
  }

  /** A cipher whose tag is the key, sixteen times. */
  function ToyTag(k: Key, iv: Iv, ct: Bytes): Tag { seq(TAG_LEN, i => if k == [] then 0 else k[0]) }

  function ToyStream(k: Key, iv: Iv, at: nat): bv8 { 0 }

  function Toy(): Gcm { Gcm(ToyStream, ToyTag) }

  function ZeroIv(): Iv { seq(IV_LEN, i => 0) }

  /** A change from the key [1] to the key [2]. */
  ghost predicate IsToy(j: Job) { j.g == Toy() && IsPid(j.pid) && j.oldKey == [1] && j.newKey == [2] }

  lemma ToyKeysApart(j: Job, files: Files)
    requires IsToy(j)
    ensures Apart(j, files)
  {
    forall n | n in files && files[n].File?
      ensures Open(j.g, j.oldKey, files[n].bytes) == None || Open(j.g, j.newKey, files[n].bytes) == None
    {
      var file := files[n].bytes;
      if Open(j.g, j.oldKey, file).Some? {
        assert file[|file| - TAG_LEN..][0] == 1;
        assert forall iv, ct :: ToyTag([2], iv, ct)[0] == 2;
      }
    }
  }

  /** A directory of which one file is sealed under the key [1] and one under no key. */
  function TwoFiles(n: Name, m: Name): Files {
    map[n := File(Seal(Toy(), [1], ZeroIv(), [])), m := File([])]
  }

  /** A witness: with everything working, rekeying this directory fails at the second file in
      every case, and then the first one no longer opens. */
  lemma AbortLosesMovedFile(j: Job, n: Name, m: Name, after: Files, err: Err)
    requires IsToy(j) && n != m && IsEnc(n) && IsEnc(m) && NothingFails(j.works)
    requires RekeyEnds(j, TwoFiles(n, m), after, [n, m], err)
    ensures err == ERR_CRYPTO && !AllPreserved(j, TwoFiles(n, m), after)
  {
    var before := TwoFiles(n, m);
    OpenSeal(Toy(), [1], ZeroIv(), []);
    ToyKeysApart(j, after);
    assert IsTaken(j, before, [n, m][0]) && NthErr(j, before, [n, m][0]) == OK;
    assert NthErr(j, before, [n, m][1]) == ERR_CRYPTO;
    assert EndsAt(j, before, [n, m], err, 1);
    AbortPreservesIff(j, before, after, [n, m], err, 1);
  }

  /** A witness: a directory that does not open is always success, with the file stranded. */
  lemma UnopenedIsStranded(j: Job, n: Name, m: Name, listing: seq<Name>, after: Files, err: Err)
    requires IsToy(j) && n != m && IsEnc(n) && !j.works.opens
    requires RekeyEnds(j, TwoFiles(n, m), after, listing, err)
    ensures err == OK && !AllMoved(j, TwoFiles(n, m), after)
  {
    ToyKeysApart(j, TwoFiles(n, m));
    assert IsSealed(TwoFiles(n, m), n) && !MeetsAll(j, TwoFiles(n, m), listing);
    SuccessMovesWhatItMeets(j, TwoFiles(n, m), after, listing);
  }

  // ---- The change of password -----------------------------------------------------------

  type Password = string

  /** derive_key_for: a key for a purpose, unless the derivation fails. */
  type Kdf = (Password, Bytes, string) -> Option<Key>

  const FOR_FILES: string := "file-encryption"
  const FOR_AUTH: string := "auth-verify"

  class Account {
    const kdf: Kdf
    const dir: VaultDir
    var salt: Bytes
    var passHash: Bytes

    ghost predicate Verifies(p: Password)
      reads this
    {
      kdf(p, salt, FOR_AUTH) == Some(passHash)
    }

    /** The change gets as far as the files. */
    ghost predicate Starts(oldPass: Password, newPass: Password, random: Option<Bytes>)
      reads this
    {
      && Verifies(oldPass) && random.Some?
      && kdf(oldPass, salt, FOR_FILES).Some? && kdf(newPass, random.value, FOR_FILES).Some?
    }

    /** What is then done to the files. */
    ghost function JobOf(works: Works, oldPass: Password, newPass: Password, random: Option<Bytes>, ivs: Name -> Iv): Job
      requires Starts(oldPass, newPass, random)
      reads this
    {
      Job(dir.g, dir.pid, works, kdf(oldPass, salt, FOR_FILES).value, kdf(newPass, random.value, FOR_FILES).value, ivs)
    }

    constructor (kdf: Kdf, dir: VaultDir, salt: Bytes, passHash: Bytes)
      ensures this.kdf == kdf && this.dir == dir && this.salt == salt && this.passHash == passHash
    {
      this.kdf, this.dir, this.salt, this.passHash := kdf, dir, salt, passHash;
    }

    /** vault_change_password for a vault that has one and is not locked; `random` is the new
        salt, if the generator delivers, and `saves` how saving the catalog ends. It succeeds
        exactly if both passwords' keys can be had, rekeying reports success, the new hash can
        be had and the catalog is saved. After rekeying all sealed files are under the new key
        exactly if it came by them and they arrived. The files are touched only by rekeying;
        the salt is replaced as soon as that reports success, the hash when it can be had. */
    method ChangePassword(works: Works, oldPass: Password, newPass: Password, random: Option<Bytes>,
                          ivs: Name -> Iv, listing: seq<Name>, saves: bool)
      returns (err: Err)
      requires dir.Valid() && Distinct(listing)
      modifies this, dir
      ensures dir.Valid()
      ensures err == OK ==> random == Some(salt) && kdf(newPass, salt, "auth-verify") == Some(passHash)
      ensures NothingFails(works) ==>
                (err == OK <==>
                   && kdf(oldPass, old(salt), "auth-verify") == Some(old(passHash)) && random.Some?
                   && kdf(oldPass, old(salt), "file-encryption").Some?
                   && kdf(newPass, random.value, "file-encryption").Some?
                   && kdf(newPass, random.value, "auth-verify").Some?
                   && AllAuthentic(dir.g, kdf(oldPass, old(salt), "file-encryption").value, old(dir.files), listing)
                   && saves)
      ensures NothingFails(works) && err == OK ==>
                && kdf(oldPass, old(salt), "file-encryption").Some? && kdf(newPass, salt, "file-encryption").Some?
                && AllRekeyed(dir.g, works, kdf(oldPass, old(salt), "file-encryption").value,
                              kdf(newPass, salt, "file-encryption").value, ivs, old(dir.files), dir.files, listing)
      ensures err == ERR_AUTH <==> kdf(oldPass, old(salt), FOR_AUTH).Some? && !old(Verifies(oldPass))
      ensures !old(Starts(oldPass, newPass, random)) ==>
                err != OK && salt == old(salt) && passHash == old(passHash) && dir.files == old(dir.files)
      ensures old(Starts(oldPass, newPass, random)) ==>
                var j := old(JobOf(works, oldPass, newPass, random, ivs));
                var rekeys := RekeyWorks(j, old(dir.files), listing);
                var hash := kdf(newPass, random.value, FOR_AUTH);
                && (err == OK <==> rekeys && hash.Some? && saves)
                && salt == (if rekeys then random.value else old(salt))
                && passHash == (if rekeys && hash.Some? then hash.value else old(passHash))
                && (rekeys && hash.Some? ==> Verifies(newPass))
                && (rekeys ==> RekeyEnds(j, old(dir.files), dir.files, listing, OK))
                && (!rekeys ==> RekeyEnds(j, old(dir.files), dir.files, listing, err))
                && (rekeys && MeetsAll(j, old(dir.files), listing) ==> AllMoved(j, old(dir.files), dir.files))
                && (rekeys && Apart(j, old(dir.files)) && AllMoved(j, old(dir.files), dir.files) ==>
                      MeetsAll(j, old(dir.files), listing))
    {
      var verifier := kdf(oldPass, salt, FOR_AUTH);
      if verifier == None {
        return ERR_CRYPTO;
      }
      if verifier.value != passHash {
        return ERR_AUTH;
      }
      var oldKey := kdf(oldPass, salt, FOR_FILES);
      if oldKey == None || random == None {
        return ERR_CRYPTO;
      }
      var newKey := kdf(newPass, random.value, FOR_FILES);
      if newKey == None {
        return ERR_CRYPTO;
      }
      var j := Job(dir.g, dir.pid, works, oldKey.value, newKey.value, ivs);
      if NothingFails(works) {
        RekeyWorksIff(j, dir.files, listing);
      }
      err := dir.RekeyFiles(j, listing);
      if err != OK {
        return;
      }
      if NothingFails(works) {
        RekeyedOutright(j, old(dir.files), dir.files, listing);
      }
      SuccessMovesWhatItMeets(j, old(dir.files), dir.files, listing);
      salt := random.value;
      var verifyKey := kdf(newPass, salt, FOR_AUTH);
      if verifyKey == None {
        return ERR_CRYPTO;
      }
      passHash := verifyKey.value;
      return if saves then OK else ERR_IO;
    }
  }

  /** If nothing but the old salt leads to the hash: the salt that the late failure leaves
      verifies no password at all. */
  lemma LateFailureLocksOut(kdf: Kdf, oldPass: Password, oldSalt: Bytes, newSalt: Bytes, passHash: Bytes)
    requires forall p, s :: kdf(p, s, FOR_AUTH) == Some(passHash) ==> s == oldSalt
    requires kdf(oldPass, oldSalt, FOR_AUTH) == Some(passHash)
    ensures (forall p :: kdf(p, newSalt, FOR_AUTH) != Some(passHash)) <==> newSalt != oldSalt
  {
    if newSalt == oldSalt {
      assert kdf(oldPass, newSalt, FOR_AUTH) == Some(passHash);
    }
  }
}
