/** Encrypting and decrypting a whole vault directory: the loops of vault_encrypt_ffi and
    vault_decrypt_ffi (c_src/vault/vault_ffi.c:231-409). */
module VaultSealing {
  import opened Options
  import opened FileCrypto
  import opened Sequences
  import opened VaultRekey

  /** The longest name a directory takes; a character stands for a byte. */
  const NAME_MAX: nat := 255

  /** One pass over a directory: the cipher, the process, how I/O goes, the key and fresh ivs. */
  datatype Pass = Pass(g: Gcm, pid: string, works: Works, key: Key, ivs: Name -> Iv)

  // ---- The loops ------------------------------------------------------------------------

  /** A name that encryption takes up: what stat calls a regular file. */
  predicate Target(files: Files, n: Name) {
    n != "" && n[0] != '.' && !IsEnc(n) && n in files && !files[n].Other?
  }

  function EncName(n: Name): Name { n + ".enc" }

  function Base(n: Name): Name
    requires IsEnc(n)
  {
    n[..|n| - 4]
  }

  lemma EncBase(n: Name)
    ensures n != "" ==> IsEnc(EncName(n)) && Base(EncName(n)) == n
    ensures IsEnc(n) ==> Base(n) != "" && EncName(Base(n)) == n
  {
    if n != "" {
      assert EncName(n)[|n|..] == ".enc";
    }
  }

  /** encrypt_file next to the plaintext, which is removed when it reports success. The output
      goes through a link that has its name; a failure removes the output, and an output whose
      name is too long is never there. */
  function EncryptOne(p: Pass, files: Files, n: Name): Files {
    if !Target(files, n) || !p.works.stats(n) then files
    else
      var out := EncName(n);
      if |out| > NAME_MAX || (out in files && files[out].Other?) then files
      else if p.works.encrypt(n) == None then files - {out}
      else
        var stored := Stored(p.g, p.key, p.ivs(n), files[n].bytes, p.works.encrypt(n).value);
        files[out := if out in files && files[out].LinkTo? then LinkTo(stored) else File(stored)] - {n}
  }

  function EncryptAll(p: Pass, files: Files, listing: seq<Name>): Files {
    if listing == [] then files
    else EncryptOne(p, EncryptAll(p, files, listing[..|listing| - 1]), listing[|listing| - 1])
  }

  /** decrypt_file next to the ciphertext, which is removed when it reports success; a link or
      a directory that has the plaintext's name is left alone, and a temporary name that is too
      long is an error. */
  function DecryptOne(p: Pass, files: Files, n: Name): Files {
    if !IsEnc(n) || n !in files || files[n].Other? || !p.works.stats(n) then files
    else
      var out, tmp := Base(n), OutTmpName(Base(n), p.pid);
      var plain := Open(p.g, p.key, files[n].bytes);
      if out in files && files[out].LinkTo? then files
      else if |tmp| > NAME_MAX || (tmp in files && !files[tmp].File?) then files
      else if plain == None || p.works.decrypt(n) == None || (out in files && files[out].Other?) then files - {tmp}
      else (files - {tmp})[out := File(Front(plain.value, p.works.decrypt(n).value))] - {n}
  }

  function DecryptAll(p: Pass, files: Files, listing: seq<Name>): Files {
    if listing == [] then files
    else DecryptOne(p, DecryptAll(p, files, listing[..|listing| - 1]), listing[|listing| - 1])
  }

  class VaultFolder {
    var files: Files

    constructor (files: Files)
      ensures this.files == files
    {
      this.files := files;
    }

    /** Lines 278-301 of vault_encrypt_ffi. */
    method Encrypt(p: Pass, listing: seq<Name>)
      modifies this
      ensures files == EncryptAll(p, old(files), listing)
    {
      for k := 0 to |listing|
        invariant files == EncryptAll(p, old(files), listing[..k])
      {
        assert listing[..k + 1][..k] == listing[..k];
        var n := listing[k];
        if n != "" && n[0] != '.' && !IsEnc(n) && p.works.stats(n) && n in files && !files[n].Other? {
          var out := EncName(n);
          if |out| <= NAME_MAX && !(out in files && files[out].Other?) {
            if p.works.encrypt(n).Some? {
              var stored := EncryptFile(p.g, p.key, p.ivs(n), files[n].bytes, p.works.encrypt(n).value);
              files := files[out := if out in files && files[out].LinkTo? then LinkTo(stored) else File(stored)];
              files := files - {n};
            } else {
              files := files - {out};
            }
          }
        }
      }
      assert listing[..|listing|] == listing;
    }

    /** Lines 373-396 of vault_decrypt_ffi. */
    method Decrypt(p: Pass, listing: seq<Name>)
      modifies this
      ensures files == DecryptAll(p, old(files), listing)
    {
      for k := 0 to |listing|
        invariant files == DecryptAll(p, old(files), listing[..k])
      {
        assert listing[..k + 1][..k] == listing[..k];
        var n := listing[k];
        if IsEnc(n) && p.works.stats(n) && n in files && !files[n].Other? {
          var out, tmp := Base(n), OutTmpName(Base(n), p.pid);
          if !(out in files && files[out].LinkTo?) && |tmp| <= NAME_MAX && !(tmp in files && !files[tmp].File?) {
            var plain: Option<Bytes> := None;
            if p.works.decrypt(n).Some? {
              plain := DecryptFile(p.g, p.key, files[n].bytes, p.works.decrypt(n).value);
            }
            if plain.Some? && !(out in files && files[out].Other?) {
              files := (files - {tmp})[out := File(plain.value)];
              files := files - {n};
            } else {
              files := files - {tmp};
            }
          }
        }
      }
      assert listing[..|listing|] == listing;
    }
  }

  // ---- What becomes of one plaintext ----------------------------------------------------

  /** A target whose encrypted name is not too long. */
  predicate Goes(files: Files, n: Name) { Target(files, n) && |EncName(n)| <= NAME_MAX }

  /** An encryption that reports success removes the plaintext. What it leaves opens to it
      exactly if all was read, all arrived and the size is within the limit of decryption; what
      did not arrive whole opens to it under no key. */
  lemma PlaintextIsKeptIff(p: Pass, files: Files, n: Name, key: Key)
    requires Goes(files, n) && p.works.stats(n) && p.works.encrypt(n).Some?
    requires EncName(n) in files ==> !files[EncName(n)].Other?
    ensures var now, plain, passed := EncryptOne(p, files, n), files[n].bytes, p.works.encrypt(n).value;
            && n !in now && EncName(n) in now && !now[EncName(n)].Other?
            && (Open(p.g, p.key, now[EncName(n)].bytes) == Some(plain) <==>
                IsWhole(plain, passed) && |plain| + IV_LEN + TAG_LEN <= MAX_DECRYPT_SIZE)
            && (!IsWhole(plain, passed) ==> Open(p.g, key, now[EncName(n)].bytes) != Some(plain))
  {
    var plain, passed := files[n].bytes, p.works.encrypt(n).value;
    assert EncName(n) != n;
    ShortDoesNotOpen(p.g, p.key, p.ivs(n), plain, passed, key);
    ShortDoesNotOpen(p.g, p.key, p.ivs(n), plain, passed, p.key);
    OpenSeal(p.g, p.key, p.ivs(n), plain);
  }

  /** A file that cannot be looked at, or an encryption that reports failure, leaves the
      plaintext where it was. */
  lemma FailureKeepsPlaintext(p: Pass, files: Files, n: Name)
    requires Target(files, n) && !(p.works.stats(n) && p.works.encrypt(n).Some?)
    ensures SameAt(files, EncryptOne(p, files, n), n)
  {
    assert EncName(n) != n;
  }

  // ---- There and back -------------------------------------------------------------------

  /** No call reports an error. */
  ghost predicate NoErrors(p: Pass) {
    forall n: Name :: p.works.stats(n) && p.works.encrypt(n).Some? && p.works.decrypt(n).Some?
  }

  ghost predicate NoEnc(files: Files) { forall n :: n in files ==> !IsEnc(n) }

  ghost predicate NoTemps(files: Files, pid: string) { forall n :: n in files ==> !IsTemp(n, pid) }

  /** What a target's encryption leaves on the disk. */
  function SealedAs(p: Pass, files: Files, n: Name): Bytes
    requires Goes(files, n) && p.works.encrypt(n).Some?
  {
    Stored(p.g, p.key, p.ivs(n), files[n].bytes, p.works.encrypt(n).value)
  }

  /** Encryption has been through the names `done`. */
  ghost predicate EncryptedAt(p: Pass, files: Files, now: Files, done: seq<Name>, m: Name)
    requires NoErrors(p)
  {
    if IsEnc(m) then
      if Base(m) in done && Goes(files, Base(m)) then m in now && now[m] == File(SealedAs(p, files, Base(m)))
      else m !in now
    else if m in done && Goes(files, m) then m !in now
    else SameAt(files, now, m)
  }

  lemma EncryptStep(p: Pass, files: Files, now: Files, done: seq<Name>, n: Name)
    requires NoErrors(p) && forall m :: EncryptedAt(p, files, now, done, m)
    ensures forall m :: EncryptedAt(p, files, EncryptOne(p, now, n), done + [n], m)
  {
    var next := EncryptOne(p, now, n);
    assert EncryptedAt(p, files, now, done, n);
    EncBase(n);
    if Target(now, n) {
      assert EncryptedAt(p, files, now, done, EncName(n));
    }
    forall m
      ensures EncryptedAt(p, files, next, done + [n], m)
    {
      EncBase(m);
      assert EncryptedAt(p, files, now, done, m);
    }
  }

  lemma {:induction false} EncryptAllAt(p: Pass, files: Files, listing: seq<Name>)
    requires NoErrors(p) && NoEnc(files)
    ensures forall m :: EncryptedAt(p, files, EncryptAll(p, files, listing), listing, m)
  {
    if listing != [] {
      var k := |listing| - 1;
      EncryptAllAt(p, files, listing[..k]);
      EncryptStep(p, files, EncryptAll(p, files, listing[..k]), listing[..k], listing[k]);
      assert listing[..k] + [listing[k]] == listing;
    }
  }

  /** A regular file without a dot in front and with a name of at most 251 characters, all of
      which is read and arrives, is afterwards under its .enc name, byte by byte as sealed. */
  lemma PlainFileIsSealed(p: Pass, files: Files, listing: seq<Name>, n: Name)
    requires NoErrors(p) && NoEnc(files) && n in listing && n in files && !files[n].Other?
    requires 1 <= |n| <= 251 && n[0] != '.'
    requires |files[n].bytes| <= p.works.encrypt(n).value.read && |files[n].bytes| + 28 <= p.works.encrypt(n).value.kept
    ensures var now := EncryptAll(p, files, listing);
            && n !in now && n + ".enc" in now && now[n + ".enc"].File?
            && IsSealingOf(p.g, p.key, p.ivs(n), files[n].bytes, now[n + ".enc"].bytes)
  {
    var now := EncryptAll(p, files, listing);
    EncryptAllAt(p, files, listing);
    EncBase(n);
    assert EncryptedAt(p, files, now, listing, n) && EncryptedAt(p, files, now, listing, EncName(n));
    StoredBytes(p.g, p.key, p.ivs(n), files[n].bytes, p.works.encrypt(n).value);
  }

  /** Anything else stays as it is. */
  lemma OtherEntryStays(p: Pass, files: Files, listing: seq<Name>, n: Name)
    requires NoErrors(p) && NoEnc(files) && n in files
    requires n !in listing || files[n].Other? || n == "" || |n| > 251 || n[0] == '.'
    ensures var now := EncryptAll(p, files, listing); n in now && now[n] == files[n]
  {
    EncryptAllAt(p, files, listing);
    assert EncryptedAt(p, files, EncryptAll(p, files, listing), listing, n);
  }

  /** A sealed file whose tag is right comes out under its name without .enc, each byte under
      its key byte, and one whose tag is wrong stays as it is. */
  lemma SealedFileComesOut(p: Pass, files: Files, n: Name)
    requires n != "" && n + ".enc" in files && files[n + ".enc"].File? && n !in files
    requires |n + ".tmp." + p.pid| <= 255 && n + ".tmp." + p.pid !in files && !IsEnc(n + ".tmp." + p.pid)
    requires p.works.stats(n + ".enc") && p.works.decrypt(n + ".enc").Some?
    requires |files[n + ".enc"].bytes| <= p.works.decrypt(n + ".enc").value
    ensures var sealed, now := files[n + ".enc"].bytes, DecryptOne(p, files, n + ".enc");
            if Authentic(p.g, p.key, sealed) then
              && now.Keys == files.Keys - {n + ".enc"} + {n}
              && now[n].File? && |now[n].bytes| == |sealed| - 28
              && (forall i :: 0 <= i < |sealed| - 28 ==>
                    now[n].bytes[i] == sealed[12 + i] ^ p.g.stream(p.key, sealed[..12], i))
              && forall m :: m in files && m != n + ".enc" ==> now[m] == files[m]
            else now == files
  {
    EncBase(n);
    assert n + ".tmp." + p.pid == OutTmpName(n, p.pid);
    assert files - {OutTmpName(n, p.pid)} == files;
    OpenBytes(p.g, p.key, files[n + ".enc"].bytes);
  }

  /** What decryption makes of an encrypted target: nothing if its temporary name is too long
      or the file does not open, and else what reaches the disk. */
  ghost function ComesBack(p: Pass, files: Files, n: Name): Option<Bytes>
    requires NoErrors(p) && Goes(files, n)
  {
    var plain := Open(p.g, p.key, SealedAs(p, files, n));
    if |OutTmpName(n, p.pid)| > NAME_MAX || plain == None then None
    else Some(Front(plain.value, p.works.decrypt(EncName(n)).value))
  }

  /** A target survives the trip: its content is within the size limit of decryption, its
      temporary name is not too long, and all of it reached the disk both times. */
  ghost predicate Survives(p: Pass, files: Files, n: Name)
    requires NoErrors(p) && Goes(files, n)
  {
    var plain := files[n].bytes;
    && |plain| + IV_LEN + TAG_LEN <= MAX_DECRYPT_SIZE && |OutTmpName(n, p.pid)| <= NAME_MAX
    && IsWhole(plain, p.works.encrypt(n).value) && |plain| <= p.works.decrypt(EncName(n)).value
  }

  lemma ComesBackIff(p: Pass, files: Files, n: Name)
    requires NoErrors(p) && Goes(files, n)
    ensures ComesBack(p, files, n) == Some(files[n].bytes) <==> Survives(p, files, n)
  {
    var plain, passed := files[n].bytes, p.works.encrypt(n).value;
    ShortDoesNotOpen(p.g, p.key, p.ivs(n), plain, passed, p.key);
    OpenSeal(p.g, p.key, p.ivs(n), plain);
    OpenLength(p.g, p.key, SealedAs(p, files, n));
  }

  /** Decryption has been through the names `done`. */
  ghost predicate DecryptedAt(p: Pass, files: Files, sealed: Files, now: Files, done: seq<Name>, m: Name)
    requires NoErrors(p)
  {
    if IsEnc(m) then
      if m in done && Goes(files, Base(m)) && ComesBack(p, files, Base(m)).Some? then m !in now
      else SameAt(sealed, now, m)
    else if EncName(m) in done && Goes(files, m) && ComesBack(p, files, m).Some? then
      m in now && now[m] == File(ComesBack(p, files, m).value)
    else SameAt(sealed, now, m)
  }

  /** Every target is sealed, and nothing else changed. */
  ghost predicate IsSealing(p: Pass, files: Files, sealed: Files, listing: seq<Name>)
    requires NoErrors(p)
  {
    && (forall n :: n in files ==> n in listing)
    && forall m :: EncryptedAt(p, files, sealed, listing, m)
  }

  lemma NoTempInTheWay(p: Pass, files: Files, sealed: Files, listing: seq<Name>, now: Files, done: seq<Name>, t: Name)
    requires NoErrors(p) && IsPid(p.pid) && NoTemps(files, p.pid) && IsSealing(p, files, sealed, listing)
    requires forall m :: DecryptedAt(p, files, sealed, now, done, m)
    requires IsTemp(t, p.pid)
    ensures t !in now
  {
    TempsAreNotEnc(t, p.pid);
    assert DecryptedAt(p, files, sealed, now, done, t) && EncryptedAt(p, files, sealed, listing, t);
  }

  /** What one turn of the loop does to a sealed target. */
  lemma DecryptTurn(p: Pass, files: Files, sealed: Files, listing: seq<Name>, now: Files, done: seq<Name>, n: Name)
    requires NoErrors(p) && IsPid(p.pid) && NoTemps(files, p.pid) && IsSealing(p, files, sealed, listing)
    requires forall m :: DecryptedAt(p, files, sealed, now, done, m)
    requires IsEnc(n) && n in now
    ensures Goes(files, Base(n))
    ensures DecryptOne(p, now, n) ==
            if ComesBack(p, files, Base(n)).Some? then now[Base(n) := File(ComesBack(p, files, Base(n)).value)] - {n} else now
  {
    var b := Base(n);
    var tmp := OutTmpName(b, p.pid);
    EncBase(n);
    assert DecryptedAt(p, files, sealed, now, done, n) && EncryptedAt(p, files, sealed, listing, n);
    NoTempInTheWay(p, files, sealed, listing, now, done, tmp);
    assert DecryptedAt(p, files, sealed, now, done, b) && EncryptedAt(p, files, sealed, listing, b);
    assert now - {tmp} == now;
  }

  lemma DecryptStep(p: Pass, files: Files, sealed: Files, listing: seq<Name>, now: Files, done: seq<Name>, n: Name)
    requires NoErrors(p) && IsPid(p.pid) && NoTemps(files, p.pid) && IsSealing(p, files, sealed, listing)
    requires forall m :: DecryptedAt(p, files, sealed, now, done, m)
    ensures forall m :: DecryptedAt(p, files, sealed, DecryptOne(p, now, n), done + [n], m)
  {
    var next := DecryptOne(p, now, n);
    EncBase(n);
    assert DecryptedAt(p, files, sealed, now, done, n) && EncryptedAt(p, files, sealed, listing, n);
    if IsEnc(n) && n in now {
      DecryptTurn(p, files, sealed, listing, now, done, n);
    }
    forall m
      ensures DecryptedAt(p, files, sealed, next, done + [n], m)
    {
      EncBase(m);
      assert DecryptedAt(p, files, sealed, now, done, m);
    }
  }

  lemma {:induction false} DecryptAllAt(p: Pass, files: Files, sealed: Files, listing: seq<Name>, again: seq<Name>)
    requires NoErrors(p) && IsPid(p.pid) && NoTemps(files, p.pid) && IsSealing(p, files, sealed, listing)
    ensures forall m :: DecryptedAt(p, files, sealed, DecryptAll(p, sealed, again), again, m)
  {
    if again != [] {
      var k := |again| - 1;
      DecryptAllAt(p, files, sealed, listing, again[..k]);
      DecryptStep(p, files, sealed, listing, DecryptAll(p, sealed, again[..k]), again[..k], again[k]);
      assert again[..k] + [again[k]] == again;
    }
  }

  /** What stat and read see of the directory. */
  function Contents(files: Files): map<Name, Bytes> {
    map n | n in files && !files[n].Other? :: files[n].bytes
  }

  ghost predicate AllSurvive(p: Pass, files: Files)
    requires NoErrors(p)
  {
    forall n :: Goes(files, n) ==> Survives(p, files, n)
  }

  /** A name after both passes. */
  lemma AfterBoth(p: Pass, files: Files, listing: seq<Name>, again: seq<Name>, m: Name)
    requires NoErrors(p) && IsPid(p.pid) && NoTemps(files, p.pid) && NoEnc(files)
    requires ListsAll(listing, files) && ListsAll(again, EncryptAll(p, files, listing))
    ensures var final := DecryptAll(p, EncryptAll(p, files, listing), again);
            if Goes(files, m) then
              match ComesBack(p, files, m)
              case Some(bytes) => m in final && final[m] == File(bytes) && EncName(m) !in final
              case None => m !in final
            else if IsEnc(m) && Goes(files, Base(m)) then ComesBack(p, files, Base(m)).Some? ==> m !in final
            else SameAt(files, final, m)
  {
    var sealed := EncryptAll(p, files, listing);
    EncryptAllAt(p, files, listing);
    assert IsSealing(p, files, sealed, listing);
    DecryptAllAt(p, files, sealed, listing, again);
    var final := DecryptAll(p, sealed, again);
    EncBase(m);
    assert EncryptedAt(p, files, sealed, listing, m) && EncryptedAt(p, files, sealed, listing, EncName(m));
    assert DecryptedAt(p, files, sealed, final, again, m) && DecryptedAt(p, files, sealed, final, again, EncName(m));
  }

  /** Encrypting a directory without .enc names and decrypting it again, with no call
      reporting an error, gives back the same names with the same contents exactly if every
      file that is encrypted survives the trip. The two listings may come in any order. */
  lemma ThereAndBack(p: Pass, files: Files, listing: seq<Name>, again: seq<Name>)
    requires NoErrors(p) && IsPid(p.pid) && NoTemps(files, p.pid) && NoEnc(files)
    requires ListsAll(listing, files) && ListsAll(again, EncryptAll(p, files, listing))
    ensures Contents(DecryptAll(p, EncryptAll(p, files, listing), again)) == Contents(files) <==> AllSurvive(p, files)
  {
    var final := DecryptAll(p, EncryptAll(p, files, listing), again);
    forall m
      ensures Goes(files, m) ==> (Survives(p, files, m) <==> m in final && final[m] == File(files[m].bytes))
      ensures Goes(files, m) ==> m !in final || final[m].File?
      ensures AllSurvive(p, files) ==> (m in Contents(final) <==> m in Contents(files))
      ensures AllSurvive(p, files) && m in Contents(files) ==> Contents(final)[m] == Contents(files)[m]
    {
      AfterBoth(p, files, listing, again, m);
      EncBase(m);
      if Goes(files, m) {
        ComesBackIff(p, files, m);
      } else if IsEnc(m) && Goes(files, Base(m)) {
        ComesBackIff(p, files, Base(m));
      }
    }
    if AllSurvive(p, files) {
      assert Contents(final) == Contents(files);
    } else {
      var n :| Goes(files, n) && !Survives(p, files, n);
      assert n in Contents(files);
      assert n in final ==> final[n].File? && Contents(final)[n] == final[n].bytes;
    }
  }

  /** One name's encryption leaves another name and its namesake alone. */
  lemma OthersStay(p: Pass, files: Files, m: Name, n: Name)
    requires m != n && !IsEnc(n) && n != ""
    ensures SameAt(files, EncryptOne(p, files, m), n)
    ensures SameAt(files, EncryptOne(p, files, m), EncName(n))
  {
    EncBase(m);
    EncBase(n);
    assert Target(files, m) ==> EncName(m) != EncName(n) && EncName(m) != n && m != EncName(n);
  }

  /** A file that was there under the .enc name of another one is lost when that one is
      encrypted, in whatever order the loop comes by: its place is taken by the encryption. */
  lemma {:induction false} NamesakeIsLost(p: Pass, files: Files, listing: seq<Name>, n: Name)
    requires Goes(files, n) && p.works.stats(n) && p.works.encrypt(n).Some?
    requires EncName(n) in files && files[EncName(n)].File?
    ensures var now := EncryptAll(p, files, listing);
            if n in listing then n !in now && EncName(n) in now && now[EncName(n)] == File(SealedAs(p, files, n))
            else SameAt(files, now, n) && SameAt(files, now, EncName(n))
  {
    if listing != [] {
      var k := |listing| - 1;
      NamesakeIsLost(p, files, listing[..k], n);
      assert listing == listing[..k] + [listing[k]];
      assert EncName(n) != n;
      if listing[k] != n {
        OthersStay(p, EncryptAll(p, files, listing[..k]), listing[k], n);
      }
    }
  }
}
