/** One file under AES-256-GCM: encrypt_file and decrypt_file
    (c_src/vault/vault_crypto.c:464-732). The cipher is a keystream and a tag function, the
    shape of GCTR and GHASH in sections 7.1 and 7.2 of NIST SP 800-38D. */
module FileCrypto {
  import opened Options
  import FuseCtr
  import opened Sequences

  type Bytes = seq<bv8>

  const IV_LEN: nat := 12
  const TAG_LEN: nat := 16
  const CHUNK: nat := 65536
  const MAX_DECRYPT_SIZE: nat := 512 * 1024 * 1024

  type Key = Bytes

  type Tag = s: Bytes | |s| == TAG_LEN witness seq(TAG_LEN, i => 0)

  type Iv = s: Bytes | |s| == IV_LEN witness seq(IV_LEN, i => 0)

  /** What the library computes: byte `i` of the keystream, and the tag of a ciphertext. */
  datatype Gcm = Gcm(stream: (Key, Iv, nat) -> bv8, tag: (Key, Iv, Bytes) -> Tag)

  /** One-shot GCTR from position `at` on. */
  function Crypt(g: Gcm, k: Key, iv: Iv, at: nat, s: Bytes): (r: Bytes)
    ensures |r| == |s|
  {
    seq(|s|, i requires 0 <= i < |s| => s[i] ^ g.stream(k, iv, at + i))
  }

  /** The file that encrypt_file leaves: iv, ciphertext, tag. */
  function Seal(g: Gcm, k: Key, iv: Iv, plain: Bytes): Bytes {
    var ct := Crypt(g, k, iv, 0, plain);
    iv + ct + g.tag(k, iv, ct)
  }

  /** What decrypt_file makes of a file. */
  function Open(g: Gcm, k: Key, file: Bytes): Option<Bytes> {
    if |file| < IV_LEN + TAG_LEN || |file| > MAX_DECRYPT_SIZE then None
    else
      var iv, ct, tag := file[..IV_LEN], file[IV_LEN..|file| - TAG_LEN], file[|file| - TAG_LEN..];
      if g.tag(k, iv, ct) == tag then Some(Crypt(g, k, iv, 0, ct)) else None
  }

  lemma CryptTwice(g: Gcm, k: Key, iv: Iv, at: nat, s: Bytes)
    ensures Crypt(g, k, iv, at, Crypt(g, k, iv, at, s)) == s
  {
    forall i | 0 <= i < |s|
      ensures Crypt(g, k, iv, at, Crypt(g, k, iv, at, s))[i] == s[i]
    {
      FuseCtr.XorTwice(s[i], g.stream(k, iv, at + i));
    }
  }

  /** Parts crypted in turn are the whole crypted at once. */
  lemma CryptConcat(g: Gcm, k: Key, iv: Iv, at: nat, s: Bytes, t: Bytes)
    ensures Crypt(g, k, iv, at, s + t) == Crypt(g, k, iv, at, s) + Crypt(g, k, iv, at + |s|, t)
  {
    forall i | 0 <= i < |s + t|
      ensures Crypt(g, k, iv, at, s + t)[i] == (Crypt(g, k, iv, at, s) + Crypt(g, k, iv, at + |s|, t))[i]
    {
      if i >= |s| {
        assert at + |s| + (i - |s|) == at + i;
      }
    }
  }

  lemma SealParts(g: Gcm, k: Key, iv: Iv, plain: Bytes)
    ensures var f, ct := Seal(g, k, iv, plain), Crypt(g, k, iv, 0, plain);
            && |f| == |plain| + IV_LEN + TAG_LEN
            && f[..IV_LEN] == iv && f[IV_LEN..|f| - TAG_LEN] == ct && f[|f| - TAG_LEN..] == g.tag(k, iv, ct)
  {
  }

  /** What was sealed opens again exactly if the file is not over the size limit. */
  lemma OpenSeal(g: Gcm, k: Key, iv: Iv, plain: Bytes)
    ensures Open(g, k, Seal(g, k, iv, plain)) ==
            if |plain| + IV_LEN + TAG_LEN <= MAX_DECRYPT_SIZE then Some(plain) else None
  {
    SealParts(g, k, iv, plain);
    CryptTwice(g, k, iv, 0, plain);
  }

  /** Only what was sealed opens: the file is the sealing of what comes out of it. */
  lemma OnlySealedOpens(g: Gcm, k: Key, file: Bytes)
    requires Open(g, k, file).Some?
    ensures IV_LEN <= |file| && file == Seal(g, k, file[..IV_LEN], Open(g, k, file).value)
  {
    var iv, ct := file[..IV_LEN], file[IV_LEN..|file| - TAG_LEN];
    CryptTwice(g, k, iv, 0, ct);
    assert file == iv + ct + file[|file| - TAG_LEN..];
  }

  /** What opens under any key is as long as the file without iv and tag. */
  lemma OpenLength(g: Gcm, k: Key, file: Bytes)
    ensures Open(g, k, file).Some? ==> |Open(g, k, file).value| == |file| - IV_LEN - TAG_LEN
  {
  }

  // ---- What success leaves on the disk --------------------------------------------------

  /** How much of its input encrypt_file reads and how much of its output reaches the disk when
      it reports success: it takes a read error for the end of the input (line 509), and no
      one looks whether the last flush works (line 552). */
  datatype Passed = Passed(read: nat, kept: nat)

  /** The file that is left then. */
  function Stored(g: Gcm, k: Key, iv: Iv, plain: Bytes, p: Passed): Bytes {
    Front(Seal(g, k, iv, Front(plain, p.read)), p.kept)
  }

  /** Everything was read and everything arrived. */
  predicate IsWhole(plain: Bytes, p: Passed) { |plain| <= p.read && |plain| + IV_LEN + TAG_LEN <= p.kept }

  /** What did not arrive whole is too short to open to the plaintext under any key. */
  lemma ShortDoesNotOpen(g: Gcm, k: Key, iv: Iv, plain: Bytes, p: Passed, other: Key)
    ensures IsWhole(plain, p) ==> Stored(g, k, iv, plain, p) == Seal(g, k, iv, plain)
    ensures !IsWhole(plain, p) ==> |Stored(g, k, iv, plain, p)| < |plain| + IV_LEN + TAG_LEN
    ensures !IsWhole(plain, p) ==> Open(g, other, Stored(g, k, iv, plain, p)) != Some(plain)
  {
    SealParts(g, k, iv, Front(plain, p.read));
    OpenLength(g, other, Stored(g, k, iv, plain, p));
  }

  /** The bytes of a whole file: iv, each plaintext byte under its key byte, tag. */
  predicate IsSealingOf(g: Gcm, k: Key, iv: Bytes, plain: Bytes, f: Bytes) {
    var n := |plain|;
    && |f| == 12 + n + 16 && |iv| == 12 && f[..12] == iv
    && (forall i :: 0 <= i < n ==> f[12 + i] == plain[i] ^ g.stream(k, iv, i))
    && f[12 + n..] == g.tag(k, iv, f[12..12 + n])
  }

  /** The tag is right, and the file has a size that decryption takes. */
  predicate Authentic(g: Gcm, k: Key, file: Bytes) {
    28 <= |file| <= 536870912 && g.tag(k, file[..12], file[12..|file| - 16]) == file[|file| - 16..]
  }

  lemma StoredBytes(g: Gcm, k: Key, iv: Iv, plain: Bytes, p: Passed)
    requires |plain| <= p.read && |plain| + IV_LEN + TAG_LEN <= p.kept
    ensures IsSealingOf(g, k, iv, plain, Stored(g, k, iv, plain, p))
  {
    ShortDoesNotOpen(g, k, iv, plain, p, k);
    SealParts(g, k, iv, plain);
    var f, ct := Stored(g, k, iv, plain, p), Crypt(g, k, iv, 0, plain);
    assert f[IV_LEN..IV_LEN + |plain|] == ct;
    forall i | 0 <= i < |plain|
      ensures f[IV_LEN + i] == plain[i] ^ g.stream(k, iv, i)
    {
      assert f[IV_LEN + i] == f[IV_LEN..IV_LEN + |plain|][i] == ct[i];
      assert 0 + i == i;
    }
  }

  /** When a file opens, and to what. */
  lemma OpenBytes(g: Gcm, k: Key, file: Bytes)
    ensures Open(g, k, file).Some? <==> Authentic(g, k, file)
    ensures Open(g, k, file).Some? ==>
              && |Open(g, k, file).value| == |file| - 28
              && forall i :: 0 <= i < |file| - 28 ==> Open(g, k, file).value[i] == file[12 + i] ^ g.stream(k, file[..12], i)
    ensures Open(g, k, file).Some? ==> IsSealingOf(g, k, file[..12], Open(g, k, file).value, file)
  {
    OpenLength(g, k, file);
    if Open(g, k, file).Some? {
      forall i | 0 <= i < |Open(g, k, file).value|
        ensures Open(g, k, file).value[i] == file[12 + i] ^ g.stream(k, file[..12], i)
        ensures file[12 + i] == Open(g, k, file).value[i] ^ g.stream(k, file[..12], i)
      {
        assert file[IV_LEN..|file| - TAG_LEN][i] == file[IV_LEN + i];
        assert 0 + i == i;
        FuseCtr.XorTwice(file[12 + i], g.stream(k, file[..12], i));
      }
    }
  }

  // ---- The streaming interface and the chunk loops --------------------------------------

  /** An EVP context: bytes go through in pieces of any size, the tag comes last. */
  class GcmContext {
    const g: Gcm
    const key: Key
    const iv: Iv
    /** The ciphertext that has gone through. */
    var seen: Bytes

    constructor (g: Gcm, key: Key, iv: Iv)
      ensures this.g == g && this.key == key && this.iv == iv && seen == []
    {
      this.g, this.key, this.iv, seen := g, key, iv, [];
    }

    method EncryptUpdate(part: Bytes) returns (out: Bytes)
      modifies this
      ensures out == Crypt(g, key, iv, |old(seen)|, part) && seen == old(seen) + out
    {
      out := Crypt(g, key, iv, |seen|, part);
      seen := seen + out;
    }

    method DecryptUpdate(part: Bytes) returns (out: Bytes)
      modifies this
      ensures out == Crypt(g, key, iv, |old(seen)|, part) && seen == old(seen) + part
    {
      out := Crypt(g, key, iv, |seen|, part);
      seen := seen + part;
    }

    method Tag() returns (tag: Tag)
      ensures tag == g.tag(key, iv, seen)
    {
      tag := g.tag(key, iv, seen);
    }
  }

  /** encrypt_file when it reports success: 64 KiB pieces add up to one sealing of what was
      read, of which the disk keeps a part. */
  method EncryptFile(g: Gcm, key: Key, iv: Iv, input: Bytes, passed: Passed) returns (fout: Bytes)
    ensures fout == Stored(g, key, iv, input, passed)
    ensures |input| <= passed.read && |input| + IV_LEN + TAG_LEN <= passed.kept ==>
              var n := |input|;
              && |fout| == 12 + n + 16 && fout[..12] == iv
              && (forall i :: 0 <= i < n ==> fout[12 + i] == input[i] ^ g.stream(key, iv, i))
              && fout[12 + n..] == g.tag(key, iv, fout[12..12 + n])
  {
    var fin := Front(input, passed.read);
    fout := iv;
    var ctx := new GcmContext(g, key, iv);
    var offset := 0;
    while offset < |fin|
      invariant offset <= |fin| && ctx.g == g && ctx.key == key && ctx.iv == iv
      invariant ctx.seen == Crypt(g, key, iv, 0, fin[..offset])
      invariant fout == iv + ctx.seen
    {
      var n := if |fin| - offset < CHUNK then |fin| - offset else CHUNK;
      var out := ctx.EncryptUpdate(fin[offset..offset + n]);
      assert fin[..offset + n] == fin[..offset] + fin[offset..offset + n];
      CryptConcat(g, key, iv, 0, fin[..offset], fin[offset..offset + n]);
      fout := fout + out;
      offset := offset + n;
    }
    assert fin[..offset] == fin;
    var tag := ctx.Tag();
    fout := Front(fout + tag, passed.kept);
    if |input| <= passed.read && |input| + IV_LEN + TAG_LEN <= passed.kept {
      StoredBytes(g, key, iv, input, passed);
    }
  }

  /** decrypt_file when no I/O error is reported: there is an output only if the tag is right,
      and the disk keeps a part of it. */
  method DecryptFile(g: Gcm, key: Key, fin: Bytes, kept: nat) returns (r: Option<Bytes>)
    ensures match Open(g, key, fin)
            case None => r == None
            case Some(plain) => r == Some(Front(plain, kept))
    ensures r.Some? <==>
            28 <= |fin| <= 536870912 && g.tag(key, fin[..12], fin[12..|fin| - 16]) == fin[|fin| - 16..]
    ensures r.Some? ==>
              && |r.value| == (if |fin| - 28 <= kept then |fin| - 28 else kept)
              && forall i :: 0 <= i < |r.value| ==> r.value[i] == fin[12 + i] ^ g.stream(key, fin[..12], i)
  {
    OpenBytes(g, key, fin);
    OpenLength(g, key, fin);
    if |fin| < IV_LEN + TAG_LEN {
      return None;
    }
    if |fin| > MAX_DECRYPT_SIZE {
      return None;
    }
    var ct := fin[IV_LEN..|fin| - TAG_LEN];
    var ctx := new GcmContext(g, key, fin[..IV_LEN]);
    var fout: Bytes := [];
    var offset := 0;
    while offset < |ct|
      invariant offset <= |ct| && ctx.g == g && ctx.key == key && ctx.iv == fin[..IV_LEN]
      invariant ctx.seen == ct[..offset]
      invariant fout == Crypt(g, key, ctx.iv, 0, ct[..offset])
    {
      var chunk := |ct| - offset;
      if chunk > CHUNK {
        chunk := CHUNK;
      }
      var out := ctx.DecryptUpdate(ct[offset..offset + chunk]);
      assert ct[..offset + chunk] == ct[..offset] + ct[offset..offset + chunk];
      CryptConcat(g, key, ctx.iv, 0, ct[..offset], ct[offset..offset + chunk]);
      fout := fout + out;
      offset := offset + chunk;
    }
    assert ct[..offset] == ct;
    var tag := ctx.Tag();
    if tag != fin[|fin| - TAG_LEN..] {
      return None;
    }
    return Some(Front(fout, kept));
  }
}
