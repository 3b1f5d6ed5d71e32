/** The loops of catalog_save and catalog_load over an open file
    (c_src/vault/vault_catalog.c:181-412), against the format of CatalogCodec. */
module CatalogStream {
  import opened Options
  import opened ByteLayout
  import opened CatalogCodec
  import opened Sequences

  // ---- Writing --------------------------------------------------------------------------

  lemma FlattenPush(images: seq<Bytes>, image: Bytes)
    ensures Flatten(images + [image]) == Flatten(images) + image
  {
    assert (images + [image])[..|images|] == images;
  }

  /** Where an entry of a chain comes in the walk. */
  lemma {:induction false} WalkAt(chains: Chains, b: nat, i: nat)
    requires b < |chains| && i < |chains[b]|
    ensures |Flatten(chains[..b])| + i < |Flatten(chains)|
    ensures Flatten(chains)[|Flatten(chains[..b])| + i] == chains[b][i]
  {
    var k := |chains| - 1;
    if b < k {
      assert chains[..k][..b] == chains[..b];
      WalkAt(chains[..k], b, i);
    }
  }

  lemma WalkStep(chains: Chains, b: nat)
    requires b < |chains|
    ensures |Flatten(chains[..b + 1])| == |Flatten(chains[..b])| + |chains[b]|
  {
    assert chains[..b + 1][..b] == chains[..b];
  }

  ghost predicate AllFit(chains: Chains) { forall e :: e in Flatten(chains) ==> FitsEntry(e) }

  /** After `head` the file holds the first `n` entries of the walk. */
  ghost predicate Filed(chains: Chains, head: Bytes, out: Bytes, n: nat) {
    && AllFit(chains) && n <= |Flatten(chains)|
    && out == head + Flatten(EntryImages(Flatten(chains)[..n]))
  }

  lemma NothingFiled(chains: Chains, head: Bytes)
    requires AllFit(chains)
    ensures Filed(chains, head, head, 0)
  {
    assert EntryImages(Flatten(chains)[..0]) == [];
  }

  lemma OneMoreImage(es: seq<Entry>, n: nat)
    requires n < |es| && forall e :: e in es ==> FitsEntry(e)
    ensures Flatten(EntryImages(es[..n + 1])) == Flatten(EntryImages(es[..n])) + PrintEntry(es[n])
  {
    assert EntryImages(es[..n + 1]) == EntryImages(es[..n]) + [PrintEntry(es[n])];
    FlattenPush(EntryImages(es[..n]), PrintEntry(es[n]));
  }

  lemma OneMoreFiled(chains: Chains, head: Bytes, out: Bytes, written: nat, b: nat, i: nat)
    requires Filed(chains, head, out, written)
    requires b < |chains| && i < |chains[b]| && written == |Flatten(chains[..b])| + i
    ensures FitsEntry(chains[b][i]) && Filed(chains, head, out + PrintEntry(chains[b][i]), written + 1)
  {
    WalkAt(chains, b, i);
    OneMoreImage(Flatten(chains), written);
  }

  ghost predicate IsImage(bucketOf: Name -> Bucket, v: Vault, image: Bytes) {
    FitsVault(bucketOf, v) && image == PrintVault(bucketOf, v)
  }

  ghost predicate AreImages(bucketOf: Name -> Bucket, vs: seq<Vault>, images: seq<Bytes>) {
    && |images| == |vs|
    && forall i {:trigger IsImage(bucketOf, vs[i], images[i])} :: 0 <= i < |vs| ==> IsImage(bucketOf, vs[i], images[i])
  }

  lemma PutTogether(s: Bytes, a: Bytes, b: Bytes, c: Bytes, d: Bytes, e: Bytes, f: Bytes)
    ensures s + a + b + c + d + e + f == s + (a + (b + (c + (d + (e + f)))))
  {
  }

  lemma ImageInOrder(bucketOf: Name -> Bucket, c: Catalog)
    requires FitsCatalog(bucketOf, c)
    ensures Image(bucketOf, c, 3) ==
            [] + MAGIC + [3] + Join(HeaderFields(c)) + MacBytes(c, 3) + Flatten(Images(bucketOf, c.vaults))
  {
    var header, mac, vaults := Join(HeaderFields(c)), MacBytes(c, 3), Flatten(Images(bucketOf, c.vaults));
    assert MAGIC + [3] + (header + (mac + vaults)) == [] + MAGIC + [3] + header + mac + vaults;
  }

  class Writer {
    var out: Bytes

    constructor ()
      ensures out == []
    {
      out := [];
    }

    method Put(bytes: Bytes)
      modifies this
      ensures out == old(out) + bytes
    {
      out := out + bytes;
    }

    /** Lines 242-250: the entries of one bucket, until `fcount` are written. */
    method PutChain(chains: Chains, b: nat, fcount: nat, written0: nat, ghost head: Bytes) returns (written: nat)
      requires b < |chains| && written0 == |Flatten(chains[..b])| < fcount && Filed(chains, head, out, written0)
      modifies this
      ensures written <= fcount && (written == fcount || written == |Flatten(chains[..b + 1])|)
      ensures Filed(chains, head, out, written)
    {
      written := written0;
      var i := 0;
      while i < |chains[b]| && written < fcount
        invariant i <= |chains[b]| && written <= fcount && written == written0 + i
        invariant Filed(chains, head, out, written)
      {
        OneMoreFiled(chains, head, out, written, b, i);
        Put(PrintEntry(chains[b][i]));
        written, i := written + 1, i + 1;
      }
      WalkStep(chains, b);
    }

    /** Lines 236-251: the entries, bucket by bucket, until `fcount` are written. */
    method PutFiles(chains: Chains, fcount: nat)
      requires AllFit(chains) && fcount <= |Flatten(chains)|
      modifies this
      ensures Filed(chains, old(out), out, fcount)
    {
      var written, b := 0, 0;
      NothingFiled(chains, out);
      while b < |chains| && written < fcount
        invariant b <= |chains| && written <= fcount
        invariant written == fcount || written == |Flatten(chains[..b])|
        invariant Filed(chains, old(out), out, written)
      {
        written := PutChain(chains, b, fcount, written, old(out));
        b := b + 1;
      }
      assert chains[..|chains|] == chains;
    }

    /** Lines 204-251: one vault. */
    method PutVault(ghost bucketOf: Name -> Bucket, v: Vault)
      requires FitsVault(bucketOf, v)
      modifies this
      ensures out == old(out) + PrintVault(bucketOf, v)
    {
      WalkFits(bucketOf, v.chains, v.count);
      Put(Join(IdentityFields(v.identity)));
      Put(Join(ChecksFields(v.checks)));
      Put(Join(AlertFields(v.alert)));
      Put(Join(AuthFields(v.auth)));
      var fcount := v.count % U32;
      if fcount > FCOUNT_MAX {
        fcount := FCOUNT_MAX;
      }
      Put(Little(4, fcount));
      PutFiles(v.chains, fcount);
      PutTogether(old(out), Join(IdentityFields(v.identity)), Join(ChecksFields(v.checks)), Join(AlertFields(v.alert)),
                  Join(AuthFields(v.auth)), Little(4, fcount), Flatten(EntryImages(Files(bucketOf, v))));
    }

    /** What catalog_save hands to the stream, lines 194-252. */
    method Save(ghost bucketOf: Name -> Bucket, c: Catalog)
      requires FitsCatalog(bucketOf, c) && out == []
      modifies this
      ensures out == Image(bucketOf, c, 3)
    {
      PutHeader(c);
      PutVaults(bucketOf, c.vaults, Images(bucketOf, c.vaults));
      ImageInOrder(bucketOf, c);
    }

    method PutHeader(c: Catalog)
      requires |c.category| == 32 && FitsSigned(1, c.macMode)
      modifies this
      ensures out == old(out) + MAGIC + [3] + Join(HeaderFields(c)) + MacBytes(c, 3)
    {
      Put(MAGIC);
      Put([3]);
      Put(Join(HeaderFields(c)));
      Put(Signed(1, c.macMode));
    }

    /** One turn of the loop, lines 202-252, */
    method PutNth(ghost bucketOf: Name -> Bucket, vs: seq<Vault>, i: nat, ghost images: seq<Bytes>)
      requires AreImages(bucketOf, vs, images) && i < |vs|
      modifies this
      ensures out == old(out) + images[i]
    {
      assert IsImage(bucketOf, vs[i], images[i]);
      PutVault(bucketOf, vs[i]);
    }

    /** and the loop. */
    method PutVaults(ghost bucketOf: Name -> Bucket, vs: seq<Vault>, ghost images: seq<Bytes>)
      requires AreImages(bucketOf, vs, images)
      modifies this
      ensures out == old(out) + Flatten(images)
    {
      for i := 0 to |vs|
        invariant out == old(out) + Flatten(images[..i])
      {
        PutNth(bucketOf, vs, i, images);
        assert images[..i + 1] == images[..i] + [images[i]];
        FlattenPush(images[..i], images[i]);
      }
      assert images[..|vs|] == images;
    }
  }

  /** The catalog file on the disk. */
  class CatalogFile {
    var content: Option<Bytes>

    constructor (content: Option<Bytes>)
      ensures this.content == content
    {
      this.content := content;
    }

    /** catalog_save, lines 181-265: a temporary file is written and renamed into place. No
        fwrite is looked at and no fclose, so only `kept` bytes may have reached the disk when
        success is reported. */
    method Save(ghost bucketOf: Name -> Bucket, c: Catalog, opens: bool, kept: nat, renames: bool) returns (ok: bool)
      requires FitsCatalog(bucketOf, c)
      modifies this
      ensures ok <==> opens && renames
      ensures content == if ok then Some(Front(Image(bucketOf, c, 3), kept)) else old(content)
    {
      if !opens {
        return false;
      }
      var fp := new Writer();
      fp.Save(bucketOf, c);
      if !renames {
        return false;
      }
      content := Some(Front(fp.out, kept));
      return true;
    }
  }

  /** What a save that reports success leaves loads exactly if all of it reached the disk. If
      not, nothing loads, and the old file is gone. */
  lemma SavedLoadsIff(bucketOf: Name -> Bucket, c: Catalog, kept: nat)
    requires FitsCatalog(bucketOf, c)
    ensures var image := Image(bucketOf, c, 3);
            Load(bucketOf, Front(image, kept)) ==
            if |image| <= kept then Loaded(ReloadedCatalog(bucketOf, c, 3)) else Failed
  {
    if |Image(bucketOf, c, 3)| <= kept {
      LoadOfImage(bucketOf, c, 3);
    } else {
      TruncationRejected(bucketOf, c, 3, kept);
    }
  }

  // ---- Reading --------------------------------------------------------------------------

  /** A parse that fails after some records fails as a whole. */
  lemma {:induction false} FailureStays<T>(parse: Bytes -> Option<(T, Bytes)>, k: nat, n: nat, s: Bytes)
    requires k <= n && ParseMany(parse, k, s) == None
    ensures ParseMany(parse, n, s) == None
    decreases n
  {
    if k < n {
      FailureStays(parse, k, n - 1, s);
    }
  }

  /** The whole split, when these fields are read and the rest of the layout is not. */
  function SplitAfter(fields: seq<Bytes>, layout: seq<nat>, s: Bytes): Option<(seq<Bytes>, Bytes)> {
    var tail :- Split(layout, s);
    Some((fields + tail.0, tail.1))
  }

  lemma AfterNoField(layout: seq<nat>, s: Bytes)
    ensures Split(layout, s) == SplitAfter([], layout[0..], s)
  {
    assert layout[0..] == layout;
    if Split(layout, s).Some? {
      assert [] + Split(layout, s).value.0 == Split(layout, s).value.0;
    }
  }

  lemma OneMoreField(fields: seq<Bytes>, layout: seq<nat>, i: nat, s: Bytes)
    requires i < |layout| && layout[i] <= |s|
    ensures SplitAfter(fields, layout[i..], s) == SplitAfter(fields + [s[..layout[i]]], layout[i + 1..], s[layout[i]..])
  {
    assert layout[i..][1..] == layout[i + 1..];
    var tail := Split(layout[i + 1..], s[layout[i]..]);
    if tail.Some? {
      assert fields + ([s[..layout[i]]] + tail.value.0) == fields + [s[..layout[i]]] + tail.value.0;
    }
  }

  lemma OneMoreRecord<T>(parse: Bytes -> Option<(T, Bytes)>, i: nat, n: nat, s: Bytes)
    requires i < n && ParseMany(parse, i, s).Some?
    ensures var (xs, mid) := ParseMany(parse, i, s).value;
            && (parse(mid) == None ==> ParseMany(parse, n, s) == None)
            && (parse(mid).Some? ==> ParseMany(parse, i + 1, s) == Some((xs + [parse(mid).value.0], parse(mid).value.1)))
  {
    if parse(ParseMany(parse, i, s).value.1) == None {
      FailureStays(parse, i + 1, n, s);
    }
  }

  class Reader {
    var rest: Bytes

    constructor (file: Bytes)
      ensures rest == file
    {
      rest := file;
    }

    /** FREAD_CHECK for one field after the other. */
    method Fields(layout: seq<nat>) returns (r: Option<seq<Bytes>>)
      modifies this
      ensures match Split(layout, old(rest))
              case None => r == None
              case Some(p) => r == Some(p.0) && rest == p.1
    {
      var fields: seq<Bytes> := [];
      AfterNoField(layout, rest);
      for i := 0 to |layout|
        invariant Split(layout, old(rest)) == SplitAfter(fields, layout[i..], rest)
      {
        if |rest| < layout[i] {
          return None;
        }
        OneMoreField(fields, layout, i, rest);
        fields, rest := fields + [rest[..layout[i]]], rest[layout[i]..];
      }
      assert fields + [] == fields;
      return Some(fields);
    }

    /** Lines 373-401: the files of a vault, entered in its map one by one. */
    method Files(bucketOf: Name -> Bucket, fcount: nat) returns (r: Option<(Chains, nat)>)
      modifies this
      ensures fcount <= MAX_FILES_PER_VAULT ==>
                match ParseMany(ParseEntry, fcount, old(rest))
                case None => r == None
                case Some(p) => r == Some((Filled(bucketOf, p.0), |Flatten(Filled(bucketOf, p.0))|)) && rest == p.1
      ensures fcount > MAX_FILES_PER_VAULT ==> r == None
    {
      if fcount > MAX_FILES_PER_VAULT {
        return None;
      }
      var chains, count := Empty(), 0;
      ghost var es: seq<Entry> := [];
      WalkEmpty(Empty());
      for f := 0 to fcount
        invariant ParseMany(ParseEntry, f, old(rest)) == Some((es, rest))
        invariant chains == Filled(bucketOf, es) && count == |Flatten(chains)|
      {
        var fields := Fields(ENTRY);
        OneMoreRecord(ParseEntry, f, fcount, old(rest));
        if fields == None {
          return None;
        }
        var e := ToEntry(fields.value);
        InsertCounts(bucketOf, chains, e);
        var b := bucketOf(e.name);
        count := if FindEntry(chains[b], e.name) < |chains[b]| then count else count + 1;
        chains := Insert(bucketOf, chains, e);
        assert (es + [e])[..|es|] == es;
        es := es + [e];
      }
      return Some((chains, count));
    }

    /** Lines 345-404: one vault. */
    method ReadVault(bucketOf: Name -> Bucket) returns (r: Option<Vault>)
      modifies this
      ensures match ParseVault(bucketOf, old(rest))
              case None => r == None
              case Some(p) => r == Some(p.0) && rest == p.1
    {
      var identity := Fields(IDENTITY);
      if identity == None { return None; }
      var checks := Fields(CHECKS);
      if checks == None { return None; }
      var alert := Fields(ALERT);
      if alert == None { return None; }
      var auth := Fields(AUTH);
      if auth == None { return None; }
      var count := Fields([4]);
      if count == None { return None; }
      FieldSizes(count.value, [4]);
      var files := Files(bucketOf, Number(count.value[0]));
      if files == None { return None; }
      return Some(Vault(ToIdentity(identity.value), ToChecks(checks.value), ToAlert(alert.value), ToAuth(auth.value),
                        files.value.0, files.value.1));
    }

    /** catalog_load, lines 287-411, of a file that exists. */
    method LoadCatalog(bucketOf: Name -> Bucket) returns (r: LoadResult)
      modifies this
      ensures r == Load(bucketOf, old(rest))
    {
      if |rest| < 5 || rest[..4] != MAGIC {
        return Failed;
      }
      var ver := rest[4];
      rest := rest[5..];
      if ver != 3 && ver != 2 {
        return Fresh;
      }
      var header := Fields(HEADER);
      if header == None { return Failed; }
      var mac := Fields(if ver >= 3 then [1] else []);
      if mac == None { return Failed; }
      FieldSizes(header.value, HEADER);
      FieldSizes(mac.value, if ver >= 3 then [1] else []);
      var count := Number(header.value[0]);
      if count > MAX_VAULTS {
        return Failed;
      }
      var vs := ReadVaults(bucketOf, count);
      if vs == None { return Failed; }
      return Loaded(Catalog(Number(header.value[1]), header.value[2],
                            if ver >= 3 then Sign(1, Number(mac.value[0])) else -1, vs.value));
    }

    method ReadVaults(bucketOf: Name -> Bucket, count: nat) returns (r: Option<seq<Vault>>)
      modifies this
      ensures match ParseMany(VaultParser(bucketOf), count, old(rest))
              case None => r == None
              case Some(p) => r == Some(p.0) && rest == p.1
    {
      var vs: seq<Vault> := [];
      for i := 0 to count
        invariant ParseMany(VaultParser(bucketOf), i, old(rest)) == Some((vs, rest))
      {
        OneMoreRecord(VaultParser(bucketOf), i, count, old(rest));
        var v := ReadVault(bucketOf);
        if v == None {
          return None;
        }
        vs := vs + [v.value];
      }
      return Some(vs);
    }
  }

  lemma InsertCounts(bucketOf: Name -> Bucket, chains: Chains, e: Entry)
    requires |chains| == BUCKETS
    ensures var chain := chains[bucketOf(e.name)];
            |Flatten(Insert(bucketOf, chains, e))| ==
            |Flatten(chains)| + if FindEntry(chain, e.name) < |chain| then 0 else 1
  {
    var b := bucketOf(e.name);
    WalkUpdate(chains, b, Insert(bucketOf, chains, e)[b]);
  }
}
