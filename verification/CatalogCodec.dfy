/** The catalog file: how catalog_save prints the in-memory catalog and catalog_load parses it
    back (c_src/vault/vault_catalog.c:118-159, 181-412). Only what is printed is modelled. */
module CatalogCodec {
  import opened Options
  import opened ByteLayout
  import opened Sequences
  import FileHashMap

  const BUCKETS := FileHashMap.BUCKETS
  const FCOUNT_MAX: nat := 1000
  const MAX_FILES_PER_VAULT: nat := 4096
  const MAX_VAULTS: nat := 2048
  const U32: nat := 0x1_0000_0000
  const U64: nat := 0x1_0000_0000_0000_0000

  // ---- Entries and their buckets --------------------------------------------------------

  type Name = FileHashMap.Name

  datatype Entry = Entry(name: Name, hash: Bytes, lastSeen: int, modified: bool)

  predicate FitsEntry(e: Entry) { |e.hash| == 65 && FitsSigned(8, e.lastSeen) }

  type Bucket = FileHashMap.Bucket

  type Chains = seq<seq<Entry>>

  ghost predicate NamesDistinct(es: seq<Entry>) {
    forall i, j :: 0 <= i < j < |es| ==> es[i].name != es[j].name
  }

  function Empty(): (c: Chains)
    ensures |c| == BUCKETS && forall b :: 0 <= b < BUCKETS ==> c[b] == []
  {
    seq(BUCKETS, b => [])
  }

  /** hashmap_find in one chain. */
  function FindEntry(chain: seq<Entry>, name: Name): (i: nat)
    ensures i <= |chain|
    ensures i < |chain| ==> chain[i].name == name
    ensures forall j :: 0 <= j < i ==> chain[j].name != name
  {
    if chain == [] || chain[0].name == name then 0 else 1 + FindEntry(chain[1..], name)
  }

  /** hashmap_insert and the assignment of the entry's contents (lines 142-159, 394-400). */
  function Insert(bucketOf: Name -> Bucket, chains: Chains, e: Entry): (r: Chains)
    requires |chains| == BUCKETS
    ensures |r| == BUCKETS
  {
    var b := bucketOf(e.name);
    var i := FindEntry(chains[b], e.name);
    chains[b := if i < |chains[b]| then chains[b][i := e] else [e] + chains[b]]
  }

  /** The chains after the entries were inserted in turn. */
  function Filled(bucketOf: Name -> Bucket, es: seq<Entry>): (r: Chains)
    ensures |r| == BUCKETS
  {
    if es == [] then Empty() else Insert(bucketOf, Filled(bucketOf, es[..|es| - 1]), es[|es| - 1])
  }

  /** The entries that belong in bucket `b`. */
  function Of(bucketOf: Name -> Bucket, es: seq<Entry>, b: nat): seq<Entry> {
    if es == [] then []
    else
      var e := es[|es| - 1];
      Of(bucketOf, es[..|es| - 1], b) + if bucketOf(e.name) == b then [e] else []
  }

  function Reverse(es: seq<Entry>): (r: seq<Entry>)
    ensures |r| == |es|
  {
    if es == [] then [] else [es[|es| - 1]] + Reverse(es[..|es| - 1])
  }

  lemma {:induction false} ReverseMembers(es: seq<Entry>, e: Entry)
    ensures e in Reverse(es) <==> e in es
  {
    if es != [] {
      ReverseMembers(es[..|es| - 1], e);
      assert es == es[..|es| - 1] + [es[|es| - 1]];
    }
  }

  lemma ReversePush(es: seq<Entry>, e: Entry)
    ensures Reverse(es + [e]) == [e] + Reverse(es)
  {
    assert (es + [e])[..|es|] == es;
  }

  lemma {:induction false} OfMembers(bucketOf: Name -> Bucket, es: seq<Entry>, b: nat, e: Entry)
    ensures e in Of(bucketOf, es, b) <==> e in es && bucketOf(e.name) == b
  {
    if es != [] {
      OfMembers(bucketOf, es[..|es| - 1], b, e);
      assert es == es[..|es| - 1] + [es[|es| - 1]];
    }
  }

  lemma StillAbsent(bucketOf: Name -> Bucket, es: seq<Entry>, b: nat, name: Name)
    requires b < BUCKETS && Filled(bucketOf, es)[b] == Reverse(Of(bucketOf, es, b))
    requires forall x :: x in es ==> x.name != name
    ensures FindEntry(Filled(bucketOf, es)[b], name) == |Filled(bucketOf, es)[b]|
  {
    forall x | x in Filled(bucketOf, es)[b]
      ensures x.name != name
    {
      ReverseMembers(Of(bucketOf, es, b), x);
      OfMembers(bucketOf, es, b, x);
    }
  }

  /** Loading entries with distinct names leaves every chain in reverse. */
  lemma {:induction false} FilledReverses(bucketOf: Name -> Bucket, es: seq<Entry>, b: nat)
    requires NamesDistinct(es) && b < BUCKETS
    ensures Filled(bucketOf, es)[b] == Reverse(Of(bucketOf, es, b))
  {
    if es != [] {
      var front, e := es[..|es| - 1], es[|es| - 1];
      FilledReverses(bucketOf, front, b);
      if bucketOf(e.name) == b {
        var chain := Filled(bucketOf, front)[b];
        StillAbsent(bucketOf, front, b, e.name);
        assert Filled(bucketOf, es)[b] == [e] + chain;
        ReversePush(Of(bucketOf, front, b), e);
      } else {
        assert Filled(bucketOf, es)[b] == Filled(bucketOf, front)[b];
        assert Of(bucketOf, front, b) + [] == Of(bucketOf, front, b);
      }
    }
  }

  /** What one insertion makes of the chain of its bucket. */
  function Inserted(chain: seq<Entry>, e: Entry): seq<Entry> {
    var i := FindEntry(chain, e.name);
    if i < |chain| then chain[i := e] else [e] + chain
  }

  /** The entry is in the chain and no other of its name is. */
  ghost predicate Holds(chain: seq<Entry>, e: Entry) {
    e in chain && forall x :: x in chain && x.name == e.name ==> x == e
  }

  lemma InsertOne(chain: seq<Entry>, e: Entry)
    requires NamesDistinct(chain)
    ensures NamesDistinct(Inserted(chain, e)) && Holds(Inserted(chain, e), e)
  {
    var i := FindEntry(chain, e.name);
    assert Inserted(chain, e)[if i < |chain| then i else 0] == e;
  }

  lemma InsertOther(chain: seq<Entry>, e: Entry, x: Entry)
    requires Holds(chain, x) && x.name != e.name
    ensures Holds(Inserted(chain, e), x)
  {
    var i, next := FindEntry(chain, e.name), Inserted(chain, e);
    var k :| 0 <= k < |chain| && chain[k] == x;
    assert next[if i < |chain| then k else k + 1] == x;
    forall y | y in next && y.name == x.name
      ensures y == x
    {
      var m :| 0 <= m < |next| && next[m] == y;
      assert y == chain[if i < |chain| then m else m - 1];
    }
  }

  lemma FilledStep(bucketOf: Name -> Bucket, es: seq<Entry>, b: nat)
    requires es != [] && b < BUCKETS
    ensures var front, e := es[..|es| - 1], es[|es| - 1];
            Filled(bucketOf, es)[b] ==
            if bucketOf(e.name) == b then Inserted(Filled(bucketOf, front)[b], e) else Filled(bucketOf, front)[b]
  {
  }

  lemma {:induction false} FilledIsDistinct(bucketOf: Name -> Bucket, es: seq<Entry>, b: nat)
    requires b < BUCKETS
    ensures NamesDistinct(Filled(bucketOf, es)[b])
  {
    if es != [] {
      FilledStep(bucketOf, es, b);
      FilledIsDistinct(bucketOf, es[..|es| - 1], b);
      InsertOne(Filled(bucketOf, es[..|es| - 1])[b], es[|es| - 1]);
    }
  }

  /** Of several entries with one name the last one read is the one that counts. */
  lemma {:induction false} LastEntryCounts(bucketOf: Name -> Bucket, es: seq<Entry>, k: nat)
    requires k < |es| && forall j :: k < j < |es| ==> es[j].name != es[k].name
    ensures Holds(Filled(bucketOf, es)[bucketOf(es[k].name)], es[k])
  {
    var front, e, b := es[..|es| - 1], es[|es| - 1], bucketOf(es[k].name);
    var chain := Filled(bucketOf, front)[b];
    FilledStep(bucketOf, es, b);
    if k == |front| {
      FilledIsDistinct(bucketOf, front, b);
      InsertOne(chain, e);
    } else {
      LastEntryCounts(bucketOf, front, k);
      InsertOther(chain, e, es[k]);
    }
  }

  // ---- Vaults and catalogs --------------------------------------------------------------

  datatype Identity = Identity(id: nat, name: Bytes, kind: nat, status: nat, hasPass: bool, path: Bytes, cipherPath: Bytes)
  datatype Checks = Checks(createdAt: int, lastCheck: int, failedAttempts: int)
  datatype Alert = Alert(intervalIdx: nat, firstTriggered: int, lastAlerted: int, alertCount: nat, reason: Bytes)
  datatype Auth = Auth(salt: Bytes, passHash: Bytes, wormFlags: nat)

  /** A vault with the chains of its hash map and the count kept beside them. */
  datatype Vault = Vault(identity: Identity, checks: Checks, alert: Alert, auth: Auth, chains: Chains, count: nat)

  datatype Catalog = Catalog(nextId: nat, category: Bytes, macMode: int, vaults: seq<Vault>)

  predicate FitsIdentity(i: Identity) {
    i.id < U32 && |i.name| == 128 && i.kind < U32 && i.status < U32 && |i.path| == 512 && |i.cipherPath| == 512
  }

  predicate FitsChecks(c: Checks) {
    FitsSigned(8, c.createdAt) && FitsSigned(8, c.lastCheck) && FitsSigned(4, c.failedAttempts)
  }

  predicate FitsAlert(a: Alert) {
    a.intervalIdx < U64 && FitsSigned(8, a.firstTriggered) && FitsSigned(8, a.lastAlerted) && a.alertCount < U64 && |a.reason| == 256
  }

  predicate FitsAuth(a: Auth) { |a.salt| == 32 && |a.passHash| == 32 && a.wormFlags < U32 }

  /** The hash map is sound: what FileHashMap.Refines says, on values. */
  ghost predicate SoundMap(bucketOf: Name -> Bucket, chains: Chains, count: nat) {
    && |chains| == BUCKETS
    && NamesDistinct(Flatten(chains)) && count == |Flatten(chains)|
    && forall b, e :: 0 <= b < BUCKETS && e in chains[b] ==> bucketOf(e.name) == b && FitsEntry(e)
  }

  ghost predicate FitsVault(bucketOf: Name -> Bucket, v: Vault) {
    && FitsIdentity(v.identity) && FitsChecks(v.checks) && FitsAlert(v.alert) && FitsAuth(v.auth)
    && SoundMap(bucketOf, v.chains, v.count)
  }

  ghost predicate FitsCatalog(bucketOf: Name -> Bucket, c: Catalog) {
    && c.nextId < U32 && |c.category| == 32 && FitsSigned(1, c.macMode) && |c.vaults| <= 2048
    && forall i :: 0 <= i < |c.vaults| ==> FitsVault(bucketOf, c.vaults[i])
  }

  // ---- Fields, in the order of the file -------------------------------------------------

  const IDENTITY: seq<nat> := [4, 128, 4, 4, 1, 512, 512]
  const CHECKS: seq<nat> := [8, 8, 4]
  const ALERT: seq<nat> := [8, 8, 8, 8, 256]
  const AUTH: seq<nat> := [32, 32, 4]
  const ENTRY: seq<nat> := [256, 65, 8, 1]

  function Flag(b: bool): Byte { if b then 1 else 0 }

  function IdentityFields(i: Identity): (f: seq<Bytes>)
    requires FitsIdentity(i)
    ensures Lengths(f) == IDENTITY
  {
    [Little(4, i.id), i.name, Little(4, i.kind), Little(4, i.status), [Flag(i.hasPass)], i.path, i.cipherPath]
  }

  function ToIdentity(f: seq<Bytes>): Identity
    requires Lengths(f) == IDENTITY
  {
    FieldSizes(f, IDENTITY);
    Identity(Number(f[0]), f[1], Number(f[2]), Number(f[3]), f[4][0] != 0, f[5], f[6])
  }

  function Signed(width: nat, i: int): Bytes
    requires FitsSigned(width, i)
  {
    SignedRoundTrip(width, i);
    Little(width, Unsign(width, i))
  }

  function ChecksFields(c: Checks): (f: seq<Bytes>)
    requires FitsChecks(c)
    ensures Lengths(f) == CHECKS
  {
    [Signed(8, c.createdAt), Signed(8, c.lastCheck), Signed(4, c.failedAttempts)]
  }

  function ToChecks(f: seq<Bytes>): Checks
    requires Lengths(f) == CHECKS
  {
    FieldSizes(f, CHECKS);
    Checks(Sign(8, Number(f[0])), Sign(8, Number(f[1])), Sign(4, Number(f[2])))
  }

  function AlertFields(a: Alert): (f: seq<Bytes>)
    requires FitsAlert(a)
    ensures Lengths(f) == ALERT
  {
    [Little(8, a.intervalIdx), Signed(8, a.firstTriggered), Signed(8, a.lastAlerted), Little(8, a.alertCount), a.reason]
  }

  function ToAlert(f: seq<Bytes>): Alert
    requires Lengths(f) == ALERT
  {
    FieldSizes(f, ALERT);
    Alert(Number(f[0]), Sign(8, Number(f[1])), Sign(8, Number(f[2])), Number(f[3]), f[4])
  }

  function AuthFields(a: Auth): (f: seq<Bytes>)
    requires FitsAuth(a)
    ensures Lengths(f) == AUTH
  {
    [a.salt, a.passHash, Little(4, a.wormFlags)]
  }

  function ToAuth(f: seq<Bytes>): Auth
    requires Lengths(f) == AUTH
  {
    FieldSizes(f, AUTH);
    Auth(f[0], f[1], Number(f[2]))
  }

  /** A name in its array, padded with zeros as strncpy and calloc leave it. */
  function Pad(s: Name): (p: Bytes)
    ensures |p| == 256
  {
    s + seq(256 - |s|, i => 0)
  }

  /** The C string in an array, ended by force at its last byte. */
  function CString(s: Bytes): (n: Bytes)
    ensures |n| <= |s| && IsPrefix(n, s) && (forall i :: 0 <= i < |n| ==> n[i] != 0)
    ensures |n| < |s| ==> s[|n|] == 0
  {
    if s == [] || s[0] == 0 then [] else [s[0]] + CString(s[1..])
  }

  predicate IsPrefix(a: Bytes, b: Bytes) { |a| <= |b| && forall i :: 0 <= i < |a| ==> a[i] == b[i] }

  function EntryFields(e: Entry): (f: seq<Bytes>)
    requires FitsEntry(e)
    ensures Lengths(f) == ENTRY
  {
    [Pad(e.name), e.hash, Signed(8, e.lastSeen), [Flag(e.modified)]]
  }

  function ToEntry(f: seq<Bytes>): Entry
    requires Lengths(f) == ENTRY
  {
    FieldSizes(f, ENTRY);
    Entry(CString(f[0][..255]), f[1], Sign(8, Number(f[2])), f[3][0] != 0)
  }

  lemma FieldSizes(f: seq<Bytes>, layout: seq<nat>)
    requires Lengths(f) == layout
    ensures |f| == |layout| && forall i :: 0 <= i < |f| ==> |f[i]| == layout[i]
  {
    forall i | 0 <= i < |f|
      ensures |f[i]| == layout[i]
    {
      assert Lengths(f)[i] == |f[i]|;
    }
  }

  lemma IdentityRoundTrip(i: Identity)
    requires FitsIdentity(i)
    ensures ToIdentity(IdentityFields(i)) == i
  {
    WordSizes();
    NumberOfLittle(4, i.id);
    NumberOfLittle(4, i.kind);
    NumberOfLittle(4, i.status);
  }

  lemma ChecksRoundTrip(c: Checks)
    requires FitsChecks(c)
    ensures ToChecks(ChecksFields(c)) == c
  {
    SignedRoundTrip(8, c.createdAt);
    SignedRoundTrip(8, c.lastCheck);
    SignedRoundTrip(4, c.failedAttempts);
  }

  lemma AlertRoundTrip(a: Alert)
    requires FitsAlert(a)
    ensures ToAlert(AlertFields(a)) == a
  {
    WordSizes();
    NumberOfLittle(8, a.intervalIdx);
    SignedRoundTrip(8, a.firstTriggered);
    SignedRoundTrip(8, a.lastAlerted);
    NumberOfLittle(8, a.alertCount);
  }

  lemma AuthRoundTrip(a: Auth)
    requires FitsAuth(a)
    ensures ToAuth(AuthFields(a)) == a
  {
    WordSizes();
    NumberOfLittle(4, a.wormFlags);
  }

  lemma NameRoundTrip(s: Name)
    ensures CString(Pad(s)[..255]) == s
  {
    var p := Pad(s)[..255];
    assert forall i :: 0 <= i < |s| ==> p[i] == s[i];
    assert |s| < |p| ==> p[|s|] == 0;
    assert |CString(p)| == |s|;
  }

  lemma EntryRoundTrip(e: Entry)
    requires FitsEntry(e)
    ensures ToEntry(EntryFields(e)) == e
  {
    NameRoundTrip(e.name);
    SignedRoundTrip(8, e.lastSeen);
  }

  // ---- The printer ----------------------------------------------------------------------

  const MAGIC: Bytes := [86, 76, 84, 83]
  const HEADER: seq<nat> := [4, 4, 32]

  /** How many entries are printed: the count as a 32-bit word, at most FCOUNT_MAX. */
  function Printed(count: nat): (n: nat)
    ensures n <= count && n <= 1000
    ensures count <= 1000 <==> n == count
  {
    var low := count % U32;
    if low > FCOUNT_MAX then FCOUNT_MAX else low
  }

  function EntryImages(es: seq<Entry>): (r: seq<Bytes>)
    requires forall e :: e in es ==> FitsEntry(e)
    ensures |r| == |es|
  {
    seq(|es|, i requires 0 <= i < |es| => PrintEntry(es[i]))
  }

  function PrintEntry(e: Entry): Bytes
    requires FitsEntry(e)
  {
    Join(EntryFields(e))
  }

  lemma WalkFits(bucketOf: Name -> Bucket, chains: Chains, count: nat)
    requires SoundMap(bucketOf, chains, count)
    ensures forall e :: e in Flatten(chains) ==> FitsEntry(e)
  {
    forall e | e in Flatten(chains)
      ensures FitsEntry(e)
    {
      FlattenMembers(chains, e);
    }
  }

  function Files(ghost bucketOf: Name -> Bucket, v: Vault): (es: seq<Entry>)
    requires FitsVault(bucketOf, v)
    ensures forall e :: e in es ==> FitsEntry(e)
  {
    WalkFits(bucketOf, v.chains, v.count);
    Flatten(v.chains)[..Printed(v.count)]
  }

  function PrintVault(ghost bucketOf: Name -> Bucket, v: Vault): Bytes
    requires FitsVault(bucketOf, v)
  {
    Join(IdentityFields(v.identity)) + (Join(ChecksFields(v.checks)) + (Join(AlertFields(v.alert)) +
    (Join(AuthFields(v.auth)) + (Little(4, Printed(v.count)) + Flatten(EntryImages(Files(bucketOf, v)))))))
  }

  function Images(ghost bucketOf: Name -> Bucket, vs: seq<Vault>): (r: seq<Bytes>)
    requires forall i :: 0 <= i < |vs| ==> FitsVault(bucketOf, vs[i])
  {
    seq(|vs|, i requires 0 <= i < |vs| => PrintVault(bucketOf, vs[i]))
  }

  function HeaderFields(c: Catalog): (f: seq<Bytes>)
    requires |c.category| == 32
    ensures Lengths(f) == HEADER
  {
    [Little(4, |c.vaults|), Little(4, c.nextId), c.category]
  }

  function Body(ghost bucketOf: Name -> Bucket, c: Catalog, version: Byte): Bytes
    requires FitsCatalog(bucketOf, c)
  {
    Join(HeaderFields(c)) + (MacBytes(c, version) + Flatten(Images(bucketOf, c.vaults)))
  }

  /** catalog_save's image, and the one a version 2 program wrote: no mac_mode. */
  function Image(ghost bucketOf: Name -> Bucket, c: Catalog, version: Byte): Bytes
    requires FitsCatalog(bucketOf, c)
  {
    MAGIC + [version] + Body(bucketOf, c, version)
  }

  // ---- The parser -----------------------------------------------------------------------

  datatype LoadResult = Failed | Fresh | Loaded(catalog: Catalog)

  function ParseEntry(s: Bytes): Option<(Entry, Bytes)> {
    var fields :- Split(ENTRY, s);
    Some((ToEntry(fields.0), fields.1))
  }

  function ParseVault(bucketOf: Name -> Bucket, s: Bytes): Option<(Vault, Bytes)> {
    var identity :- Split(IDENTITY, s);
    var checks :- Split(CHECKS, identity.1);
    var alert :- Split(ALERT, checks.1);
    var auth :- Split(AUTH, alert.1);
    var count :- Split([4], auth.1);
    ParseFiles(bucketOf, Vault(ToIdentity(identity.0), ToChecks(checks.0), ToAlert(alert.0), ToAuth(auth.0), Empty(), 0),
               Number(count.0[0]), count.1)
  }

  function ParseFiles(bucketOf: Name -> Bucket, v: Vault, fcount: nat, s: Bytes): Option<(Vault, Bytes)> {
    if fcount > MAX_FILES_PER_VAULT then None
    else
      var es :- ParseMany(ParseEntry, fcount, s);
      Some((WithFiles(bucketOf, v, es.0), es.1))
  }

  function WithFiles(bucketOf: Name -> Bucket, v: Vault, es: seq<Entry>): Vault {
    v.(chains := Filled(bucketOf, es), count := |Flatten(Filled(bucketOf, es))|)
  }

  function VaultParser(bucketOf: Name -> Bucket): Bytes -> Option<(Vault, Bytes)> {
    (s: Bytes) => ParseVault(bucketOf, s)
  }

  function ParseBody(bucketOf: Name -> Bucket, version: Byte, s: Bytes): Option<(Catalog, Bytes)> {
    var header :- Split(HEADER, s);
    var mac :- Split(if version >= 3 then [1] else [], header.1);
    FieldSizes(header.0, HEADER);
    FieldSizes(mac.0, if version >= 3 then [1] else []);
    var count := Number(header.0[0]);
    if count > MAX_VAULTS then None
    else
      var vs :- ParseMany(VaultParser(bucketOf), count, mac.1);
      Some((Catalog(Number(header.0[1]), header.0[2], if version >= 3 then Sign(1, Number(mac.0[0])) else -1, vs.0), vs.1))
  }

  function Load(bucketOf: Name -> Bucket, s: Bytes): LoadResult {
    if |s| < 5 || s[..4] != MAGIC then Failed
    else if s[4] != 3 && s[4] != 2 then Fresh
    else
      match ParseBody(bucketOf, s[4], s[5..])
      case None => Failed
      case Some(r) => Loaded(r.0)
  }

  // ---- Parsing what was printed ---------------------------------------------------------

  lemma OneEntryRoundTrip(e: Entry, rest: Bytes)
    requires FitsEntry(e)
    ensures ParseEntry(PrintEntry(e) + rest) == Some((e, rest))
  {
    SplitJoin(EntryFields(e), rest);
    EntryRoundTrip(e);
  }

  lemma EntriesRoundTrip(es: seq<Entry>, rest: Bytes)
    requires forall e :: e in es ==> FitsEntry(e)
    ensures ParseMany(ParseEntry, |es|, Flatten(EntryImages(es)) + rest) == Some((es, rest))
  {
    forall i | 0 <= i < |es|
      ensures ReadsBack(ParseEntry, EntryImages(es)[i], es[i])
    {
      EntryReadsBack(es[i]);
    }
    ManyReadBack(ParseEntry, EntryImages(es), es, rest);
  }

  lemma EntryReadsBack(e: Entry)
    requires FitsEntry(e)
    ensures ReadsBack(ParseEntry, PrintEntry(e), e)
  {
    forall rest: Bytes
      ensures ParseEntry(PrintEntry(e) + rest) == Some((e, rest))
    {
      OneEntryRoundTrip(e, rest);
    }
  }

  /** What loading makes of a saved vault. */
  function Reloaded(bucketOf: Name -> Bucket, v: Vault): Vault
    requires FitsVault(bucketOf, v)
  {
    WithFiles(bucketOf, v, Files(bucketOf, v))
  }

  lemma FilesRoundTrip(bucketOf: Name -> Bucket, v: Vault, v0: Vault, rest: Bytes)
    requires FitsVault(bucketOf, v) && v0.(chains := v.chains, count := v.count) == v
    ensures ParseFiles(bucketOf, v0, Printed(v.count), Flatten(EntryImages(Files(bucketOf, v))) + rest) ==
            Some((Reloaded(bucketOf, v), rest))
  {
    EntriesRoundTrip(Files(bucketOf, v), rest);
  }

  lemma CountRoundTrip(n: nat, rest: Bytes)
    requires n < U32
    ensures var r := Split([4], Little(4, n) + rest);
            r.Some? && |r.value.0| == 1 && Number(r.value.0[0]) == n && r.value.1 == rest
  {
    WordSizes();
    NumberOfLittle(4, n);
    assert Lengths([Little(4, n)]) == [4];
    assert Join([Little(4, n)]) == Little(4, n);
    SplitJoin([Little(4, n)], rest);
  }

  lemma VaultRoundTrip(bucketOf: Name -> Bucket, v: Vault, rest: Bytes)
    requires FitsVault(bucketOf, v)
    ensures ParseVault(bucketOf, PrintVault(bucketOf, v) + rest) == Some((Reloaded(bucketOf, v), rest))
  {
    var files := Flatten(EntryImages(Files(bucketOf, v))) + rest;
    var count := Little(4, Printed(v.count)) + files;
    var auth := Join(AuthFields(v.auth)) + count;
    var alert := Join(AlertFields(v.alert)) + auth;
    var checks := Join(ChecksFields(v.checks)) + alert;
    assert PrintVault(bucketOf, v) + rest == Join(IdentityFields(v.identity)) + checks;
    SplitJoin(IdentityFields(v.identity), checks);
    SplitJoin(ChecksFields(v.checks), alert);
    SplitJoin(AlertFields(v.alert), auth);
    SplitJoin(AuthFields(v.auth), count);
    CountRoundTrip(Printed(v.count), files);
    IdentityRoundTrip(v.identity);
    ChecksRoundTrip(v.checks);
    AlertRoundTrip(v.alert);
    AuthRoundTrip(v.auth);
    FilesRoundTrip(bucketOf, v, Vault(v.identity, v.checks, v.alert, v.auth, Empty(), 0), rest);
  }

  function ReloadedAll(bucketOf: Name -> Bucket, vs: seq<Vault>): (r: seq<Vault>)
    requires forall i :: 0 <= i < |vs| ==> FitsVault(bucketOf, vs[i])
  {
    seq(|vs|, i requires 0 <= i < |vs| => Reloaded(bucketOf, vs[i]))
  }

  lemma VaultsRoundTrip(bucketOf: Name -> Bucket, vs: seq<Vault>, rest: Bytes)
    requires forall i :: 0 <= i < |vs| ==> FitsVault(bucketOf, vs[i])
    ensures ParseMany(VaultParser(bucketOf), |vs|, Flatten(Images(bucketOf, vs)) + rest) ==
            Some((ReloadedAll(bucketOf, vs), rest))
  {
    forall i | 0 <= i < |vs|
      ensures ReadsBack(VaultParser(bucketOf), Images(bucketOf, vs)[i], ReloadedAll(bucketOf, vs)[i])
    {
      VaultReadsBack(bucketOf, vs[i]);
    }
    ManyReadBack(VaultParser(bucketOf), Images(bucketOf, vs), ReloadedAll(bucketOf, vs), rest);
  }

  lemma VaultReadsBack(bucketOf: Name -> Bucket, v: Vault)
    requires FitsVault(bucketOf, v)
    ensures ReadsBack(VaultParser(bucketOf), PrintVault(bucketOf, v), Reloaded(bucketOf, v))
  {
    forall rest: Bytes
      ensures VaultParser(bucketOf)(PrintVault(bucketOf, v) + rest) == Some((Reloaded(bucketOf, v), rest))
    {
      VaultRoundTrip(bucketOf, v, rest);
    }
  }

  lemma HeaderRoundTrip(c: Catalog, rest: Bytes)
    requires c.nextId < U32 && |c.category| == 32 && |c.vaults| <= MAX_VAULTS
    ensures var r := Split(HEADER, Join(HeaderFields(c)) + rest);
            && r.Some? && |r.value.0| == 3 && r.value.1 == rest
            && Number(r.value.0[0]) == |c.vaults| && Number(r.value.0[1]) == c.nextId && r.value.0[2] == c.category
  {
    WordSizes();
    NumberOfLittle(4, |c.vaults|);
    NumberOfLittle(4, c.nextId);
    SplitJoin(HeaderFields(c), rest);
  }

  function MacBytes(c: Catalog, version: Byte): Bytes
    requires FitsSigned(1, c.macMode)
  {
    if version >= 3 then Signed(1, c.macMode) else []
  }

  lemma MacRoundTrip(c: Catalog, version: Byte, rest: Bytes)
    requires FitsSigned(1, c.macMode)
    ensures var r := Split(if version >= 3 then [1] else [], MacBytes(c, version) + rest);
            && r.Some? && r.value.1 == rest
            && (version >= 3 ==> |r.value.0| == 1 && Sign(1, Number(r.value.0[0])) == c.macMode)
  {
    if version >= 3 {
      SignedRoundTrip(1, c.macMode);
      assert Lengths([Signed(1, c.macMode)]) == [1];
      assert Join([Signed(1, c.macMode)]) == Signed(1, c.macMode);
      SplitJoin([Signed(1, c.macMode)], rest);
    } else {
      assert MacBytes(c, version) + rest == rest;
    }
  }

  /** What loading makes of a saved catalog. */
  function ReloadedCatalog(bucketOf: Name -> Bucket, c: Catalog, version: Byte): Catalog
    requires FitsCatalog(bucketOf, c)
  {
    c.(macMode := if version >= 3 then c.macMode else -1, vaults := ReloadedAll(bucketOf, c.vaults))
  }

  lemma BodyRoundTrip(bucketOf: Name -> Bucket, c: Catalog, version: Byte, rest: Bytes)
    requires FitsCatalog(bucketOf, c)
    ensures ParseBody(bucketOf, version, Body(bucketOf, c, version) + rest) ==
            Some((ReloadedCatalog(bucketOf, c, version), rest))
  {
    var vaults := Flatten(Images(bucketOf, c.vaults)) + rest;
    var mac := MacBytes(c, version) + vaults;
    assert Body(bucketOf, c, version) + rest == Join(HeaderFields(c)) + mac;
    HeaderRoundTrip(c, mac);
    MacRoundTrip(c, version, vaults);
    VaultsRoundTrip(bucketOf, c.vaults, rest);
  }

  lemma LoadUnwraps(bucketOf: Name -> Bucket, version: Byte, body: Bytes)
    ensures var s := MAGIC + [version] + body;
            |s| >= 5 && s[..4] == MAGIC && s[4] == version && s[5..] == body
  {
  }

  /** A saved catalog loads as itself with reloaded vaults; a version 2 image loads like its
      version 3 twin with mac_mode unset. */
  lemma LoadOfImage(bucketOf: Name -> Bucket, c: Catalog, version: Byte)
    requires FitsCatalog(bucketOf, c) && (version == 3 || version == 2)
    ensures Load(bucketOf, Image(bucketOf, c, version)) == Loaded(ReloadedCatalog(bucketOf, c, version))
  {
    var body := Body(bucketOf, c, version);
    LoadUnwraps(bucketOf, version, body);
    BodyRoundTrip(bucketOf, c, version, []);
    assert body + [] == body;
  }

  // ---- What a reload keeps --------------------------------------------------------------

  lemma {:induction false} OfConcat(bucketOf: Name -> Bucket, s: seq<Entry>, t: seq<Entry>, b: nat)
    ensures Of(bucketOf, s + t, b) == Of(bucketOf, s, b) + Of(bucketOf, t, b)
  {
    if t == [] {
      assert s + t == s;
    } else {
      assert (s + t)[..|s + t| - 1] == s + t[..|t| - 1];
      OfConcat(bucketOf, s, t[..|t| - 1], b);
    }
  }

  ghost predicate AllIn(bucketOf: Name -> Bucket, chain: seq<Entry>, b: nat) {
    forall e :: e in chain ==> bucketOf(e.name) == b
  }

  lemma {:induction false} OfChain(bucketOf: Name -> Bucket, chain: seq<Entry>, home: nat, b: nat)
    requires AllIn(bucketOf, chain, home)
    ensures Of(bucketOf, chain, b) == if b == home then chain else []
  {
    if chain != [] {
      OfChain(bucketOf, chain[..|chain| - 1], home, b);
      assert chain[|chain| - 1] in chain;
      assert chain == chain[..|chain| - 1] + [chain[|chain| - 1]];
    }
  }

  /** Picking a bucket out of the walk gives back its chain. */
  lemma {:induction false} OfFlatten(bucketOf: Name -> Bucket, chains: Chains, b: nat)
    requires forall k :: 0 <= k < |chains| ==> AllIn(bucketOf, chains[k], k)
    ensures Of(bucketOf, Flatten(chains), b) == if b < |chains| then chains[b] else []
  {
    if chains != [] {
      var k := |chains| - 1;
      OfFlatten(bucketOf, chains[..k], b);
      OfConcat(bucketOf, Flatten(chains[..k]), chains[k], b);
      OfChain(bucketOf, chains[k], k, b);
    }
  }

  lemma {:induction false} ReverseTwice(es: seq<Entry>)
    ensures Reverse(Reverse(es)) == es
  {
    if es != [] {
      var front, e := es[..|es| - 1], es[|es| - 1];
      ReverseTwice(front);
      ReverseAppend([e], Reverse(front));
      assert Reverse([e]) == [e];
      assert front + [e] == es;
    }
  }

  lemma {:induction false} ReverseAppend(s: seq<Entry>, t: seq<Entry>)
    ensures Reverse(s + t) == Reverse(t) + Reverse(s)
  {
    if t == [] {
      assert s + t == s;
    } else {
      assert (s + t)[..|s + t| - 1] == s + t[..|t| - 1];
      ReverseAppend(s, t[..|t| - 1]);
    }
  }

  lemma {:induction false} WalkUpdate(chains: Chains, b: nat, chain: seq<Entry>)
    requires b < |chains|
    ensures |Flatten(chains[b := chain])| == |Flatten(chains)| - |chains[b]| + |chain|
  {
    var k := |chains| - 1;
    if b == k {
      assert chains[b := chain][..k] == chains[..k];
    } else {
      assert chains[b := chain][..k] == chains[..k][b := chain];
      WalkUpdate(chains[..k], b, chain);
    }
  }

  lemma {:induction false} WalkEmpty(chains: Chains)
    requires forall b :: 0 <= b < |chains| ==> chains[b] == []
    ensures Flatten(chains) == []
  {
    if chains != [] {
      WalkEmpty(chains[..|chains| - 1]);
    }
  }

  /** hashmap_insert counts every new entry once. */
  lemma {:induction false} FilledCounts(bucketOf: Name -> Bucket, es: seq<Entry>)
    requires NamesDistinct(es)
    ensures |Flatten(Filled(bucketOf, es))| == |es|
  {
    if es == [] {
      WalkEmpty(Empty());
    } else {
      var front, e := es[..|es| - 1], es[|es| - 1];
      var b := bucketOf(e.name);
      FilledCounts(bucketOf, front);
      FilledReverses(bucketOf, front, b);
      StillAbsent(bucketOf, front, b, e.name);
      WalkUpdate(Filled(bucketOf, front), b, [e] + Filled(bucketOf, front)[b]);
    }
  }

  /** The loaded map holds exactly the entries that were printed. */
  lemma FilledMembers(bucketOf: Name -> Bucket, es: seq<Entry>, e: Entry)
    requires NamesDistinct(es)
    ensures e in Flatten(Filled(bucketOf, es)) <==> e in es
  {
    var chains := Filled(bucketOf, es);
    FlattenMembers(chains, e);
    forall b | 0 <= b < BUCKETS
      ensures e in chains[b] <==> e in es && bucketOf(e.name) == b
    {
      FilledReverses(bucketOf, es, b);
      ReverseMembers(Of(bucketOf, es, b), e);
      OfMembers(bucketOf, es, b, e);
    }
    assert e in es ==> e in chains[bucketOf(e.name)];
  }

  lemma PrefixDistinct(es: seq<Entry>, n: nat)
    requires NamesDistinct(es) && n <= |es|
    ensures NamesDistinct(es[..n])
    ensures n < |es| ==> es[n] in es && es[n] !in es[..n]
  {
  }

  /** A reloaded vault tracks the same files with the same records exactly if at most
      FCOUNT_MAX are tracked; otherwise some are lost. */
  lemma ReloadKeepsFiles(bucketOf: Name -> Bucket, v: Vault)
    requires FitsVault(bucketOf, v)
    ensures (forall e :: e in Flatten(Reloaded(bucketOf, v).chains) <==> e in Flatten(v.chains)) <==> v.count <= FCOUNT_MAX
    ensures Reloaded(bucketOf, v).count == Printed(v.count)
  {
    var es := Flatten(v.chains);
    var n := Printed(v.count);
    PrefixDistinct(es, n);
    FilledCounts(bucketOf, es[..n]);
    forall e
      ensures e in Flatten(Reloaded(bucketOf, v).chains) <==> e in es[..n]
    {
      FilledMembers(bucketOf, es[..n], e);
    }
    if v.count <= FCOUNT_MAX {
      assert es[..n] == es;
    } else {
      assert es[n] in Flatten(v.chains) && es[n] !in Flatten(Reloaded(bucketOf, v).chains);
    }
  }

  /** Every chain comes back in reverse. */
  lemma ReloadReversesChains(bucketOf: Name -> Bucket, v: Vault, b: nat)
    requires FitsVault(bucketOf, v) && v.count <= FCOUNT_MAX && b < BUCKETS
    ensures Reloaded(bucketOf, v).chains[b] == Reverse(v.chains[b])
  {
    assert Files(bucketOf, v) == Flatten(v.chains);
    FilledReverses(bucketOf, Flatten(v.chains), b);
    OfFlatten(bucketOf, v.chains, b);
  }

  lemma {:induction false} ReverseDistinct(es: seq<Entry>)
    requires NamesDistinct(es)
    ensures NamesDistinct(Reverse(es))
  {
    if es != [] {
      var front, e := es[..|es| - 1], es[|es| - 1];
      ReverseDistinct(front);
      forall x | x in Reverse(front)
        ensures x.name != e.name
      {
        ReverseMembers(front, x);
      }
    }
  }

  lemma {:induction false} OfDistinct(bucketOf: Name -> Bucket, es: seq<Entry>, b: nat)
    requires NamesDistinct(es)
    ensures NamesDistinct(Of(bucketOf, es, b))
  {
    if es != [] {
      var front, e := es[..|es| - 1], es[|es| - 1];
      OfDistinct(bucketOf, front, b);
      forall x | x in Of(bucketOf, front, b)
        ensures x.name != e.name
      {
        OfMembers(bucketOf, front, b, x);
      }
    }
  }

  /** Chains that keep to their buckets never share a name. */
  lemma {:induction false} WalkDistinct(bucketOf: Name -> Bucket, chains: Chains)
    requires forall b :: 0 <= b < |chains| ==> NamesDistinct(chains[b]) && AllIn(bucketOf, chains[b], b)
    ensures NamesDistinct(Flatten(chains))
  {
    if chains != [] {
      var k := |chains| - 1;
      var front := chains[..k];
      WalkDistinct(bucketOf, front);
      forall x: Entry | x in Flatten(front)
        ensures bucketOf(x.name) != k
      {
        FlattenMembers(front, x);
        var b :| 0 <= b < k && x in front[b];
        assert AllIn(bucketOf, chains[b], b);
      }
      assert AllIn(bucketOf, chains[k], k);
    }
  }

  /** A reloaded vault is a sound vault. */
  lemma ReloadFits(bucketOf: Name -> Bucket, v: Vault)
    requires FitsVault(bucketOf, v)
    ensures FitsVault(bucketOf, Reloaded(bucketOf, v))
  {
    var es := Files(bucketOf, v);
    PrefixDistinct(Flatten(v.chains), Printed(v.count));
    var chains := Filled(bucketOf, es);
    forall b | 0 <= b < BUCKETS
      ensures NamesDistinct(chains[b]) && AllIn(bucketOf, chains[b], b)
      ensures forall e :: e in chains[b] ==> FitsEntry(e)
    {
      FilledReverses(bucketOf, es, b);
      OfDistinct(bucketOf, es, b);
      ReverseDistinct(Of(bucketOf, es, b));
      forall e: Entry | e in chains[b]
        ensures bucketOf(e.name) == b && FitsEntry(e)
      {
        ReverseMembers(Of(bucketOf, es, b), e);
        OfMembers(bucketOf, es, b, e);
      }
    }
    WalkDistinct(bucketOf, chains);
  }

  /** Saving and loading twice gives back the very chains, in their order. */
  lemma ReloadTwiceIsIdentity(bucketOf: Name -> Bucket, v: Vault)
    requires FitsVault(bucketOf, v) && v.count <= FCOUNT_MAX
    ensures FitsVault(bucketOf, Reloaded(bucketOf, v))
    ensures Reloaded(bucketOf, Reloaded(bucketOf, v)) == v
  {
    ReloadFits(bucketOf, v);
    ReloadKeepsFiles(bucketOf, v);
    var once := Reloaded(bucketOf, v);
    var twice := Reloaded(bucketOf, once);
    ReloadKeepsFiles(bucketOf, once);
    forall b | 0 <= b < BUCKETS
      ensures twice.chains[b] == v.chains[b]
    {
      ReloadReversesChains(bucketOf, v, b);
      ReloadReversesChains(bucketOf, once, b);
      ReverseTwice(v.chains[b]);
    }
    assert twice.chains == v.chains;
  }

  // ---- Truncated images -----------------------------------------------------------------

  lemma EntryExtends()
    ensures Extends(ParseEntry)
  {
    forall s, more | ParseEntry(s).Some?
      ensures ParseEntry(s + more) == Some((ParseEntry(s).value.0, ParseEntry(s).value.1 + more))
    {
      SplitExtends(ENTRY, s, more);
    }
  }

  lemma VaultExtends(bucketOf: Name -> Bucket, s: Bytes, more: Bytes)
    requires ParseVault(bucketOf, s).Some?
    ensures ParseVault(bucketOf, s + more) ==
            Some((ParseVault(bucketOf, s).value.0, ParseVault(bucketOf, s).value.1 + more))
  {
    var identity := Split(IDENTITY, s).value;
    var checks := Split(CHECKS, identity.1).value;
    var alert := Split(ALERT, checks.1).value;
    var auth := Split(AUTH, alert.1).value;
    var count := Split([4], auth.1).value;
    SplitExtends(IDENTITY, s, more);
    SplitExtends(CHECKS, identity.1, more);
    SplitExtends(ALERT, checks.1, more);
    SplitExtends(AUTH, alert.1, more);
    SplitExtends([4], auth.1, more);
    EntryExtends();
    ManyExtend(ParseEntry, Number(count.0[0]), count.1, more);
  }

  lemma VaultsExtend(bucketOf: Name -> Bucket)
    ensures Extends(VaultParser(bucketOf))
  {
    var parse := VaultParser(bucketOf);
    forall s, more | parse(s).Some?
      ensures parse(s + more) == Some((parse(s).value.0, parse(s).value.1 + more))
    {
      VaultExtends(bucketOf, s, more);
    }
  }

  lemma BodyExtends(bucketOf: Name -> Bucket, version: Byte, s: Bytes, more: Bytes)
    requires ParseBody(bucketOf, version, s).Some?
    ensures ParseBody(bucketOf, version, s + more) ==
            Some((ParseBody(bucketOf, version, s).value.0, ParseBody(bucketOf, version, s).value.1 + more))
  {
    var header := Split(HEADER, s).value;
    var layout := if version >= 3 then [1] else [];
    var mac := Split(layout, header.1).value;
    SplitExtends(HEADER, s, more);
    SplitExtends(layout, header.1, more);
    VaultsExtend(bucketOf);
    FieldSizes(header.0, HEADER);
    ManyExtend(VaultParser(bucketOf), Number(header.0[0]), mac.1, more);
  }

  lemma BodyPrefixFails(bucketOf: Name -> Bucket, c: Catalog, version: Byte, k: nat)
    requires FitsCatalog(bucketOf, c) && k < |Body(bucketOf, c, version)|
    ensures ParseBody(bucketOf, version, Body(bucketOf, c, version)[..k]) == None
  {
    var body := Body(bucketOf, c, version);
    BodyRoundTrip(bucketOf, c, version, []);
    assert body + [] == body;
    assert body[..k] + body[k..] == body;
    if ParseBody(bucketOf, version, body[..k]).Some? {
      BodyExtends(bucketOf, version, body[..k], body[k..]);
    }
  }

  /** No strict prefix of an image loads: a truncated file is an I/O error, never a shorter
      catalog and never a fresh one. */
  lemma TruncationRejected(bucketOf: Name -> Bucket, c: Catalog, version: Byte, k: nat)
    requires FitsCatalog(bucketOf, c) && (version == 3 || version == 2)
    requires k < |Image(bucketOf, c, version)|
    ensures Load(bucketOf, Image(bucketOf, c, version)[..k]) == Failed
  {
    var body := Body(bucketOf, c, version);
    var image := Image(bucketOf, c, version);
    if k >= 5 {
      LoadUnwraps(bucketOf, version, body);
      assert image[..k][..4] == image[..4];
      assert image[..k][5..] == body[..k - 5];
      BodyPrefixFails(bucketOf, c, version, k - 5);
    }
  }

  /** An image that claims too many vaults is refused. */
  lemma TooManyVaultsRejected(bucketOf: Name -> Bucket, version: Byte, count: nat, rest: Bytes)
    requires (version == 3 || version == 2) && 2048 < count < U32
    ensures Load(bucketOf, MAGIC + [version] + (Little(4, count) + rest)) == Failed
  {
    var body := Little(4, count) + rest;
    LoadUnwraps(bucketOf, version, body);
    WordSizes();
    NumberOfLittle(4, count);
    if |body| >= 40 {
      assert body[..4] == Little(4, count);
    }
  }
}
