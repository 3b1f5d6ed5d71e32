/** Where each field stands in the catalog file (c_src/vault/vault_catalog.c:181-267), by byte
    offsets. */
module CatalogLayout {
  import opened ByteLayout
  import opened CatalogCodec
  import opened Sequences

  // ---- Offsets of fields ----------------------------------------------------------------

  function Offset(layout: seq<nat>, k: nat): nat
    requires k <= |layout|
  {
    if k == 0 then 0 else Offset(layout, k - 1) + layout[k - 1]
  }

  lemma {:induction false} OffsetOfTail(layout: seq<nat>, k: nat)
    requires 1 <= k <= |layout|
    ensures Offset(layout, k) == layout[0] + Offset(layout[1..], k - 1)
  {
    if k > 1 {
      OffsetOfTail(layout, k - 1);
    }
  }

  /** Field `k` of a joined record is at its offset. */
  ghost predicate StandsAt(s: Bytes, at: nat, field: Bytes) {
    at + |field| <= |s| && s[at..at + |field|] == field
  }

  lemma {:induction false} FieldStands(fields: seq<Bytes>, k: nat)
    requires k < |fields|
    ensures StandsAt(Join(fields), Offset(Lengths(fields), k), fields[k])
  {
    var tail := fields[1..];
    assert Lengths(fields)[1..] == Lengths(tail);
    if k > 0 {
      FieldStands(tail, k - 1);
      OffsetOfTail(Lengths(fields), k);
      var at := Offset(Lengths(tail), k - 1);
      assert Join(fields)[|fields[0]| + at..|fields[0]| + at + |fields[k]|] == Join(tail)[at..at + |fields[k]|];
    }
  }

  lemma {:induction false} JoinLength(fields: seq<Bytes>)
    ensures |Join(fields)| == Offset(Lengths(fields), |fields|)
  {
    if fields != [] {
      JoinLength(fields[1..]);
      assert Lengths(fields)[1..] == Lengths(fields[1..]);
      OffsetOfTail(Lengths(fields), |fields|);
    }
  }

  /** Byte `i` of a little-endian word. */
  lemma {:induction false} LittleByte(width: nat, n: nat, i: nat)
    requires i < width
    ensures Little(width, n)[i] == n / Pow256(i) % 256
  {
    if i > 0 {
      LittleByte(width - 1, n / 256, i - 1);
      DivideTwice(n, Pow256(i - 1));
    }
  }

  lemma DivideTwice(n: nat, p: nat)
    requires p >= 1
    ensures n / 256 / p == n / (256 * p)
  {
    var q := n / 256 / p;
    assert n == 256 * (n / 256) + n % 256 && n / 256 == p * q + n / 256 % p;
    var r := 256 * (n / 256 % p) + n % 256;
    assert n == q * (256 * p) + r by {
      assert 256 * (p * q) == q * (256 * p);
    }
    assert 0 <= r < 256 * p;
    QuotientIs(n, 256 * p, q, r);
  }

  lemma QuotientIs(n: nat, d: nat, q: nat, r: nat)
    requires n == q * d + r && r < d
    ensures n / d == q
  {
    var x := n / d;
    assert n == x * d + n % d;
    assert x + 1 <= q ==> (x + 1) * d <= q * d;
    assert q + 1 <= x ==> (q + 1) * d <= x * d;
  }

  // ---- The records ----------------------------------------------------------------------

  lemma IdentityLayout(i: Identity)
    requires FitsIdentity(i)
    ensures var s := Join(IdentityFields(i));
            && |s| == 1165
            && StandsAt(s, 0, Little(4, i.id)) && StandsAt(s, 4, i.name)
            && StandsAt(s, 132, Little(4, i.kind)) && StandsAt(s, 136, Little(4, i.status))
            && s[140] == (if i.hasPass then 1 else 0)
            && StandsAt(s, 141, i.path) && StandsAt(s, 653, i.cipherPath)
  {
    var f := IdentityFields(i);
    var s := Join(f);
    JoinLength(f);
    forall k | 0 <= k < |f|
      ensures StandsAt(s, Offset(IDENTITY, k), f[k])
    {
      FieldStands(f, k);
    }
    assert |f| == 7 && Offset(IDENTITY, 0) == 0 && Offset(IDENTITY, 1) == 4 && Offset(IDENTITY, 2) == 132;
    assert Offset(IDENTITY, 3) == 136 && Offset(IDENTITY, 4) == 140 && Offset(IDENTITY, 5) == 141;
    assert Offset(IDENTITY, 6) == 653 && Offset(IDENTITY, 7) == 1165;
    assert StandsAt(s, 0, f[0]) && StandsAt(s, 4, f[1]) && StandsAt(s, 132, f[2]) && StandsAt(s, 136, f[3]);
    assert StandsAt(s, 140, f[4]) && StandsAt(s, 141, f[5]) && StandsAt(s, 653, f[6]);
    assert s[140] == s[140..141][0] == f[4][0];
  }

  lemma ChecksLayout(c: Checks)
    requires FitsChecks(c)
    ensures var s := Join(ChecksFields(c));
            && |s| == 20
            && StandsAt(s, 0, Little(8, Unsign(8, c.createdAt))) && StandsAt(s, 8, Little(8, Unsign(8, c.lastCheck)))
            && StandsAt(s, 16, Little(4, Unsign(4, c.failedAttempts)))
  {
    var f := ChecksFields(c);
    JoinLength(f);
    assert |f| == 3 && Offset(CHECKS, 0) == 0 && Offset(CHECKS, 1) == 8 && Offset(CHECKS, 2) == 16 && Offset(CHECKS, 3) == 20;
    FieldStands(f, 0);
    FieldStands(f, 1);
    FieldStands(f, 2);
  }

  lemma AlertLayout(a: Alert)
    requires FitsAlert(a)
    ensures var s := Join(AlertFields(a));
            && |s| == 288
            && StandsAt(s, 0, Little(8, a.intervalIdx)) && StandsAt(s, 8, Little(8, Unsign(8, a.firstTriggered)))
            && StandsAt(s, 16, Little(8, Unsign(8, a.lastAlerted))) && StandsAt(s, 24, Little(8, a.alertCount))
            && StandsAt(s, 32, a.reason)
  {
    var f := AlertFields(a);
    JoinLength(f);
    assert |f| == 5 && Offset(ALERT, 0) == 0 && Offset(ALERT, 1) == 8 && Offset(ALERT, 2) == 16;
    assert Offset(ALERT, 3) == 24 && Offset(ALERT, 4) == 32 && Offset(ALERT, 5) == 288;
    FieldStands(f, 0);
    FieldStands(f, 1);
    FieldStands(f, 2);
    FieldStands(f, 3);
    FieldStands(f, 4);
  }

  lemma AuthLayout(a: Auth)
    requires FitsAuth(a)
    ensures var s := Join(AuthFields(a));
            |s| == 68 && StandsAt(s, 0, a.salt) && StandsAt(s, 32, a.passHash) && StandsAt(s, 64, Little(4, a.wormFlags))
  {
    var f := AuthFields(a);
    JoinLength(f);
    assert |f| == 3 && Offset(AUTH, 0) == 0 && Offset(AUTH, 1) == 32 && Offset(AUTH, 2) == 64 && Offset(AUTH, 3) == 68;
    FieldStands(f, 0);
    FieldStands(f, 1);
    FieldStands(f, 2);
  }

  /** A tracked file takes 330 bytes: its name with zeros behind it, its hash, when it was last
      seen, and its flag. */
  lemma EntryLayout(e: Entry)
    requires FitsEntry(e)
    ensures var s := PrintEntry(e);
            && |s| == 330
            && StandsAt(s, 0, e.name) && (forall i :: |e.name| <= i < 256 ==> s[i] == 0)
            && StandsAt(s, 256, e.hash) && StandsAt(s, 321, Little(8, Unsign(8, e.lastSeen)))
            && s[329] == if e.modified then 1 else 0
  {
    var f := EntryFields(e);
    var s := PrintEntry(e);
    JoinLength(f);
    assert |f| == 4 && Offset(ENTRY, 0) == 0 && Offset(ENTRY, 1) == 256 && Offset(ENTRY, 2) == 321;
    assert Offset(ENTRY, 3) == 329 && Offset(ENTRY, 4) == 330;
    FieldStands(f, 0);
    FieldStands(f, 1);
    FieldStands(f, 2);
    FieldStands(f, 3);
    assert s[329] == s[329..330][0] == f[3][0];
    assert forall i :: 0 <= i < 256 ==> s[i] == s[0..256][i] == Pad(e.name)[i];
    assert s[0..|e.name|] == e.name;
  }

  lemma {:induction false} RowsStand(rows: seq<Bytes>, width: nat, k: nat)
    requires k < |rows| && forall i :: 0 <= i < |rows| ==> |rows[i]| == width
    ensures |Flatten(rows)| == |rows| * width && StandsAt(Flatten(rows), k * width, rows[k])
  {
    var front := rows[..|rows| - 1];
    if k < |front| {
      RowsStand(front, width, k);
      assert Flatten(rows)[k * width..k * width + width] == Flatten(front)[k * width..k * width + width];
    } else {
      RowsLength(front, width);
    }
    RowsLength(rows, width);
  }

  lemma {:induction false} RowsLength(rows: seq<Bytes>, width: nat)
    requires forall i :: 0 <= i < |rows| ==> |rows[i]| == width
    ensures |Flatten(rows)| == |rows| * width
  {
    if rows != [] {
      RowsLength(rows[..|rows| - 1], width);
      assert |rows| * width == (|rows| - 1) * width + width;
    }
  }

  lemma SixParts(a: Bytes, b: Bytes, c: Bytes, d: Bytes, e: Bytes, f: Bytes)
    ensures var s := a + (b + (c + (d + (e + f))));
            && |s| == |a| + |b| + |c| + |d| + |e| + |f|
            && StandsAt(s, 0, a) && StandsAt(s, |a|, b) && StandsAt(s, |a| + |b|, c) && StandsAt(s, |a| + |b| + |c|, d)
            && StandsAt(s, |a| + |b| + |c| + |d|, e) && StandsAt(s, |a| + |b| + |c| + |d| + |e|, f)
  {
  }

  lemma RowsOfVault(bucketOf: Name -> Bucket, v: Vault)
    requires FitsVault(bucketOf, v)
    ensures var rows := EntryImages(Files(bucketOf, v));
            |rows| == Printed(v.count) && forall i :: 0 <= i < |rows| ==> |rows[i]| == 330
  {
    var es := Files(bucketOf, v);
    forall i | 0 <= i < |es|
      ensures |EntryImages(es)[i]| == 330
    {
      EntryLayout(es[i]);
    }
  }

  /** A vault takes 1545 bytes and 330 more for each file that is printed. */
  lemma VaultLayout(bucketOf: Name -> Bucket, v: Vault)
    requires FitsVault(bucketOf, v)
    ensures var s, n := PrintVault(bucketOf, v), Printed(v.count);
            && |s| == 1545 + n * 330
            && StandsAt(s, 0, Join(IdentityFields(v.identity))) && StandsAt(s, 1165, Join(ChecksFields(v.checks)))
            && StandsAt(s, 1185, Join(AlertFields(v.alert))) && StandsAt(s, 1473, Join(AuthFields(v.auth)))
            && StandsAt(s, 1541, Little(4, n)) && StandsAt(s, 1545, Flatten(EntryImages(Files(bucketOf, v))))
  {
    IdentityLayout(v.identity);
    ChecksLayout(v.checks);
    AlertLayout(v.alert);
    AuthLayout(v.auth);
    RowsOfVault(bucketOf, v);
    RowsLength(EntryImages(Files(bucketOf, v)), 330);
    SixParts(Join(IdentityFields(v.identity)), Join(ChecksFields(v.checks)), Join(AlertFields(v.alert)),
             Join(AuthFields(v.auth)), Little(4, Printed(v.count)), Flatten(EntryImages(Files(bucketOf, v))));
  }

  /** The files stand in the order of the walk. */
  lemma FileLayout(bucketOf: Name -> Bucket, v: Vault, k: nat)
    requires FitsVault(bucketOf, v) && k < Printed(v.count)
    ensures |Files(bucketOf, v)| == Printed(v.count) <= |Flatten(v.chains)|
    ensures Files(bucketOf, v)[k] == Flatten(v.chains)[k]
    ensures StandsAt(PrintVault(bucketOf, v), 1545 + k * 330, PrintEntry(Files(bucketOf, v)[k]))
  {
    var rows := EntryImages(Files(bucketOf, v));
    VaultLayout(bucketOf, v);
    RowsOfVault(bucketOf, v);
    RowsStand(rows, 330, k);
    StandsWithin(PrintVault(bucketOf, v), 1545, Flatten(rows), k * 330, rows[k]);
  }

  lemma StandsWithin(s: Bytes, at: nat, part: Bytes, more: nat, field: Bytes)
    requires StandsAt(s, at, part) && StandsAt(part, more, field)
    ensures StandsAt(s, at + more, field)
  {
    forall i | 0 <= i < |field|
      ensures s[at + more + i] == field[i]
    {
      assert s[at + more + i] == s[at..at + |part|][more + i] == part[more..more + |field|][i];
    }
  }

  lemma HeaderLayout(c: Catalog)
    requires |c.category| == 32
    ensures var s := Join(HeaderFields(c));
            && |s| == 40 && StandsAt(s, 0, Little(4, |c.vaults|))
            && StandsAt(s, 4, Little(4, c.nextId)) && StandsAt(s, 8, c.category)
  {
    var f := HeaderFields(c);
    JoinLength(f);
    assert |f| == 3 && Offset(HEADER, 0) == 0 && Offset(HEADER, 1) == 4 && Offset(HEADER, 2) == 8 && Offset(HEADER, 3) == 40;
    FieldStands(f, 0);
    FieldStands(f, 1);
    FieldStands(f, 2);
  }

  lemma FourParts(a: Bytes, b: Bytes, c: Bytes, d: Bytes)
    ensures var s := a + (b + (c + d));
            && |s| == |a| + |b| + |c| + |d|
            && s[..|a|] == a && StandsAt(s, |a|, b) && StandsAt(s, |a| + |b|, c) && s[|a| + |b| + |c|..] == d
  {
  }

  lemma HeaderStands(a: Bytes, header: Bytes, mac: Bytes, d: Bytes, count: Bytes, next: Bytes, category: Bytes)
    requires |a| == 5 && |header| == 40 && |mac| == 1
    requires StandsAt(header, 0, count) && StandsAt(header, 4, next) && StandsAt(header, 8, category)
    ensures var s := a + (header + (mac + d));
            && |s| == 46 + |d| && s[..5] == a && StandsAt(s, 45, mac) && s[46..] == d
            && StandsAt(s, 5, count) && StandsAt(s, 9, next) && StandsAt(s, 13, category)
  {
    var s := a + (header + (mac + d));
    FourParts(a, header, mac, d);
    StandsWithin(s, 5, header, 0, count);
    StandsWithin(s, 5, header, 4, next);
    StandsWithin(s, 5, header, 8, category);
  }

  lemma ImageParts(bucketOf: Name -> Bucket, c: Catalog)
    requires FitsCatalog(bucketOf, c)
    ensures Image(bucketOf, c, 3) ==
            [86, 76, 84, 83, 3] + (Join(HeaderFields(c)) + (MacBytes(c, 3) + Flatten(Images(bucketOf, c.vaults))))
  {
    assert MAGIC + [3] == [86, 76, 84, 83, 3];
  }

  /** The file starts with `VLTS` and the version, then the number of vaults, the next id, the
      category and the mode; the vaults follow. */
  lemma ImageLayout(bucketOf: Name -> Bucket, c: Catalog)
    requires FitsCatalog(bucketOf, c)
    ensures var s := Image(bucketOf, c, 3);
            && |s| == 46 + |Flatten(Images(bucketOf, c.vaults))|
            && s[..5] == [86, 76, 84, 83, 3]
            && StandsAt(s, 5, Little(4, |c.vaults|)) && StandsAt(s, 9, Little(4, c.nextId)) && StandsAt(s, 13, c.category)
            && StandsAt(s, 45, Little(1, Unsign(1, c.macMode)))
            && s[46..] == Flatten(Images(bucketOf, c.vaults))
  {
    HeaderLayout(c);
    ImageParts(bucketOf, c);
    HeaderStands([86, 76, 84, 83, 3], Join(HeaderFields(c)), MacBytes(c, 3), Flatten(Images(bucketOf, c.vaults)),
                 Little(4, |c.vaults|), Little(4, c.nextId), c.category);
  }

  /** What does not start so is refused, and what was written by another version than 2 or 3 is
      taken for a new catalog. */
  lemma OtherFiles(bucketOf: Name -> Bucket, s: Bytes)
    ensures |s| < 5 || s[0] != 86 || s[1] != 76 || s[2] != 84 || s[3] != 83 ==> Load(bucketOf, s) == Failed
    ensures Load(bucketOf, s) == Fresh <==> 5 <= |s| && s[..4] == [86, 76, 84, 83] && s[4] !in {2, 3}
  {
    assert |s| >= 4 && s[..4] == MAGIC ==> s[0] == MAGIC[0] && s[1] == MAGIC[1] && s[2] == MAGIC[2] && s[3] == MAGIC[3];
  }
}
