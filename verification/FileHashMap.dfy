/** The chained hash map of tracked files (c_src/vault/vault_catalog.c:118-175). Nothing here
    depends on which hash picks the bucket, so the map takes any bucket function. */
module FileHashMap {
  import opened ByteLayout
  import opened Sequences

  const BUCKETS: nat := 256
  const NAME_MAX: nat := 255

  type Bucket = b: nat | b < BUCKETS

  /** A C string that fits d_name and the 256 bytes of FileEntry.filename. */
  predicate IsName(s: Bytes) { |s| <= NAME_MAX && forall i :: 0 <= i < |s| ==> s[i] != 0 }

  type Name = s: Bytes | IsName(s)

  /** Entries are only ever linked in at the head of a chain, so `next` never changes. */
  class FileEntry {
    const filename: Name
    const next: FileEntry?
    var hash: Bytes
    var lastSeen: int
    var modified: bool

    constructor (filename: Name, next: FileEntry?)
      ensures this.filename == filename && this.next == next
      ensures hash == [] && lastSeen == 0 && !modified
    {
      this.filename, this.next, hash, lastSeen, modified := filename, next, [], 0, false;
    }
  }

  /** `chain` lists the entries that the links from `head` visit. */
  ghost predicate Linked(head: FileEntry?, chain: seq<FileEntry>) {
    if chain == [] then head == null
    else head == chain[0] && Linked(chain[0].next, chain[1..])
  }

  ghost predicate NamesDistinct(chain: seq<FileEntry>) {
    forall i, j :: 0 <= i < j < |chain| ==> chain[i].filename != chain[j].filename
  }

  /** The chains refine the finite map: every entry is in the chain of its own bucket and in
      no other, and no name occurs twice. */
  ghost predicate Refines(bucketOf: Name -> Bucket, heads: seq<FileEntry?>, chains: seq<seq<FileEntry>>,
                          entries: map<Name, FileEntry>)
  {
    && |heads| == BUCKETS == |chains|
    && (forall b :: 0 <= b < BUCKETS ==> Linked(heads[b], chains[b]) && NamesDistinct(chains[b]))
    && (forall n :: n in entries ==> entries[n].filename == n && entries[n] in chains[bucketOf(n)])
    && (forall b, e :: 0 <= b < BUCKETS && e in chains[b] ==>
          bucketOf(e.filename) == b && e.filename in entries && entries[e.filename] == e)
  }

  /** A new name pushed on the head of its own chain. */
  lemma PushRefines(bucketOf: Name -> Bucket, heads: seq<FileEntry?>, chains: seq<seq<FileEntry>>,
                    entries: map<Name, FileEntry>, e: FileEntry)
    requires Refines(bucketOf, heads, chains, entries)
    requires e.filename !in entries && e.next == heads[bucketOf(e.filename)]
    ensures var b := bucketOf(e.filename);
            Refines(bucketOf, heads[b := e], chains[b := [e] + chains[b]], entries[e.filename := e])
  {
    var b := bucketOf(e.filename);
    var chain := [e] + chains[b];
    assert chain[1..] == chains[b];
    forall i, j | 0 <= i < j < |chain|
      ensures chain[i].filename != chain[j].filename
    {
      assert chain[j] in chains[b];
    }
  }

  ghost predicate Disjoint(chains: seq<seq<FileEntry>>) {
    && (forall b :: 0 <= b < |chains| ==> NamesDistinct(chains[b]))
    && forall a, b, x, y :: 0 <= a < b < |chains| && x in chains[a] && y in chains[b] ==> x.filename != y.filename
  }

  lemma {:induction false} WalkNamesDistinct(chains: seq<seq<FileEntry>>)
    requires Disjoint(chains)
    ensures NamesDistinct(Flatten(chains))
  {
    if chains != [] {
      var k := |chains| - 1;
      var front := chains[..k];
      WalkNamesDistinct(front);
      forall i, j | 0 <= i < |Flatten(front)| && 0 <= j < |chains[k]|
        ensures Flatten(front)[i].filename != chains[k][j].filename
      {
        FlattenMembers(front, Flatten(front)[i]);
        var b :| 0 <= b < k && Flatten(front)[i] in front[b];
        assert chains[b] == front[b];
      }
    }
  }

  /** A walk over the chains comes to every entry of the map, and to no name twice. */
  lemma WalkEnumerates(bucketOf: Name -> Bucket, heads: seq<FileEntry?>, chains: seq<seq<FileEntry>>,
                       entries: map<Name, FileEntry>)
    requires Refines(bucketOf, heads, chains, entries)
    ensures NamesDistinct(Flatten(chains))
    ensures forall e :: e in Flatten(chains) <==> e.filename in entries && entries[e.filename] == e
  {
    assert Disjoint(chains);
    WalkNamesDistinct(chains);
    forall e: FileEntry
      ensures e in Flatten(chains) <==> e.filename in entries && entries[e.filename] == e
    {
      FlattenMembers(chains, e);
    }
  }

  class FileHashMap {
    const bucketOf: Name -> Bucket
    const buckets: array<FileEntry?>
    var count: nat
    /** The chain of each bucket, and the entry of each name. */
    ghost var chains: seq<seq<FileEntry>>
    ghost var entries: map<Name, FileEntry>

    ghost predicate Valid()
      reads this, buckets
    {
      Refines(bucketOf, buckets[..], chains, entries) && count == |entries|
    }

    constructor (bucketOf: Name -> Bucket)
      ensures Valid() && entries == map[] && this.bucketOf == bucketOf
      ensures fresh(buckets)
    {
      this.bucketOf := bucketOf;
      buckets := new FileEntry?[BUCKETS](i => null);
      count := 0;
      chains := seq(BUCKETS, i => []);
      entries := map[];
    }

    /** hashmap_find, lines 133-140. */
    method Find(filename: Name) returns (e: FileEntry?)
      requires Valid()
      ensures e == if filename in entries then entries[filename] else null
    {
      var b := bucketOf(filename);
      e := buckets[b];
      ghost var rest := chains[b];
      while e != null
        invariant Linked(e, rest)
        invariant forall x :: x in rest ==> x in chains[b]
        invariant filename in entries ==> entries[filename] in rest
        decreases |rest|
      {
        if e.filename == filename {
          return;
        }
        e := e.next;
        rest := rest[1..];
      }
    }

    /** hashmap_insert, lines 142-159, with memory to spare: the existing entry, or a new one
        at the head of its chain. */
    method Insert(filename: Name) returns (e: FileEntry)
      requires Valid()
      modifies this, buckets
      ensures Valid()
      ensures filename in old(entries) ==> unchanged(this) && unchanged(buckets) && e == entries[filename]
      ensures filename !in old(entries) ==>
                && fresh(e) && e.filename == filename && !e.modified
                && entries == old(entries)[filename := e]
                && chains == old(chains)[bucketOf(filename) := [e] + old(chains)[bucketOf(filename)]]
    {
      var b := bucketOf(filename);
      var found := Find(filename);
      if found != null {
        return found;
      }
      e := new FileEntry(filename, buckets[b]);
      PushRefines(bucketOf, buckets[..], chains, entries, e);
      buckets[b] := e;
      assert buckets[..] == old(buckets[..])[b := e];
      count := count + 1;
      chains := chains[b := [e] + chains[b]];
      entries := entries[filename := e];
    }
  }
}
