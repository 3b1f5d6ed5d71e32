/** One map of tracked files, seen three ways: the linked chains of FileHashMap, the records
    that IntegrityScan compares, and the chains of values that CatalogCodec prints. */
module TrackedFiles {
  import opened FileHashMap
  import opened Sequences
  import Codec = CatalogCodec
  import Scan = IntegrityScan

  /** What the scan knows of the entries. */
  ghost function RecordsOf(entries: map<Name, FileEntry>): Scan.Records
    reads entries.Values
  {
    map n | n in entries :: Scan.Record(entries[n].hash, entries[n].lastSeen, entries[n].modified)
  }

  function NamesOf(chain: seq<FileEntry>): (names: seq<Name>)
    ensures |names| == |chain| && forall i :: 0 <= i < |chain| ==> names[i] == chain[i].filename
  {
    seq(|chain|, i requires 0 <= i < |chain| => chain[i].filename)
  }

  function NameChains(chains: seq<seq<FileEntry>>): (names: seq<seq<Name>>)
    ensures |names| == |chains| && forall b :: 0 <= b < |chains| ==> names[b] == NamesOf(chains[b])
  {
    seq(|chains|, b requires 0 <= b < |chains| => NamesOf(chains[b]))
  }

  lemma {:induction false} FlattenNames(chains: seq<seq<FileEntry>>)
    ensures Flatten(NameChains(chains)) == NamesOf(Flatten(chains))
  {
    if chains != [] {
      var k := |chains| - 1;
      FlattenNames(chains[..k]);
      assert NameChains(chains)[..k] == NameChains(chains[..k]);
      assert NamesOf(Flatten(chains[..k]) + chains[k]) == NamesOf(Flatten(chains[..k])) + NamesOf(chains[k]);
    }
  }

  /** The chains list the records of the scan: each tracked name once. So the pass over the
      chains and the report made from them may use the map's own chains. */
  lemma ChainsListRecords(bucketOf: Name -> Bucket, heads: seq<FileEntry?>, chains: seq<seq<FileEntry>>,
                          entries: map<Name, FileEntry>)
    requires Refines(bucketOf, heads, chains, entries)
    ensures Scan.Lists(Flatten(NameChains(chains)), RecordsOf(entries))
  {
    var walk := Flatten(chains);
    FlattenNames(chains);
    WalkEnumerates(bucketOf, heads, chains, entries);
    forall n: Name
      ensures n in entries <==> n in NamesOf(walk)
    {
      if n in entries {
        var i :| 0 <= i < |walk| && walk[i] == entries[n];
        assert NamesOf(walk)[i] == n;
      }
      if n in NamesOf(walk) {
        var i :| 0 <= i < |walk| && NamesOf(walk)[i] == n;
        assert walk[i] in walk;
      }
    }
  }

  ghost function EntryOf(e: FileEntry): Codec.Entry
    reads e
  {
    Codec.Entry(e.filename, e.hash, e.lastSeen, e.modified)
  }

  ghost function EntriesOf(chain: seq<FileEntry>): (es: seq<Codec.Entry>)
    reads chain
    ensures |es| == |chain| && forall i :: 0 <= i < |chain| ==> es[i] == EntryOf(chain[i])
  {
    seq(|chain|, i requires 0 <= i < |chain| reads chain => EntryOf(chain[i]))
  }

  function SetOf(chain: seq<FileEntry>): set<FileEntry> { set e | e in chain }

  ghost function Members(chains: seq<seq<FileEntry>>): set<FileEntry> {
    if chains == [] then {} else Members(chains[..|chains| - 1]) + SetOf(chains[|chains| - 1])
  }

  ghost function EntryChains(chains: seq<seq<FileEntry>>): (cs: Codec.Chains)
    reads Members(chains)
    ensures |cs| == |chains| && forall b :: 0 <= b < |chains| ==> cs[b] == EntriesOf(chains[b])
  {
    if chains == [] then [] else EntryChains(chains[..|chains| - 1]) + [EntriesOf(chains[|chains| - 1])]
  }

  lemma {:induction false} FlattenEntries(chains: seq<seq<FileEntry>>)
    ensures Flatten(EntryChains(chains)) == EntriesOf(Flatten(chains))
  {
    if chains != [] {
      var k := |chains| - 1;
      FlattenEntries(chains[..k]);
      assert EntryChains(chains)[..k] == EntryChains(chains[..k]);
      assert EntriesOf(Flatten(chains[..k]) + chains[k]) == EntriesOf(Flatten(chains[..k])) + EntriesOf(chains[k]);
    }
  }

  /** A walk is as long as the map is large. */
  lemma WalkIsWhole(bucketOf: Name -> Bucket, heads: seq<FileEntry?>, chains: seq<seq<FileEntry>>,
                    entries: map<Name, FileEntry>)
    requires Refines(bucketOf, heads, chains, entries)
    ensures |Flatten(chains)| == |entries|
  {
    ChainsListRecords(bucketOf, heads, chains, entries);
    FlattenNames(chains);
    var names := NamesOf(Flatten(chains));
    DistinctCount(names);
    assert (set n | n in names) == entries.Keys by {
      assert RecordsOf(entries).Keys == entries.Keys;
    }
  }

  /** On values the chains are the sound map that the catalog file keeps, if each entry's hash
      and time fit their fields: what is printed and read back is this map. */
  lemma ChainsAreSound(bucketOf: Name -> Bucket, heads: seq<FileEntry?>, chains: seq<seq<FileEntry>>,
                       entries: map<Name, FileEntry>)
    requires Refines(bucketOf, heads, chains, entries)
    requires forall n :: n in entries ==> Codec.FitsEntry(EntryOf(entries[n]))
    ensures Codec.SoundMap(bucketOf, EntryChains(chains), |entries|)
  {
    WalkEnumerates(bucketOf, heads, chains, entries);
    WalkIsWhole(bucketOf, heads, chains, entries);
    FlattenEntries(chains);
    var cs := EntryChains(chains);
    forall b, x: Codec.Entry | 0 <= b < BUCKETS && x in cs[b]
      ensures bucketOf(x.name) == b && Codec.FitsEntry(x)
    {
      var i :| 0 <= i < |cs[b]| && cs[b][i] == x;
      assert chains[b][i] in chains[b];
    }
  }

  lemma {:induction false} NotInChain(chain: seq<FileEntry>, name: Name)
    requires forall e :: e in chain ==> e.filename != name
    ensures Codec.FindEntry(EntriesOf(chain), name) == |chain|
  {
    assert forall i :: 0 <= i < |chain| ==> EntriesOf(chain)[i].name == chain[i].filename != name;
  }

  /** Inserting a new name into the linked map is the insertion that a load makes on values. */
  lemma InsertsAgree(bucketOf: Name -> Bucket, heads: seq<FileEntry?>, chains: seq<seq<FileEntry>>,
                     entries: map<Name, FileEntry>, e: FileEntry)
    requires Refines(bucketOf, heads, chains, entries) && e.filename !in entries
    ensures var b := bucketOf(e.filename);
            EntryChains(chains[b := [e] + chains[b]]) == Codec.Insert(bucketOf, EntryChains(chains), EntryOf(e))
  {
    var b := bucketOf(e.filename);
    NotInChain(chains[b], e.filename);
    assert EntriesOf([e] + chains[b]) == [EntryOf(e)] + EntriesOf(chains[b]);
  }
}
