/** The integrity scan of a vault's directory (monitor_scan_vault in
    c_src/vault/vault_monitor.c) and the report made from it (vault_scan_report_ffi in
    c_src/vault/vault_ffi.c). The hash map of tracked files is the finite map that
    FileHashMap refines; `order` is the order in which its chains list the names. */
module IntegrityScan {

  import opened ByteLayout
  import opened FileHashMap
  import opened Options
  import opened Sequences
  import opened VaultStatus

  const DOT: Byte := 46
  const NEWLINE: Byte := 10

  /** What is recorded about one tracked file. */
  datatype Record = Record(hash: Bytes, lastSeen: int, modified: bool)

  type Records = map<Name, Record>

  /** One directory entry; the hash is missing when the entry could not be stat'ed or hashed
      or is not a regular file. */
  datatype Item = Item(name: Name, hash: Option<Bytes>)

  predicate Counts(item: Item) { item.name != [] && item.name[0] != DOT && item.hash.Some? }

  ghost predicate DistinctNames(listing: seq<Item>) {
    forall i, j :: 0 <= i < j < |listing| ==> listing[i].name != listing[j].name
  }

  /** The order in which the chains are walked: every tracked name once. */
  ghost predicate Lists(order: seq<Name>, tracked: Records) {
    Distinct(order) && forall n :: n in tracked <==> n in order
  }

  /** The files a scan gets to see, with their hashes. */
  function Seen(listing: seq<Item>): map<Name, Bytes> {
    if listing == [] then map[]
    else
      var item := listing[|listing| - 1];
      var front := Seen(listing[..|listing| - 1]);
      if Counts(item) then front[item.name := item.hash.value] else front
  }

  lemma {:induction false} SeenComesFromListing(listing: seq<Item>, n: Name)
    requires n in Seen(listing)
    ensures exists i :: 0 <= i < |listing| && listing[i].name == n
  {
    var k := |listing| - 1;
    if listing[k].name != n {
      SeenComesFromListing(listing[..k], n);
      var i :| 0 <= i < k && listing[..k][i].name == n;
      assert listing[i].name == n;
    }
  }

  /** A file that is there now: new files are registered, known ones compared. */
  function Present(before: Records, n: Name, hash: Bytes, now: int): Record {
    Record(hash, now, n in before && before[n].hash != hash)
  }

  /** A tracked file that was not seen is flagged if its last sighting is older than `now`. */
  function Absent(r: Record, now: int): Record {
    r.(modified := r.modified || r.lastSeen < now)
  }

  /** The records after the pass over the directory. */
  function AfterSightings(before: Records, seen: map<Name, Bytes>, now: int): Records {
    map n | n in before.Keys + seen.Keys :: if n in seen then Present(before, n, seen[n], now) else before[n]
  }

  /** The records after both passes. */
  function AfterScan(before: Records, seen: map<Name, Bytes>, now: int): Records {
    map n | n in before.Keys + seen.Keys :: if n in seen then Present(before, n, seen[n], now) else Absent(before[n], now)
  }

  predicate GoesUp(before: Records, after: Records, n: Name) {
    n in before && n in after && !before[n].modified && after[n].modified
  }

  /** The files an alert is raised for: those whose flag goes up. */
  function Raised(before: Records, after: Records): set<Name> {
    set n | n in before && GoesUp(before, after, n)
  }

  lemma RaisedByOne(before: Records, after: Records, n: Name, r: Record)
    requires n in before ==> n in after && after[n] == before[n]
    ensures |Raised(before, after[n := r])| == |Raised(before, after)| + if GoesUp(before, after[n := r], n) then 1 else 0
  {
    assert n !in Raised(before, after);
    assert Raised(before, after[n := r]) == Raised(before, after) + if GoesUp(before, after[n := r], n) then {n} else {};
  }

  /** The next directory entry has not been seen yet, so it is compared with what was recorded
      before the scan. */
  lemma SeenGrows(before: Records, listing: seq<Item>, i: nat, now: int)
    requires DistinctNames(listing) && i < |listing|
    ensures var item, prior := listing[i], AfterSightings(before, Seen(listing[..i]), now);
            AfterSightings(before, Seen(listing[..i + 1]), now) ==
            if Counts(item) then prior[item.name := Present(prior, item.name, item.hash.value, now)] else prior
    ensures var n, prior := listing[i].name, AfterSightings(before, Seen(listing[..i]), now);
            (n in before <==> n in prior) && (n in before ==> prior[n] == before[n])
  {
    var item := listing[i];
    assert listing[..i + 1][..i] == listing[..i];
    if item.name in Seen(listing[..i]) {
      SeenComesFromListing(listing[..i], item.name);
    }
  }

  /** The records after the first `i` steps of the second pass. */
  function AfterSweep(middle: Records, done: seq<Name>, now: int): Records {
    map n | n in middle :: if n in done then Absent(middle[n], now) else middle[n]
  }

  /** Sightings followed by the sweep over every tracked file are the whole scan: what was
      seen carries the time of this scan and is not swept up. */
  lemma SweepCompletesScan(before: Records, seen: map<Name, Bytes>, order: seq<Name>, now: int)
    requires Lists(order, AfterSightings(before, seen, now))
    ensures AfterSweep(AfterSightings(before, seen, now), order, now) == AfterScan(before, seen, now)
  {
  }

  /** The sweep comes to each file once. */
  lemma SweepGrows(middle: Records, order: seq<Name>, i: nat, now: int)
    requires Lists(order, middle) && i < |order|
    ensures var prior := AfterSweep(middle, order[..i], now);
            && order[i] in middle && prior.Keys == middle.Keys && prior[order[i]] == middle[order[i]]
            && AfterSweep(middle, order[..i + 1], now) == prior[order[i] := Absent(middle[order[i]], now)]
  {
    assert order[i] in order;
    forall n | n in order[..i + 1] && n !in order[..i]
      ensures n == order[i]
    {
    }
  }

  // ---- What a scan does, file by file ---------------------------------------------------

  /** The directory holds a readable regular file of that name, without a dot in front. */
  ghost predicate Sights(listing: seq<Item>, n: Name, i: int) {
    0 <= i < |listing| && listing[i].name == n && n != [] && n[0] != 46 && listing[i].hash.Some?
  }

  lemma {:induction false} SeenIff(listing: seq<Item>, n: Name)
    requires DistinctNames(listing)
    ensures n in Seen(listing) <==> exists i :: Sights(listing, n, i)
    ensures forall i :: Sights(listing, n, i) ==> n in Seen(listing) && Seen(listing)[n] == listing[i].hash.value
  {
    if listing != [] {
      var k := |listing| - 1;
      SeenIff(listing[..k], n);
      assert forall i :: 0 <= i < k ==> (Sights(listing[..k], n, i) <==> Sights(listing, n, i));
      if n in Seen(listing) {
        if n in Seen(listing[..k]) {
          var i :| Sights(listing[..k], n, i);
          assert Sights(listing, n, i);
        } else {
          assert Sights(listing, n, k);
        }
      }
    }
  }

  /** What is there is recorded with its hash, and flagged exactly if it was recorded with
      another one; what is recorded and not there keeps its record, flagged if it was or if its
      last sighting is older; and nothing else is recorded. */
  ghost predicate ScanEffect(before: Records, after: Records, listing: seq<Item>, now: int) {
    && (forall n, i :: Sights(listing, n, i) ==>
          && n in after && after[n].hash == listing[i].hash.value && after[n].lastSeen == now
          && (after[n].modified <==> n in before && before[n].hash != listing[i].hash.value))
    && (forall n :: n in before && (forall i :: !Sights(listing, n, i)) ==>
          && n in after && after[n].hash == before[n].hash && after[n].lastSeen == before[n].lastSeen
          && (after[n].modified <==> before[n].modified || before[n].lastSeen < now))
    && (forall n :: n in after ==> n in before || exists i :: Sights(listing, n, i))
  }

  lemma ScanDoes(before: Records, listing: seq<Item>, now: int)
    requires DistinctNames(listing)
    ensures ScanEffect(before, AfterScan(before, Seen(listing), now), listing, now)
  {
    forall n
      ensures n in Seen(listing) <==> exists i :: Sights(listing, n, i)
      ensures forall i :: Sights(listing, n, i) ==> n in Seen(listing) && Seen(listing)[n] == listing[i].hash.value
    {
      SeenIff(listing, n);
    }
  }

  class ScannedVault {
    var status: Status
    var files: Records
    var alerts: nat
    var lastCheck: int

    constructor (files: Records)
      ensures this.files == files && alerts == 0 && status == OK
    {
      this.files, alerts, lastCheck, status := files, 0, 0, OK;
    }

    /** Lines 308-337: one directory entry that counts. */
    method Visit(n: Name, newHash: Bytes, now: int)
      modifies this
      ensures files == old(files)[n := Present(old(files), n, newHash, now)]
      ensures alerts == old(alerts) + if GoesUp(old(files), files, n) then 1 else 0
      ensures lastCheck == old(lastCheck) && status == if alerts > old(alerts) then ALERT else old(status)
    {
      if n !in files {
        files := files[n := Record(newHash, now, false)];
      } else {
        if files[n].hash != newHash {
          if !files[n].modified {
            files := files[n := files[n].(modified := true)];
            alerts, status := alerts + 1, ALERT;
          }
          files := files[n := files[n].(hash := newHash)];
        } else {
          files := files[n := files[n].(modified := false)];
        }
        files := files[n := files[n].(lastSeen := now)];
      }
    }

    /** Lines 288-340: the pass over the directory. */
    method Sight(listing: seq<Item>, now: int)
      requires DistinctNames(listing)
      modifies this
      ensures files == AfterSightings(old(files), Seen(listing), now)
      ensures alerts == old(alerts) + |Raised(old(files), files)|
      ensures lastCheck == old(lastCheck) && status == if alerts > old(alerts) then ALERT else old(status)
    {
      ghost var before := files;
      assert Raised(before, before) == {};
      for i := 0 to |listing|
        invariant files == AfterSightings(before, Seen(listing[..i]), now)
        invariant alerts == old(alerts) + |Raised(before, files)|
        invariant lastCheck == old(lastCheck) && status == if alerts > old(alerts) then ALERT else old(status)
      {
        var item := listing[i];
        ghost var prior := files;
        SeenGrows(before, listing, i, now);
        if item.name != [] && item.name[0] != DOT && item.hash.Some? {
          Visit(item.name, item.hash.value, now);
          RaisedByOne(before, prior, item.name, files[item.name]);
        }
      }
      assert listing[..|listing|] == listing;
    }

    /** Lines 348-358: one tracked file that may be missing. */
    method Expire(n: Name, now: int)
      requires n in files
      modifies this
      ensures files == old(files)[n := Absent(old(files[n]), now)]
      ensures alerts == old(alerts) + if GoesUp(old(files), files, n) then 1 else 0
      ensures lastCheck == old(lastCheck) && status == if alerts > old(alerts) then ALERT else old(status)
    {
      if files[n].lastSeen < now {
        if !files[n].modified {
          files := files[n := files[n].(modified := true)];
          alerts, status := alerts + 1, ALERT;
        }
      }
    }

    /** Lines 343-361: the pass over the chains. */
    method Sweep(order: seq<Name>, now: int)
      requires Lists(order, files)
      modifies this
      ensures files == AfterSweep(old(files), order, now)
      ensures alerts == old(alerts) + |Raised(old(files), files)|
      ensures lastCheck == old(lastCheck) && status == if alerts > old(alerts) then ALERT else old(status)
    {
      ghost var middle := files;
      assert Raised(middle, middle) == {};
      for i := 0 to |order|
        invariant files == AfterSweep(middle, order[..i], now)
        invariant alerts == old(alerts) + |Raised(middle, files)|
        invariant lastCheck == old(lastCheck) && status == if alerts > old(alerts) then ALERT else old(status)
      {
        ghost var prior := files;
        SweepGrows(middle, order, i, now);
        Expire(order[i], now);
        RaisedByOne(middle, prior, order[i], files[order[i]]);
      }
      assert order[..|order|] == order;
    }

    /** monitor_scan_vault. A deleted vault, or one whose directory does not open, is left as it
        is, the time of the last check included. `order` is what the chains list once the first
        pass has registered the new files. */
    method Scan(opens: bool, listing: seq<Item>, order: seq<Name>, now: int, finished: int)
      requires DistinctNames(listing) && Lists(order, AfterSightings(files, Seen(listing), now))
      modifies this
      ensures old(status) == DELETED || !opens ==>
                files == old(files) && alerts == old(alerts) && lastCheck == old(lastCheck)
      ensures old(status) != DELETED && opens ==>
                && files == AfterScan(old(files), Seen(listing), now)
                && alerts == old(alerts) + |Raised(old(files), files)|
                && lastCheck == finished
      ensures old(status) != DELETED && opens ==>
                && ScanEffect(old(files), files, listing, now)
                && alerts - old(alerts) ==
                     |set n | n in old(files) && n in files && !old(files)[n].modified && files[n].modified|
      ensures status == if alerts > old(alerts) then ALERT else old(status)
    {
      if status == DELETED || !opens {
        return;
      }
      ghost var before := files;
      Sight(listing, now);
      ghost var middle := files;
      Sweep(order, now);
      SweepCompletesScan(before, Seen(listing), order, now);
      RaisedInTwoPasses(before, Seen(listing), now);
      ScanDoes(before, listing, now);
      RaisedAre(before, files);
      lastCheck := finished;
    }
  }

  lemma RaisedAre(before: Records, after: Records)
    ensures Raised(before, after) == set n | n in before && n in after && !before[n].modified && after[n].modified
  {
  }

  /** No file is raised by both passes. */
  lemma RaisedInTwoPasses(before: Records, seen: map<Name, Bytes>, now: int)
    ensures var middle, after := AfterSightings(before, seen, now), AfterScan(before, seen, now);
            |Raised(before, after)| == |Raised(before, middle)| + |Raised(middle, after)|
  {
    var middle, after := AfterSightings(before, seen, now), AfterScan(before, seen, now);
    assert Raised(before, middle) !! Raised(middle, after);
    assert Raised(before, after) == Raised(before, middle) + Raised(middle, after);
  }

  // ---- Runs of scans --------------------------------------------------------------------

  /** What one scan saw and when it started. */
  datatype Sighting = Sighting(seen: map<Name, Bytes>, now: int)

  /** The records after a run of scans of a vault that was just created. */
  function After(scans: seq<Sighting>): Records {
    if scans == [] then map[]
    else
      var last := scans[|scans| - 1];
      AfterScan(After(scans[..|scans| - 1]), last.seen, last.now)
  }

  /** Scan `j` is the last one before scan `k` that saw `n`. */
  ghost predicate LastSight(scans: seq<Sighting>, n: Name, j: int, k: int) {
    && 0 <= j < k <= |scans| && n in scans[j].seen
    && forall i :: j < i < k ==> n !in scans[i].seen
  }

  /** At scan `j` the file was not as it was when it was seen before. */
  ghost predicate ChangedAt(scans: seq<Sighting>, n: Name, j: nat)
    requires j < |scans| && n in scans[j].seen
  {
    exists i :: LastSight(scans, n, i, j) && scans[i].seen[n] != scans[j].seen[n]
  }

  /** Some scan later than scan `j`, which last saw the file, started at a later second. */
  ghost predicate MissedAfter(scans: seq<Sighting>, j: nat)
    requires j < |scans|
  {
    exists i :: j < i < |scans| && scans[i].now > scans[j].now
  }

  /** What the record says of a file last seen by scan `j`. */
  ghost predicate Tells(scans: seq<Sighting>, n: Name, j: nat, r: Record)
    requires j < |scans| && n in scans[j].seen
  {
    && r.hash == scans[j].seen[n]
    && r.lastSeen == scans[j].now
    && (r.modified <==> ChangedAt(scans, n, j) || MissedAfter(scans, j))
  }

  /** What a run of scans leaves recorded, whatever the clock does: a file is tracked once it
      was seen; its hash is that of the last sighting; and it is flagged exactly if that
      sighting differed from the one before it, or it was missed at a later time. */
  lemma {:induction false} RecordsTellHistory(scans: seq<Sighting>, n: Name)
    ensures n in After(scans) <==> exists j :: LastSight(scans, n, j, |scans|)
    ensures forall j :: LastSight(scans, n, j, |scans|) ==> n in After(scans) && Tells(scans, n, j, After(scans)[n])
  {
    if scans != [] {
      var k := |scans| - 1;
      var front := scans[..k];
      RecordsTellHistory(front, n);
      if n in scans[k].seen {
        assert LastSight(scans, n, k, |scans|);
        if n in After(front) {
          var i :| LastSight(front, n, i, k);
          assert LastSight(scans, n, i, k);
          assert ChangedAt(scans, n, k) <==> scans[i].seen[n] != scans[k].seen[n];
        } else {
          forall i | LastSight(scans, n, i, k)
            ensures LastSight(front, n, i, k)
          {
          }
        }
      } else {
        forall j | LastSight(scans, n, j, |scans|)
          ensures LastSight(front, n, j, k)
          ensures Tells(scans, n, j, After(scans)[n])
        {
          assert LastSight(front, n, j, k);
          ChangeIsSettled(scans, n, j, k);
          MissedOnceMore(scans, j);
        }
        if n in After(front) {
          var j :| LastSight(front, n, j, k);
          assert LastSight(scans, n, j, |scans|);
        }
      }
    }
  }

  lemma MissedOnceMore(scans: seq<Sighting>, j: nat)
    requires j < |scans| - 1
    ensures var k := |scans| - 1;
            MissedAfter(scans, j) <==> MissedAfter(scans[..k], j) || scans[k].now > scans[j].now
  {
    var k := |scans| - 1;
    var front := scans[..k];
    if MissedAfter(front, j) {
      var i :| j < i < k && front[i].now > front[j].now;
      assert scans[i].now > scans[j].now;
    }
    if MissedAfter(scans, j) && scans[k].now <= scans[j].now {
      var i :| j < i < |scans| && scans[i].now > scans[j].now;
      assert front[i].now > front[j].now;
    }
  }

  lemma ChangeIsSettled(scans: seq<Sighting>, n: Name, j: nat, k: nat)
    requires j < k <= |scans| && n in scans[j].seen
    ensures ChangedAt(scans, n, j) <==> ChangedAt(scans[..k], n, j)
  {
    var front := scans[..k];
    if i :| LastSight(front, n, i, j) && front[i].seen[n] != front[j].seen[n] {
      assert LastSight(scans, n, i, j);
    }
    if i :| LastSight(scans, n, i, j) && scans[i].seen[n] != scans[j].seen[n] {
      assert LastSight(front, n, i, j);
    }
  }

  ghost predicate ClockAdvances(scans: seq<Sighting>) {
    forall i, j :: 0 <= i < j < |scans| ==> scans[i].now < scans[j].now
  }

  /** With a clock that advances from scan to scan, a tracked file is flagged after the last
      scan exactly if that scan missed it or saw it changed since its previous sighting. */
  lemma FlagsAreExact(scans: seq<Sighting>, n: Name)
    requires scans != [] && ClockAdvances(scans) && n in After(scans)
    ensures var k := |scans| - 1;
            After(scans)[n].modified <==> n !in scans[k].seen || ChangedAt(scans, n, k)
  {
    RecordsTellHistory(scans, n);
    var j :| LastSight(scans, n, j, |scans|);
    if j < |scans| - 1 {
      assert scans[|scans| - 1].now > scans[j].now;
    }
  }

  /** Two scans in one second: the deletion between them goes unnoticed. */
  lemma SameSecondMissesDeletion(n: Name, hash: Bytes, now: int)
    ensures var scans := [Sighting(map[n := hash], now), Sighting(map[], now)];
            n in After(scans) && n !in scans[1].seen && !After(scans)[n].modified
  {
    var scans := [Sighting(map[n := hash], now), Sighting(map[], now)];
    assert scans[..1] == [scans[0]];
    assert After(scans[..1][..0]) == map[];
    assert After(scans[..1]) == map[n := Record(hash, now, false)];
  }

  // ---- The report -----------------------------------------------------------------------

  /** The flagged names of one chain, in its order. */
  function Flagged(chain: seq<Name>, files: Records): seq<Name> {
    if chain == [] then []
    else
      var n := chain[|chain| - 1];
      Flagged(chain[..|chain| - 1], files) + if n in files && files[n].modified then [n] else []
  }

  /** The flagged names of all chains. */
  function AllFlagged(chains: seq<seq<Name>>, files: Records): seq<Name> {
    if chains == [] then []
    else AllFlagged(chains[..|chains| - 1], files) + Flagged(chains[|chains| - 1], files)
  }

  /** The names, one per line. */
  function Lines(names: seq<Name>): Bytes {
    if names == [] then [] else Lines(names[..|names| - 1]) + names[|names| - 1] + [NEWLINE]
  }

  function Ascii(s: string): Bytes { seq(|s|, i requires 0 <= i < |s| => s[i] as int % 256) }

  function Cut(s: Bytes, cap: nat): Bytes { if |s| <= cap then s else s[..cap] }

  /** How many lines are begun before `cap` characters are full. */
  function Begun(names: seq<Name>, cap: nat): nat {
    if names == [] then 0
    else
      var front := names[..|names| - 1];
      if |Lines(front)| < cap then |names| else Begun(front, cap)
  }

  lemma {:induction false} LinesAppend(a: seq<Name>, b: seq<Name>)
    ensures Lines(a + b) == Lines(a) + Lines(b)
  {
    if b == [] {
      assert a + b == a;
    } else {
      var front := b[..|b| - 1];
      assert (a + b)[..|a + b| - 1] == a + front;
      LinesAppend(a, front);
    }
  }

  /** Once the buffer is full nothing changes any more. */
  lemma {:induction false} FullStaysFull(a: seq<Name>, b: seq<Name>, cap: nat)
    requires |Lines(a)| >= cap
    ensures Cut(Lines(a + b), cap) == Cut(Lines(a), cap) && Begun(a + b, cap) == Begun(a, cap)
  {
    LinesAppend(a, b);
    if b == [] {
      assert a + b == a;
    } else {
      var front := b[..|b| - 1];
      assert (a + b)[..|a + b| - 1] == a + front;
      LinesAppend(a, front);
      FullStaysFull(a, front, cap);
    }
  }

  /** The count is right exactly if every line but the last leaves room. */
  lemma {:induction false} CountIsRight(names: seq<Name>, cap: nat)
    requires cap >= 1
    ensures Begun(names, cap) <= |names|
    ensures Begun(names, cap) == |names| <==> names == [] || |Lines(names[..|names| - 1])| < cap
  {
    if names != [] {
      CountIsRight(names[..|names| - 1], cap);
    }
  }

  /** The buffer holds as much of the lines as fits, and the lines begun are counted. */
  ghost predicate Written(names: seq<Name>, cap: nat, issues: nat, out: Bytes) {
    out == Cut(Lines(names), cap) && issues == Begun(names, cap)
  }

  lemma {:induction false} FlaggedSplits(chain: seq<Name>, i: nat, files: Records)
    requires i <= |chain|
    ensures exists rest :: Flagged(chain, files) == Flagged(chain[..i], files) + rest
    decreases |chain| - i
  {
    if i == |chain| {
      assert chain[..i] == chain;
      assert Flagged(chain, files) == Flagged(chain[..i], files) + [];
    } else {
      FlaggedSplits(chain, i + 1, files);
      var rest :| Flagged(chain, files) == Flagged(chain[..i + 1], files) + rest;
      assert chain[..i + 1][..i] == chain[..i];
      var step := if chain[i] in files && files[chain[i]].modified then [chain[i]] else [];
      assert Flagged(chain, files) == Flagged(chain[..i], files) + (step + rest);
    }
  }

  lemma {:induction false} AllFlaggedSplits(chains: seq<seq<Name>>, b: nat, files: Records)
    requires b <= |chains|
    ensures exists rest :: AllFlagged(chains, files) == AllFlagged(chains[..b], files) + rest
    decreases |chains| - b
  {
    if b == |chains| {
      assert chains[..b] == chains;
      assert AllFlagged(chains, files) == AllFlagged(chains[..b], files) + [];
    } else {
      AllFlaggedSplits(chains, b + 1, files);
      var rest :| AllFlagged(chains, files) == AllFlagged(chains[..b + 1], files) + rest;
      assert chains[..b + 1][..b] == chains[..b];
      assert AllFlagged(chains, files) == AllFlagged(chains[..b], files) + (Flagged(chains[b], files) + rest);
    }
  }

  lemma OneMoreLine(names: seq<Name>, n: Name, cap: nat, issues: nat, out: Bytes)
    requires Written(names, cap, issues, out) && |out| < cap
    ensures Written(names + [n], cap, issues + 1, out + Cut(n + [NEWLINE], cap - |out|))
  {
    assert (names + [n])[..|names|] == names;
    assert Lines(names + [n]) == Lines(names) + n + [NEWLINE];
    assert Lines(names + [n]) == out + (n + [NEWLINE]);
    assert Cut(out + (n + [NEWLINE]), cap) == out + Cut(n + [NEWLINE], cap - |out|);
    CountIsRight(names, cap);
    if names != [] {
      var front := names[..|names| - 1];
      assert Lines(names) == Lines(front) + names[|names| - 1] + [NEWLINE];
    }
  }

  /** What the report has so far: lines in a buffer with room, or, in a buffer of one byte,
      nothing but the count. */
  ghost predicate Progress(names: seq<Name>, outLen: nat, issues: nat, out: Bytes) {
    if outLen >= 2 then Written(names, outLen - 1, issues, out) else issues == |names| && out == []
  }

  ghost predicate HasRoom(out: Bytes, outLen: nat) { outLen >= 2 ==> |out| < outLen - 1 }

  /** Once the buffer is full the rest of a chain makes no difference, */
  lemma FullInChain(names: seq<Name>, chain: seq<Name>, i: nat, files: Records, outLen: nat, issues: nat, out: Bytes)
    requires i <= |chain| && outLen >= 2 && !HasRoom(out, outLen)
    requires Progress(names + Flagged(chain[..i], files), outLen, issues, out)
    ensures Progress(names + Flagged(chain, files), outLen, issues, out)
  {
    var sofar := names + Flagged(chain[..i], files);
    FlaggedSplits(chain, i, files);
    var rest :| Flagged(chain, files) == Flagged(chain[..i], files) + rest;
    FullStaysFull(sofar, rest, outLen - 1);
    assert names + Flagged(chain, files) == sofar + rest;
  }

  /** and neither do the rest of the chains. A buffer of one byte is full from the start. */
  lemma FullInChains(chains: seq<seq<Name>>, b: nat, files: Records, outLen: nat, issues: nat, out: Bytes)
    requires b <= |chains| && outLen >= 1 && (outLen == 1 ==> b == 1) && |out| >= outLen - 1
    requires Progress(AllFlagged(chains[..b], files), outLen, issues, out)
    ensures Progress(AllFlagged(if outLen == 1 then chains[..1] else chains, files), outLen, issues, out)
  {
    if outLen >= 2 {
      AllFlaggedSplits(chains, b, files);
      var rest :| AllFlagged(chains, files) == AllFlagged(chains[..b], files) + rest;
      FullStaysFull(AllFlagged(chains[..b], files), rest, outLen - 1);
    }
  }

  /** Lines 460-466: one flagged name. */
  method PutName(n: Name, outLen: nat, issues0: nat, out0: Bytes, ghost names: seq<Name>)
    returns (issues: nat, out: Bytes, full: bool)
    requires outLen >= 1 && Progress(names, outLen, issues0, out0) && HasRoom(out0, outLen)
    ensures Progress(names + [n], outLen, issues, out)
    ensures full <==> !HasRoom(out, outLen)
  {
    issues, out, full := issues0 + 1, out0, false;
    if |out| < outLen - 1 {
      OneMoreLine(names, n, outLen - 1, issues0, out0);
      out := out + Cut(n + [NEWLINE], outLen - 1 - |out|);
      full := |out| >= outLen - 1;
    }
  }

  lemma FlaggedGrows(names: seq<Name>, chain: seq<Name>, i: nat, files: Records)
    requires i < |chain|
    ensures names + Flagged(chain[..i + 1], files) ==
            names + Flagged(chain[..i], files) + if chain[i] in files && files[chain[i]].modified then [chain[i]] else []
  {
    assert chain[..i + 1][..i] == chain[..i];
  }

  /** The inner loop, lines 459-468: one chain, left early when the buffer is full. */
  method ReportChain(chain: seq<Name>, files: Records, outLen: nat, issues0: nat, out0: Bytes,
                     ghost names: seq<Name>)
    returns (issues: nat, out: Bytes)
    requires outLen >= 1 && Progress(names, outLen, issues0, out0) && HasRoom(out0, outLen)
    ensures Progress(names + Flagged(chain, files), outLen, issues, out)
  {
    issues, out := issues0, out0;
    ghost var sofar := names;
    for i := 0 to |chain|
      invariant sofar == names + Flagged(chain[..i], files)
      invariant Progress(sofar, outLen, issues, out) && HasRoom(out, outLen)
    {
      FlaggedGrows(names, chain, i, files);
      if chain[i] in files && files[chain[i]].modified {
        var full;
        issues, out, full := PutName(chain[i], outLen, issues, out, sofar);
        sofar := sofar + [chain[i]];
        if full {
          FullInChain(names, chain, i + 1, files, outLen, issues, out);
          return;
        }
      }
    }
    assert chain[..|chain|] == chain;
  }

  /** The loops of vault_scan_report_ffi, lines 455-470. */
  method ReportChains(chains: seq<seq<Name>>, files: Records, outLen: nat) returns (issues: nat, out: Bytes)
    requires outLen >= 1 && chains != []
    ensures Progress(AllFlagged(if outLen == 1 then chains[..1] else chains, files), outLen, issues, out)
  {
    issues, out := 0, [];
    var b := 0;
    while b < |chains|
      invariant b <= |chains|
      invariant Progress(AllFlagged(chains[..b], files), outLen, issues, out)
      invariant HasRoom(out, outLen) && (outLen == 1 ==> b == 0)
    {
      AllFlaggedGrows(chains, b, files);
      issues, out := ReportChain(chains[b], files, outLen, issues, out, AllFlagged(chains[..b], files));
      b := b + 1;
      if |out| >= outLen - 1 {
        FullInChains(chains, b, files, outLen, issues, out);
        return;
      }
    }
    assert chains[..b] == chains;
  }

  lemma AllFlaggedGrows(chains: seq<seq<Name>>, b: nat, files: Records)
    requires b < |chains|
    ensures AllFlagged(chains[..b + 1], files) == AllFlagged(chains[..b], files) + Flagged(chains[b], files)
  {
    assert chains[..b + 1][..b] == chains[..b];
  }

  /** vault_scan_report_ffi, lines 452-474: with room for at least one character the buffer
      holds the flagged names, cut where it ends, and the result counts the lines begun; a
      buffer of one byte has the first chain counted and no other. */
  method Report(chains: seq<seq<Name>>, files: Records, outLen: nat) returns (issues: nat, out: Bytes)
    requires outLen >= 1 && chains != []
    ensures outLen >= 2 ==>
              var flagged := AllFlagged(chains, files);
              && issues == Begun(flagged, outLen - 1)
              && out == Cut(if flagged == [] then Ascii("No issues found\n") else Lines(flagged), outLen - 1)
    ensures outLen == 1 ==> issues == |AllFlagged(chains[..1], files)| && out == []
  {
    issues, out := ReportChains(chains, files, outLen);
    if outLen >= 2 {
      NothingFlagged(AllFlagged(chains, files), outLen - 1);
    }
    if issues == 0 {
      out := Cut(Ascii("No issues found\n"), outLen - 1);
    }
  }

  lemma NothingFlagged(names: seq<Name>, cap: nat)
    requires cap >= 1
    ensures Begun(names, cap) == 0 <==> names == []
  {
    if |names| > 1 {
      NothingFlagged(names[..|names| - 1], cap);
    } else if |names| == 1 {
      assert names[..0] == [];
    }
  }

  // ---- What the report holds ------------------------------------------------------------

  /** Line `k` begins where the lines before it end: the name and a line feed. */
  lemma {:induction false} LineIsThere(names: seq<Name>, k: nat)
    requires k < |names|
    ensures var at, all := |Lines(names[..k])|, Lines(names);
            && at + |names[k]| < |all| && all[at..at + |names[k]|] == names[k] && all[at + |names[k]|] == 10
            && |Lines(names[..k + 1])| == at + |names[k]| + 1
    ensures |names| == k + 1 ==> |Lines(names)| == |Lines(names[..k])| + |names[k]| + 1
  {
    assert names == names[..k] + [names[k]] + names[k + 1..];
    assert names[..k + 1] == names[..k] + [names[k]];
    LinesAppend(names[..k + 1], names[k + 1..]);
    assert names[..k + 1][..k] == names[..k];
  }

  /** A line is begun exactly if the lines before it leave room. */
  lemma {:induction false} BegunIff(names: seq<Name>, cap: nat, k: nat)
    requires k < |names|
    ensures k < Begun(names, cap) <==> |Lines(names[..k])| < cap
  {
    var front := names[..|names| - 1];
    if k < |front| {
      BegunIff(front, cap, k);
      assert front[..k] == names[..k];
      LinesAppend(names[..k], names[k..|names| - 1]);
      assert names[..k] + names[k..|names| - 1] == front;
    }
    BegunBound(front, cap);
  }

  lemma {:induction false} BegunBound(names: seq<Name>, cap: nat)
    ensures Begun(names, cap) <= |names|
  {
    if names != [] {
      BegunBound(names[..|names| - 1], cap);
    }
  }

  /** The flagged names are the names in the chains whose record has the flag. */
  lemma {:induction false} FlaggedIff(order: seq<Name>, files: Records, n: Name)
    ensures n in Flagged(order, files) <==> n in order && n in files && files[n].modified
  {
    if order != [] {
      FlaggedIff(order[..|order| - 1], files, n);
      assert order == order[..|order| - 1] + [order[|order| - 1]];
    }
  }

  lemma AllFlaggedIff(chains: seq<seq<Name>>, files: Records, n: Name)
    ensures n in AllFlagged(chains, files) <==>
            n in files && files[n].modified && exists b :: 0 <= b < |chains| && n in chains[b]
  {
    AllFlaggedIsFlaggedFlatten(chains, files);
    FlaggedIff(Flatten(chains), files, n);
    FlattenMembers(chains, n);
  }

  // ---- What the count counts ------------------------------------------------------------

  lemma {:induction false} FlaggedConcat(a: seq<Name>, b: seq<Name>, files: Records)
    ensures Flagged(a + b, files) == Flagged(a, files) + Flagged(b, files)
  {
    if b == [] {
      assert a + b == a;
    } else {
      assert (a + b)[..|a + b| - 1] == a + b[..|b| - 1];
      FlaggedConcat(a, b[..|b| - 1], files);
    }
  }

  lemma {:induction false} AllFlaggedIsFlaggedFlatten(chains: seq<seq<Name>>, files: Records)
    ensures AllFlagged(chains, files) == Flagged(Flatten(chains), files)
  {
    if chains != [] {
      var k := |chains| - 1;
      AllFlaggedIsFlaggedFlatten(chains[..k], files);
      FlaggedConcat(Flatten(chains[..k]), chains[k], files);
    }
  }

  function FlaggedSet(order: seq<Name>, files: Records): set<Name> {
    set n | n in order && n in files && files[n].modified
  }

  lemma {:induction false} FlaggedCountsNames(order: seq<Name>, files: Records)
    requires Distinct(order)
    ensures |Flagged(order, files)| == |FlaggedSet(order, files)|
  {
    if order != [] {
      var k := |order| - 1;
      var n := order[k];
      var front := order[..k];
      FlaggedCountsNames(front, files);
      assert forall m :: m in order <==> m in front || m == n;
      assert FlaggedSet(order, files) ==
             FlaggedSet(front, files) + if n in files && files[n].modified then {n} else {};
    }
  }

  /** When the chains list every tracked file once, the report of a large enough buffer counts
      exactly the flagged files. */
  lemma ReportCountsFlagged(chains: seq<seq<Name>>, files: Records, outLen: nat)
    requires Lists(Flatten(chains), files) && outLen >= 2
    ensures var flagged := AllFlagged(chains, files);
            Begun(flagged, outLen - 1) == |set n | n in files && files[n].modified| <==>
            flagged == [] || |Lines(flagged[..|flagged| - 1])| < outLen - 1
  {
    AllFlaggedIsFlaggedFlatten(chains, files);
    FlaggedCountsNames(Flatten(chains), files);
    CountIsRight(AllFlagged(chains, files), outLen - 1);
    assert FlaggedSet(Flatten(chains), files) == set n | n in files && files[n].modified;
  }
}
