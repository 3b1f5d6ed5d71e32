/** The decoy labyrinth: node estimate, recursive builder and recursive validator
    (c_src/vault/vault_engine.c:399-446, 491-573, 728-816). */
module DecoyTree {

  const LETTERS: nat := 26
  const ENGINE_MAX_DECOY_NODES: nat := 5000

  /** The tables of c_src/vault/vault_core.h:472-473. */
  const ENGINE_TREE_DEPTH: seq<nat> := [0, 1, 2, 3, 4, 5]
  const ENGINE_TREE_BRANCH: seq<nat> := [0, 1, 2, 2, 3, 3]

  const TEXT_EXT_POOL: set<string> := {"txt", "log", "cfg", "md", "csv", "conf", "json", "yaml", "ini", "bak"}
  const BINARY_EXT_POOL: set<string> := {"enc", "dat", "bin", "db", "cache", "idx", "tmp", "old", "dump", "img"}

  // ---- Counting nodes -------------------------------------------------------------------

  function Pow(b: nat, e: nat): nat { if e == 0 then 1 else b * Pow(b, e - 1) }

  /** `n` times `m`, by addition. */
  function Times(n: nat, m: nat): nat { if n == 0 then 0 else Times(n - 1, m) + m }

  lemma {:induction false} TimesIsProduct(n: nat, m: nat)
    ensures Times(n, m) == n * m
  {
    if n > 0 {
      TimesIsProduct(n - 1, m);
      OneMoreTime(n, m);
    }
  }

  lemma OneMoreTime(n: nat, m: nat)
    requires n > 0
    ensures (n - 1) * m + m == n * m
  {
  }

  /** The nodes of `levels` full levels: each of `branch` children and all below it. */
  function Nodes(branch: nat, levels: nat): nat {
    if levels == 0 then 0 else Times(branch, 1 + Nodes(branch, levels - 1))
  }

  lemma ClosedFormStep(b: nat, n: nat, p: nat)
    requires (b - 1) * n == p - b
    ensures (b - 1) * (b * (1 + n)) == b * p - b
  {
    calc {
      (b - 1) * (b * (1 + n));
      b * (b - 1) + b * ((b - 1) * n);
      b * (b - 1) + b * (p - b);
      b * p - b;
    }
  }

  /** The closed form of the sum. */
  lemma {:induction false} NodesClosedForm(branch: nat, levels: nat)
    ensures (branch - 1) * Nodes(branch, levels) == Pow(branch, levels + 1) - branch
  {
    if levels == 0 {
      assert Pow(branch, 1) == branch * Pow(branch, 0);
    } else {
      NodesClosedForm(branch, levels - 1);
      TimesIsProduct(branch, 1 + Nodes(branch, levels - 1));
      ClosedFormStep(branch, Nodes(branch, levels - 1), Pow(branch, levels));
    }
  }

  lemma AddLevelStep(b: nat, n: nat, p: nat)
    ensures b * (1 + (n + p)) == b * (1 + n) + b * p
  {
  }

  lemma {:induction false} NodesAddLevel(branch: nat, levels: nat)
    ensures Nodes(branch, levels + 1) == Nodes(branch, levels) + Pow(branch, levels + 1)
  {
    if levels == 0 {
      TimesIsProduct(branch, 1);
      assert Nodes(branch, 1) == Times(branch, 1 + Nodes(branch, 0));
      assert Pow(branch, 1) == branch * Pow(branch, 0);
    } else {
      NodesAddLevel(branch, levels - 1);
      TimesIsProduct(branch, 1 + Nodes(branch, levels));
      TimesIsProduct(branch, 1 + Nodes(branch, levels - 1));
      AddLevelStep(branch, Nodes(branch, levels - 1), Pow(branch, levels));
    }
  }

  /** engine_estimate_nodes: the sum level by level. */
  method EstimateNodes(branch: nat, depth: nat) returns (total: nat)
    ensures total == Nodes(branch, depth)
    ensures (branch - 1) * total == Pow(branch, depth + 1) - branch
  {
    total := 0;
    var levelNodes := branch;
    assert Pow(branch, 1) == branch * Pow(branch, 0);
    for i := 0 to depth
      invariant total == Nodes(branch, i) && levelNodes == Pow(branch, i + 1)
    {
      NodesAddLevel(branch, i);
      total := total + levelNodes;
      levelNodes := levelNodes * branch;
    }
    NodesClosedForm(branch, depth);
  }

  /** No level of the tables is ever refused for its size. */
  lemma TablesFit(level: nat)
    requires 1 <= level <= 5
    ensures Nodes(ENGINE_TREE_BRANCH[level], ENGINE_TREE_DEPTH[level]) == [0, 1, 6, 14, 120, 363][level] <= ENGINE_MAX_DECOY_NODES
  {
    assert Nodes(3, 3) == 39 && Nodes(3, 4) == 120;
    assert Nodes(2, 2) == 6;
  }

  // ---- The tree on disk -----------------------------------------------------------------

  /** A node's place: the child index taken at each depth, from the decoy root. */
  type Place = seq<nat>

  type Letter = c: char | 'a' <= c <= 'z' witness 'a'

  /** The directories of the labyrinth with the names in them. */
  type Dirs = map<Place, set<string>>

  function FileName(c: Letter, ext: string): string { [c, '.'] + ext }

  predicate HasLetter(files: set<string>, pool: set<string>, c: Letter) {
    exists ext :: ext in pool && FileName(c, ext) in files
  }

  ghost predicate AllLetters(files: set<string>, pool: set<string>) {
    forall c: Letter :: HasLetter(files, pool, c)
  }

  /** Every node of the tree below `parent` is there with all its letters. */
  ghost predicate Full(dirs: Dirs, parent: Place, levels: nat, branch: nat, pool: set<string>)
    decreases levels, 0
  {
    levels > 0 ==> forall i :: 0 <= i < branch ==> FullNode(dirs, parent + [i], levels - 1, branch, pool)
  }

  ghost predicate FullNode(dirs: Dirs, node: Place, levels: nat, branch: nat, pool: set<string>)
    decreases levels, 1
  {
    node in dirs && AllLetters(dirs[node], pool) && Full(dirs, node, levels, branch, pool)
  }

  /** Nothing of `a` is lost in `b`. */
  ghost predicate Grows(a: Dirs, b: Dirs) {
    forall p :: p in a ==> p in b && a[p] <= b[p]
  }

  lemma {:induction false} FullStays(a: Dirs, b: Dirs, parent: Place, levels: nat, branch: nat, pool: set<string>)
    requires Grows(a, b) && Full(a, parent, levels, branch, pool)
    ensures Full(b, parent, levels, branch, pool)
    decreases levels
  {
    if levels > 0 {
      forall i | 0 <= i < branch
        ensures FullNode(b, parent + [i], levels - 1, branch, pool)
      {
        var node := parent + [i];
        assert FullNode(a, node, levels - 1, branch, pool);
        forall c: Letter
          ensures HasLetter(b[node], pool, c)
        {
          assert HasLetter(a[node], pool, c);
        }
        FullStays(a, b, node, levels - 1, branch, pool);
      }
    }
  }

  /** A path from a node to one of the `levels` levels below it. */
  predicate IsBelow(rel: Place, levels: nat, branch: nat) {
    1 <= |rel| <= levels && forall i :: 0 <= i < |rel| ==> rel[i] < branch
  }

  /** The directory is there, with a file for each letter from a to z. */
  ghost predicate HasLayer(dirs: Dirs, p: Place, pool: set<string>) {
    p in dirs && forall c: char :: 'a' <= c <= 'z' ==> HasFile(dirs[p], pool, c)
  }

  ghost predicate HasFile(files: set<string>, pool: set<string>, c: char) {
    exists ext :: ext in pool && [c] + "." + ext in files
  }

  lemma FileIs(files: set<string>, pool: set<string>, c: Letter)
    ensures HasFile(files, pool, c) <==> HasLetter(files, pool, c)
  {
    forall ext: string
      ensures FileName(c, ext) == [c] + "." + ext
    {
    }
  }

  lemma LayerIs(dirs: Dirs, p: Place, pool: set<string>)
    ensures HasLayer(dirs, p, pool) <==> p in dirs && AllLetters(dirs[p], pool)
  {
    if p in dirs {
      forall c: Letter
        ensures HasFile(dirs[p], pool, c) <==> HasLetter(dirs[p], pool, c)
      {
        FileIs(dirs[p], pool, c);
      }
    }
  }

  /** The full tree is all its places, each with its files. */
  lemma {:induction false} FullIsEveryPlace(dirs: Dirs, parent: Place, levels: nat, branch: nat, pool: set<string>)
    ensures Full(dirs, parent, levels, branch, pool) <==>
            forall rel :: IsBelow(rel, levels, branch) ==> HasLayer(dirs, parent + rel, pool)
    decreases levels
  {
    if Full(dirs, parent, levels, branch, pool) {
      forall rel | IsBelow(rel, levels, branch)
        ensures HasLayer(dirs, parent + rel, pool)
      {
        var node, rest := parent + [rel[0]], rel[1..];
        assert FullNode(dirs, node, levels - 1, branch, pool);
        FullIsEveryPlace(dirs, node, levels - 1, branch, pool);
        LayerIs(dirs, node, pool);
        assert node + rest == parent + rel;
        assert rest != [] ==> IsBelow(rest, levels - 1, branch);
        assert rest == [] ==> node == parent + rel;
      }
    }
    if levels > 0 && forall rel :: IsBelow(rel, levels, branch) ==> HasLayer(dirs, parent + rel, pool) {
      forall i | 0 <= i < branch
        ensures FullNode(dirs, parent + [i], levels - 1, branch, pool)
      {
        var node := parent + [i];
        assert IsBelow([i], levels, branch);
        LayerIs(dirs, node, pool);
        forall rest: Place | IsBelow(rest, levels - 1, branch)
          ensures HasLayer(dirs, node + rest, pool)
        {
          assert IsBelow([i] + rest, levels, branch);
          assert node + rest == parent + ([i] + rest);
        }
        FullIsEveryPlace(dirs, node, levels - 1, branch, pool);
      }
    }
  }

  /** A letter, a dot and an extension from the pool. */
  predicate IsDecoy(f: string, pool: set<string>) { |f| >= 2 && 'a' <= f[0] <= 'z' && f[1] == '.' && f[2..] in pool }

  /** Only decoys were added to the directory. */
  ghost predicate OnlyDecoys(a: Dirs, b: Dirs, p: Place, pool: set<string>)
    requires p in b
  {
    forall f :: f in b[p] ==> (p in a && f in a[p]) || IsDecoy(f, pool)
  }

  /** Nothing was added but decoys, and directories for them, in the tree below `top`. */
  ghost predicate OnlyAdds(a: Dirs, b: Dirs, top: Place, levels: nat, branch: nat, pool: set<string>) {
    forall p :: p in b ==>
      || (p in a && b[p] == a[p])
      || (top <= p && IsBelow(p[|top|..], levels, branch) && OnlyDecoys(a, b, p, pool))
  }

  lemma AddsOneNode(a: Dirs, b: Dirs, c: Dirs, node: Place, levels: nat, branch: nat, pool: set<string>)
    requires Grows(a, b) && node in b && OnlyDecoys(a, b, node, pool)
    requires forall p :: p in b && p != node ==> p in a && b[p] == a[p]
    requires OnlyAdds(b, c, node, levels, branch, pool) && node != []
    requires node[|node| - 1] < branch
    ensures OnlyAdds(a, c, node[..|node| - 1], levels + 1, branch, pool)
  {
    var top := node[..|node| - 1];
    assert node[|top|..] == [node[|top|]];
    forall p | p in c
      ensures || (p in a && c[p] == a[p])
              || (top <= p && IsBelow(p[|top|..], levels + 1, branch) && OnlyDecoys(a, c, p, pool))
    {
      if p in b && c[p] == b[p] {
        if p == node {
          assert OnlyDecoys(a, c, p, pool);
        }
      } else {
        assert node <= p && IsBelow(p[|node|..], levels, branch) && OnlyDecoys(b, c, p, pool);
        BelowNode(top, node, p, levels, branch);
        assert p != node;
      }
    }
  }

  lemma BelowNode(top: Place, node: Place, p: Place, levels: nat, branch: nat)
    requires node != [] && top == node[..|node| - 1] && node[|top|] < branch
    requires node <= p && IsBelow(p[|node|..], levels, branch)
    ensures top <= p && IsBelow(p[|top|..], levels + 1, branch)
  {
    assert p[|top|] == node[|top|];
    assert forall i :: 0 < i < |p| - |top| ==> p[|top|..][i] == p[|node|..][i - 1];
  }

  lemma AddsTwice(a: Dirs, b: Dirs, c: Dirs, top: Place, levels: nat, branch: nat, pool: set<string>)
    requires OnlyAdds(a, b, top, levels, branch, pool) && OnlyAdds(b, c, top, levels, branch, pool)
    ensures OnlyAdds(a, c, top, levels, branch, pool)
  {
    forall p | p in c
      ensures || (p in a && c[p] == a[p])
              || (top <= p && IsBelow(p[|top|..], levels, branch) && OnlyDecoys(a, c, p, pool))
    {
      if !(p in b && c[p] == b[p]) && p in b && !(p in a && b[p] == a[p]) {
        assert OnlyDecoys(a, b, p, pool) && OnlyDecoys(b, c, p, pool);
      } else if p in b && c[p] == b[p] && !(p in a && b[p] == a[p]) {
        assert OnlyDecoys(a, b, p, pool);
      }
    }
  }

  // ---- The builder ----------------------------------------------------------------------

  /** How the file system answers: is a node's directory there or made, is a file written. */
  datatype Disk = Disk(directory: Place -> bool, file: (Place, char) -> bool)

  class Labyrinth {
    var dirs: Dirs

    constructor (dirs: Dirs)
      ensures this.dirs == dirs
    {
      this.dirs := dirs;
    }

    /** engine_populate_layer: the extension of each file is picked by path, letter and session
        seed, here by any function into the pool. */
    method PopulateLayer(disk: Disk, pick: (Place, char) -> string, pool: set<string>, node: Place) returns (ok: bool)
      requires node in dirs && forall c :: pick(node, c) in pool
      modifies this
      ensures Grows(old(dirs), dirs)
      ensures ok <==> forall c: Letter :: disk.file(node, c)
      ensures ok ==> node in dirs && AllLetters(dirs[node], pool)
      ensures node in dirs && OnlyDecoys(old(dirs), dirs, node, pool)
      ensures forall p :: p in dirs && p != node ==> p in old(dirs) && dirs[p] == old(dirs)[p]
    {
      var errors := 0;
      var c := 'a';
      while true
        invariant 'a' <= c <= 'z'
        invariant Grows(old(dirs), dirs) && node in dirs && OnlyDecoys(old(dirs), dirs, node, pool)
        invariant forall p :: p in dirs && p != node ==> p in old(dirs) && dirs[p] == old(dirs)[p]
        invariant errors == 0 <==> forall d: Letter :: d < c ==> disk.file(node, d)
        invariant forall d: Letter :: d < c && disk.file(node, d) ==> FileName(d, pick(node, d)) in dirs[node]
        decreases 'z' as int - c as int
      {
        assert FileName(c, pick(node, c))[2..] == pick(node, c);
        if disk.file(node, c) {
          dirs := dirs[node := dirs[node] + {FileName(c, pick(node, c))}];
        } else {
          errors := errors + 1;
        }
        if c == 'z' {
          break;
        }
        c := c + 1 as char;
      }
      ok := errors == 0;
      if ok {
        forall d: Letter
          ensures HasLetter(dirs[node], pool, d)
        {
          assert FileName(d, pick(node, d)) in dirs[node];
        }
      }
    }

    /** engine_build_subtree for `levels` more levels below `parent`: a node that fails hides
        the subtree it would have carried, and its siblings go on. */
    method BuildSubtree(disk: Disk, pick: (Place, char) -> string, pool: set<string>, parent: Place,
                        levels: nat, branch: nat, ok0: nat, failed0: nat)
      returns (ok: nat, failed: nat)
      requires forall p, c :: pick(p, c) in pool
      modifies this
      ensures Grows(old(dirs), dirs)
      ensures var t := Tallied(disk, parent, levels, branch, branch);
              ok == ok0 + t.ok && failed == failed0 + t.failed
      ensures failed == failed0 ==> Full(dirs, parent, levels, branch, pool)
      ensures OnlyAdds(old(dirs), dirs, parent, levels, branch, pool)
      decreases levels, 0
    {
      ok, failed := ok0, failed0;
      if levels == 0 {
        return;
      }
      for idx := 0 to branch
        invariant Grows(old(dirs), dirs) && OnlyAdds(old(dirs), dirs, parent, levels, branch, pool)
        invariant ok == ok0 + Tallied(disk, parent, levels, idx, branch).ok
        invariant failed == failed0 + Tallied(disk, parent, levels, idx, branch).failed
        invariant failed == failed0 ==> FullUpTo(dirs, parent, levels, idx, branch, pool)
      {
        ghost var before := dirs;
        ok, failed := BuildNode(disk, pick, pool, parent + [idx], levels - 1, branch, ok, failed);
        assert (parent + [idx])[..|parent|] == parent;
        AddsTwice(old(dirs), before, dirs, parent, levels, branch, pool);
        if failed == failed0 {
          FullUpToGrows(before, dirs, parent, levels, idx, branch, pool);
        }
      }
    }

    /** One turn of the loop, lines 521-572. */
    method BuildNode(disk: Disk, pick: (Place, char) -> string, pool: set<string>, node: Place,
                     levels: nat, branch: nat, ok0: nat, failed0: nat)
      returns (ok: nat, failed: nat)
      requires forall p, c :: pick(p, c) in pool
      requires node != [] && node[|node| - 1] < branch
      modifies this
      ensures OnlyAdds(old(dirs), dirs, node[..|node| - 1], levels + 1, branch, pool)
      ensures Grows(old(dirs), dirs)
      ensures var t := TalliedNode(disk, node, levels, branch);
              ok == ok0 + t.ok && failed == failed0 + t.failed
      ensures failed == failed0 ==> FullNode(dirs, node, levels, branch, pool)
      decreases levels, 1
    {
      ok, failed := ok0, failed0;
      if !disk.directory(node) {
        failed := failed + 1;
        return;
      }
      if node !in dirs {
        dirs := dirs[node := {}];
      }
      var populated := PopulateLayer(disk, pick, pool, node);
      ghost var layer := dirs;
      AddsOneNode(old(dirs), layer, layer, node, levels, branch, pool);
      if !populated {
        failed := failed + 1;
        return;
      }
      ok := ok + 1;
      ok, failed := BuildSubtree(disk, pick, pool, node, levels, branch, ok, failed);
      LettersStay(layer, dirs, node, pool);
      AddsOneNode(old(dirs), layer, dirs, node, levels, branch, pool);
    }
  }

  /** Nodes built, nodes failed, and nodes never tried because they lie below a failed one. */
  datatype Tally = Tally(ok: nat, failed: nat, hidden: nat)

  function Plus(a: Tally, b: Tally): Tally { Tally(a.ok + b.ok, a.failed + b.failed, a.hidden + b.hidden) }

  ghost predicate NodeWorks(disk: Disk, node: Place) { disk.directory(node) && forall c: Letter :: disk.file(node, c) }

  /** What becomes of the first `n` children of `parent` and all below them. */
  ghost function Tallied(disk: Disk, parent: Place, levels: nat, n: nat, branch: nat): Tally
    decreases levels, n
  {
    if levels == 0 || n == 0 then Tally(0, 0, 0)
    else
      var node := parent + [n - 1];
      Plus(Tallied(disk, parent, levels, n - 1, branch),
           if NodeWorks(disk, node) then Plus(Tally(1, 0, 0), Tallied(disk, node, levels - 1, branch, branch))
           else Tally(0, 1, Nodes(branch, levels - 1)))
  }

  /** What becomes of one node and all below it. */
  ghost function TalliedNode(disk: Disk, node: Place, levels: nat, branch: nat): Tally {
    if NodeWorks(disk, node) then Plus(Tally(1, 0, 0), Tallied(disk, node, levels, branch, branch))
    else Tally(0, 1, Nodes(branch, levels))
  }

  function Total(t: Tally): nat { t.ok + t.failed + t.hidden }

  lemma TalliedStep(disk: Disk, parent: Place, levels: nat, n: nat, branch: nat)
    requires levels > 0 && n > 0
    ensures Tallied(disk, parent, levels, n, branch) ==
            Plus(Tallied(disk, parent, levels, n - 1, branch), TalliedNode(disk, parent + [n - 1], levels - 1, branch))
  {
  }

  lemma PlusTotals(a: Tally, b: Tally)
    ensures Total(Plus(a, b)) == Total(a) + Total(b)
  {
  }

  lemma NodeTotal(disk: Disk, node: Place, levels: nat, branch: nat)
    requires Total(Tallied(disk, node, levels, branch, branch)) == Nodes(branch, levels)
    ensures Total(TalliedNode(disk, node, levels, branch)) == 1 + Nodes(branch, levels)
  {
  }

  /** Every node of the estimate is built, failed, or hidden below a failed one. */
  lemma {:induction false} EveryNodeIsAccounted(disk: Disk, parent: Place, levels: nat, n: nat, branch: nat, size: nat)
    requires levels > 0 && size == 1 + Nodes(branch, levels - 1)
    ensures Total(Tallied(disk, parent, levels, n, branch)) == Times(n, size)
    decreases levels, n
  {
    if n > 0 {
      EveryNodeIsAccounted(disk, parent, levels, n - 1, branch, size);
      var node := parent + [n - 1];
      AccountedBelow(disk, node, levels - 1, branch);
      NodeTotal(disk, node, levels - 1, branch);
      TalliedStep(disk, parent, levels, n, branch);
      PlusTotals(Tallied(disk, parent, levels, n - 1, branch), TalliedNode(disk, node, levels - 1, branch));
    }
  }

  lemma {:induction false} AccountedBelow(disk: Disk, parent: Place, levels: nat, branch: nat)
    ensures Total(Tallied(disk, parent, levels, branch, branch)) == Nodes(branch, levels)
    decreases levels, branch + 1
  {
    if levels > 0 {
      EveryNodeIsAccounted(disk, parent, levels, branch, branch, 1 + Nodes(branch, levels - 1));
    }
  }

  /** Whatever fails: nodes built, nodes failed and nodes hidden below failed ones add up to
      what engine_estimate_nodes says; and without failures none is hidden. */
  lemma BuildMeetsEstimate(disk: Disk, parent: Place, levels: nat, branch: nat)
    ensures Total(Tallied(disk, parent, levels, branch, branch)) == Nodes(branch, levels)
    ensures Tallied(disk, parent, levels, branch, branch).failed == 0 ==>
              Tallied(disk, parent, levels, branch, branch).ok == Nodes(branch, levels)
  {
    NothingHidden(disk, parent, levels, branch, branch);
    AccountedBelow(disk, parent, levels, branch);
  }

  lemma {:induction false} NothingHidden(disk: Disk, parent: Place, levels: nat, n: nat, branch: nat)
    ensures Tallied(disk, parent, levels, n, branch).failed == 0 ==> Tallied(disk, parent, levels, n, branch).hidden == 0
    decreases levels, n
  {
    if levels > 0 && n > 0 {
      NothingHidden(disk, parent, levels, n - 1, branch);
      NothingHidden(disk, parent + [n - 1], levels - 1, branch, branch);
    }
  }

  lemma LettersStay(a: Dirs, b: Dirs, node: Place, pool: set<string>)
    requires Grows(a, b) && node in a && AllLetters(a[node], pool)
    ensures node in b && AllLetters(b[node], pool)
  {
    forall c: Letter
      ensures HasLetter(b[node], pool, c)
    {
      assert HasLetter(a[node], pool, c);
    }
  }

  ghost predicate FullUpTo(dirs: Dirs, parent: Place, levels: nat, n: nat, branch: nat, pool: set<string>)
    requires levels > 0
  {
    forall i :: 0 <= i < n ==> FullNode(dirs, parent + [i], levels - 1, branch, pool)
  }

  lemma FullUpToGrows(a: Dirs, b: Dirs, parent: Place, levels: nat, n: nat, branch: nat, pool: set<string>)
    requires levels > 0 && Grows(a, b) && FullUpTo(a, parent, levels, n, branch, pool)
    requires FullNode(b, parent + [n], levels - 1, branch, pool)
    ensures FullUpTo(b, parent, levels, n + 1, branch, pool)
  {
    forall i | 0 <= i < n
      ensures FullNode(b, parent + [i], levels - 1, branch, pool)
    {
      var node := parent + [i];
      assert FullNode(a, node, levels - 1, branch, pool);
      LettersStay(a, b, node, pool);
      FullStays(a, b, node, levels - 1, branch, pool);
    }
  }

  // ---- The validator --------------------------------------------------------------------

  ghost function MissingLetters(files: set<string>, pool: set<string>): set<char> {
    set c: char | 'a' <= c <= 'z' && !HasLetter(files, pool, c)
  }

  /** The letters before `c`. */
  ghost function MissingBefore(files: set<string>, pool: set<string>, c: int): set<char> {
    set d: char | 'a' <= d <= 'z' && d as int - 'a' as int < c && !HasLetter(files, pool, d)
  }

  ghost predicate Marks(found: seq<bool>, files: set<string>, pool: set<string>) {
    |found| == LETTERS && forall i :: 0 <= i < LETTERS ==> (found[i] <==> HasLetter(files, pool, LetterAt(i)))
  }

  /** The loop over the directory, in any order: only a letter, a dot and a pooled extension
      count. What kind of file it is makes no difference. */
  method MarkLetters(files: set<string>, pool: set<string>) returns (found: seq<bool>)
    requires "" !in pool
    ensures Marks(found, files, pool)
  {
    found := seq(LETTERS, i => false);
    var rest := files;
    while rest != {}
      invariant rest <= files && Marks(found, files - rest, pool)
      decreases |rest|
    {
      var name :| name in rest;
      ghost var seen, was := files - rest, found;
      rest := rest - {name};
      assert files - rest == seen + {name};
      if |name| > 2 && 'a' <= name[0] <= 'z' && name[1] == '.' && name[2..] in pool {
        found := found[name[0] as int - 'a' as int := true];
      }
      MarkOne(was, found, seen, name, pool);
    }
    assert files - rest == files;
  }

  lemma MarkOne(was: seq<bool>, found: seq<bool>, seen: set<string>, name: string, pool: set<string>)
    requires "" !in pool && Marks(was, seen, pool)
    requires found == if |name| > 2 && 'a' <= name[0] <= 'z' && name[1] == '.' && name[2..] in pool
                      then was[name[0] as int - 'a' as int := true] else was
    ensures Marks(found, seen + {name}, pool)
  {
    forall i | 0 <= i < LETTERS
      ensures found[i] <==> HasLetter(seen + {name}, pool, LetterAt(i))
    {
      OneName(seen, name, pool, LetterAt(i));
    }
  }

  lemma MissingGrows(files: set<string>, pool: set<string>, i: nat)
    requires i < LETTERS
    ensures |MissingBefore(files, pool, i + 1)| ==
            |MissingBefore(files, pool, i)| + if HasLetter(files, pool, LetterAt(i)) then 0 else 1
  {
    assert MissingBefore(files, pool, i + 1) ==
           MissingBefore(files, pool, i) + if HasLetter(files, pool, LetterAt(i)) then {} else {LetterAt(i)};
  }

  /** engine_check_layer_files. */
  method CheckLayerFiles(files: set<string>, pool: set<string>) returns (missing: nat)
    requires "" !in pool
    ensures missing == |MissingLetters(files, pool)|
  {
    var found := MarkLetters(files, pool);
    missing := 0;
    assert MissingBefore(files, pool, 0) == {};
    for i := 0 to LETTERS
      invariant missing == |MissingBefore(files, pool, i)|
    {
      MissingGrows(files, pool, i);
      if !found[i] {
        missing := missing + 1;
      }
    }
    assert MissingBefore(files, pool, LETTERS) == MissingLetters(files, pool);
  }

  function LetterAt(i: nat): Letter
    requires i < LETTERS
  {
    'a' + i as char
  }

  lemma OneName(seen: set<string>, name: string, pool: set<string>, c: Letter)
    requires "" !in pool
    ensures HasLetter(seen + {name}, pool, c) <==>
            HasLetter(seen, pool, c) || (|name| > 2 && name[0] == c && name[1] == '.' && name[2..] in pool)
  {
    if |name| > 2 && name[0] == c && name[1] == '.' && name[2..] in pool {
      assert name == FileName(c, name[2..]);
    }
    if ext :| ext in pool && FileName(c, ext) in seen + {name} {
      if FileName(c, ext) == name {
        assert name[2..] == ext;
      }
    }
    if ext :| ext in pool && FileName(c, ext) in seen {
      assert FileName(c, ext) in seen + {name};
    }
  }

  /** What validation counts below `parent`, over the first `n` children. */
  datatype Report = Report(layers: nat, files: nat)

  ghost function Counts(dirs: Dirs, parent: Place, levels: nat, n: nat, branch: nat, pool: set<string>): Report
    decreases levels, n
  {
    if levels == 0 || n == 0 then Report(0, 0)
    else
      var front := Counts(dirs, parent, levels, n - 1, branch, pool);
      var node := parent + [n - 1];
      if node !in dirs then Report(front.layers + 1, front.files)
      else
        var below := Counts(dirs, node, levels - 1, branch, branch, pool);
        Report(front.layers + below.layers, front.files + |MissingLetters(dirs[node], pool)| + below.files)
  }

  /** engine_validate_subtree for `levels` more levels below `parent`. */
  method ValidateSubtree(dirs: Dirs, parent: Place, levels: nat, branch: nat, pool: set<string>,
                         layers0: nat, files0: nat)
    returns (missingLayers: nat, missingFiles: nat)
    requires "" !in pool
    ensures missingLayers == layers0 + Counts(dirs, parent, levels, branch, branch, pool).layers
    ensures missingFiles == files0 + Counts(dirs, parent, levels, branch, branch, pool).files
    decreases levels
  {
    missingLayers, missingFiles := layers0, files0;
    if levels == 0 {
      return;
    }
    for idx := 0 to branch
      invariant missingLayers == layers0 + Counts(dirs, parent, levels, idx, branch, pool).layers
      invariant missingFiles == files0 + Counts(dirs, parent, levels, idx, branch, pool).files
    {
      var node := parent + [idx];
      if node !in dirs {
        missingLayers := missingLayers + 1;
      } else {
        var missingHere := CheckLayerFiles(dirs[node], pool);
        if missingHere > 0 {
          missingFiles := missingFiles + missingHere;
        }
        missingLayers, missingFiles := ValidateSubtree(dirs, node, levels - 1, branch, pool, missingLayers, missingFiles);
      }
    }
  }

  lemma NothingMissing(files: set<string>, pool: set<string>)
    ensures |MissingLetters(files, pool)| == 0 <==> AllLetters(files, pool)
  {
    if AllLetters(files, pool) {
      assert MissingLetters(files, pool) == {};
    } else {
      var c: Letter :| !HasLetter(files, pool, c);
      assert c in MissingLetters(files, pool);
    }
  }

  /** What the last of the first `n` children adds to the count. */
  lemma CountsStep(dirs: Dirs, parent: Place, levels: nat, n: nat, branch: nat, pool: set<string>)
    requires levels > 0 && n > 0
    ensures var node := parent + [n - 1];
            Counts(dirs, parent, levels, n, branch, pool) == Report(0, 0) <==>
            && Counts(dirs, parent, levels, n - 1, branch, pool) == Report(0, 0)
            && node in dirs && AllLetters(dirs[node], pool)
            && Counts(dirs, node, levels - 1, branch, branch, pool) == Report(0, 0)
  {
    var node := parent + [n - 1];
    if node in dirs {
      NothingMissing(dirs[node], pool);
    }
  }

  lemma FullUpToStep(dirs: Dirs, parent: Place, levels: nat, n: nat, branch: nat, pool: set<string>)
    requires levels > 0 && n > 0
    ensures FullUpTo(dirs, parent, levels, n, branch, pool) <==>
            FullUpTo(dirs, parent, levels, n - 1, branch, pool) && FullNode(dirs, parent + [n - 1], levels - 1, branch, pool)
  {
  }

  /** Nothing is counted missing exactly if the children so far are complete. */
  lemma {:induction false} CountsNothingIffFullUpTo(dirs: Dirs, parent: Place, levels: nat, n: nat, branch: nat, pool: set<string>)
    requires levels > 0
    ensures Counts(dirs, parent, levels, n, branch, pool) == Report(0, 0) <==> FullUpTo(dirs, parent, levels, n, branch, pool)
    decreases levels, n
  {
    if n > 0 {
      CountsNothingIffFullUpTo(dirs, parent, levels, n - 1, branch, pool);
      CountsStep(dirs, parent, levels, n, branch, pool);
      FullUpToStep(dirs, parent, levels, n, branch, pool);
      if levels > 1 {
        CountsNothingIffFullUpTo(dirs, parent + [n - 1], levels - 1, branch, branch, pool);
      }
    }
  }

  /** Validation reports nothing missing exactly if the full tree is there, whichever pooled
      extensions its files have: the seed of the session that built it plays no part. */
  lemma ValidIffFull(dirs: Dirs, parent: Place, levels: nat, branch: nat, pool: set<string>)
    ensures Counts(dirs, parent, levels, branch, branch, pool) == Report(0, 0) <==>
            Full(dirs, parent, levels, branch, pool)
  {
    if levels > 0 {
      CountsNothingIffFullUpTo(dirs, parent, levels, branch, branch, pool);
    }
  }

  // ---- What is counted ------------------------------------------------------------------

  /** Every place from below `parent` down to `p` itself is there, or all but `p`. */
  ghost predicate Reached(dirs: Dirs, parent: Place, p: Place) {
    forall k {:trigger p[..k]} :: |parent| < k < |p| ==> p[..k] in dirs
  }

  /** Among the places below the first `n` children. */
  predicate IsUnder(parent: Place, p: Place, levels: nat, n: nat, branch: nat) {
    && parent < p && |p| <= |parent| + levels && p[|parent|] < n
    && forall i :: |parent| < i < |p| ==> p[i] < branch
  }

  /** The missing layers, and the missing files in the layers that are there. */
  ghost function LayersMissing(dirs: Dirs, parent: Place, levels: nat, n: nat, branch: nat): set<Place>
    decreases levels, n
  {
    if levels == 0 || n == 0 then {}
    else
      var node := parent + [n - 1];
      LayersMissing(dirs, parent, levels, n - 1, branch) +
      if node in dirs then LayersMissing(dirs, node, levels - 1, branch, branch) else {node}
  }

  lemma UnderChild(parent: Place, p: Place, levels: nat, n: nat, branch: nat)
    requires levels > 0 && n > 0 && n <= branch
    ensures var node := parent + [n - 1];
            IsUnder(parent, p, levels, n, branch) <==>
            IsUnder(parent, p, levels, n - 1, branch) || p == node || IsUnder(node, p, levels - 1, branch, branch)
    ensures IsUnder(parent, p, levels, n - 1, branch) ==> p != parent + [n - 1] && !(parent + [n - 1] < p)
  {
    var node := parent + [n - 1];
    if parent < p && p[|parent|] == n - 1 {
      assert node <= p;
      if |p| == |node| {
        assert p == node;
      }
    }
  }

  lemma ReachedChild(dirs: Dirs, parent: Place, node: Place, p: Place)
    requires |node| == |parent| + 1 && node < p
    ensures Reached(dirs, parent, p) <==> node in dirs && Reached(dirs, node, p)
  {
    assert p[..|node|] == node;
  }

  /** A layer is missing if it is not there and every one on the way to it is. */
  lemma {:induction false} MissingIff(dirs: Dirs, parent: Place, levels: nat, n: nat, branch: nat, p: Place)
    requires n <= branch
    ensures p in LayersMissing(dirs, parent, levels, n, branch) <==>
            IsUnder(parent, p, levels, n, branch) && Reached(dirs, parent, p) && p !in dirs
    decreases levels, n
  {
    if levels > 0 && n > 0 {
      var node := parent + [n - 1];
      MissingIff(dirs, parent, levels, n - 1, branch, p);
      UnderChild(parent, p, levels, n, branch);
      MissingIff(dirs, node, levels - 1, branch, branch, p);
      if node < p {
        ReachedChild(dirs, parent, node, p);
      }
    }
  }

  /** The layers that validation counts are the missing ones. */
  lemma {:induction false} LayersAreCounted(dirs: Dirs, parent: Place, levels: nat, n: nat, branch: nat, pool: set<string>)
    requires n <= branch
    ensures Counts(dirs, parent, levels, n, branch, pool).layers == |LayersMissing(dirs, parent, levels, n, branch)|
    decreases levels, n
  {
    if levels > 0 && n > 0 {
      var node := parent + [n - 1];
      LayersAreCounted(dirs, parent, levels, n - 1, branch, pool);
      LayersAreCounted(dirs, node, levels - 1, branch, branch, pool);
      MissingApart(dirs, parent, levels, n, branch);
    }
  }

  lemma MissingApart(dirs: Dirs, parent: Place, levels: nat, n: nat, branch: nat)
    requires levels > 0 && 0 < n <= branch
    ensures var front := LayersMissing(dirs, parent, levels, n - 1, branch);
            front !! LayersMissing(dirs, parent + [n - 1], levels - 1, branch, branch) && parent + [n - 1] !in front
  {
    var node := parent + [n - 1];
    var front := LayersMissing(dirs, parent, levels, n - 1, branch);
    forall p | p in front
      ensures p != node && p !in LayersMissing(dirs, node, levels - 1, branch, branch)
    {
      MissingIff(dirs, parent, levels, n - 1, branch, p);
      MissingIff(dirs, node, levels - 1, branch, branch, p);
      UnderChild(parent, p, levels, n, branch);
    }
  }

  ghost function At(node: Place, letters: set<char>): set<(Place, char)> { set c | c in letters :: (node, c) }

  lemma {:induction false} AtCounts(node: Place, letters: set<char>)
    ensures |At(node, letters)| == |letters|
  {
    if letters != {} {
      var c :| c in letters;
      AtCounts(node, letters - {c});
      assert At(node, letters) == At(node, letters - {c}) + {(node, c)};
    }
  }

  ghost function FilesMissing(dirs: Dirs, parent: Place, levels: nat, n: nat, branch: nat, pool: set<string>):
    set<(Place, char)>
    decreases levels, n
  {
    if levels == 0 || n == 0 then {}
    else
      var node := parent + [n - 1];
      FilesMissing(dirs, parent, levels, n - 1, branch, pool) +
      if node in dirs then
        At(node, MissingLetters(dirs[node], pool)) + FilesMissing(dirs, node, levels - 1, branch, branch, pool)
      else {}
  }

  /** A file is missing if its layer and every one on the way to it is there and none of the
      pool's extensions is there under its letter. */
  lemma {:induction false} FileMissingIff(dirs: Dirs, parent: Place, levels: nat, n: nat, branch: nat, pool: set<string>,
                                          p: Place, c: char)
    requires n <= branch
    ensures (p, c) in FilesMissing(dirs, parent, levels, n, branch, pool) <==>
            && IsUnder(parent, p, levels, n, branch) && Reached(dirs, parent, p) && p in dirs
            && 'a' <= c <= 'z' && !HasFile(dirs[p], pool, c)
    decreases levels, n
  {
    if levels > 0 && n > 0 {
      var node := parent + [n - 1];
      FileMissingIff(dirs, parent, levels, n - 1, branch, pool, p, c);
      UnderChild(parent, p, levels, n, branch);
      FileMissingIff(dirs, node, levels - 1, branch, branch, pool, p, c);
      if node < p {
        ReachedChild(dirs, parent, node, p);
      }
      if p in dirs && 'a' <= c <= 'z' {
        FileIs(dirs[p], pool, c);
      }
    }
  }

  lemma FilesApart(dirs: Dirs, parent: Place, levels: nat, n: nat, branch: nat, pool: set<string>)
    requires levels > 0 && 0 < n <= branch && parent + [n - 1] in dirs
    ensures var node := parent + [n - 1];
            var front, below := FilesMissing(dirs, parent, levels, n - 1, branch, pool),
                                FilesMissing(dirs, node, levels - 1, branch, branch, pool);
            var here := At(node, MissingLetters(dirs[node], pool));
            here !! below && front !! (here + below)
  {
    var node := parent + [n - 1];
    var front, below := FilesMissing(dirs, parent, levels, n - 1, branch, pool),
                        FilesMissing(dirs, node, levels - 1, branch, branch, pool);
    forall x | x in front
      ensures x.0 != node && x !in below
    {
      FileMissingIff(dirs, parent, levels, n - 1, branch, pool, x.0, x.1);
      FileMissingIff(dirs, node, levels - 1, branch, branch, pool, x.0, x.1);
      UnderChild(parent, x.0, levels, n, branch);
    }
    forall x | x in below
      ensures x.0 != node
    {
      FileMissingIff(dirs, node, levels - 1, branch, branch, pool, x.0, x.1);
    }
  }

  lemma FilesOfChild(dirs: Dirs, parent: Place, levels: nat, n: nat, branch: nat, pool: set<string>)
    requires levels > 0 && 0 < n <= branch
    ensures var node := parent + [n - 1];
            |FilesMissing(dirs, parent, levels, n, branch, pool)| ==
            |FilesMissing(dirs, parent, levels, n - 1, branch, pool)| +
            if node in dirs then
              |MissingLetters(dirs[node], pool)| + |FilesMissing(dirs, node, levels - 1, branch, branch, pool)|
            else 0
  {
    var node := parent + [n - 1];
    if node in dirs {
      FilesApart(dirs, parent, levels, n, branch, pool);
      AtCounts(node, MissingLetters(dirs[node], pool));
      ThreeParts(FilesMissing(dirs, parent, levels, n - 1, branch, pool), At(node, MissingLetters(dirs[node], pool)),
                 FilesMissing(dirs, node, levels - 1, branch, branch, pool));
    }
  }

  lemma ThreeParts(a: set<(Place, char)>, b: set<(Place, char)>, c: set<(Place, char)>)
    requires b !! c && a !! (b + c)
    ensures |a + (b + c)| == |a| + |b| + |c|
  {
  }

  /** The files that validation counts are the missing ones. */
  lemma {:induction false} FilesAreCounted(dirs: Dirs, parent: Place, levels: nat, n: nat, branch: nat, pool: set<string>)
    requires n <= branch
    ensures Counts(dirs, parent, levels, n, branch, pool).files == |FilesMissing(dirs, parent, levels, n, branch, pool)|
    decreases levels, n
  {
    if levels > 0 && n > 0 {
      var node := parent + [n - 1];
      FilesAreCounted(dirs, parent, levels, n - 1, branch, pool);
      FilesAreCounted(dirs, node, levels - 1, branch, branch, pool);
      FilesOfChild(dirs, parent, levels, n, branch, pool);
    }
  }

  /** Every place of the tree is there with its files. */
  ghost predicate IsBuilt(dirs: Dirs, depth: nat, branch: nat, pool: set<string>) {
    forall p :: IsBelow(p, depth, branch) ==> HasLayer(dirs, p, pool)
  }

  /** engine_apply's build. */
  method Build(lab: Labyrinth, disk: Disk, pick: (Place, char) -> string, pool: set<string>, depth: nat, branch: nat)
    returns (ok: nat, failed: nat)
    requires forall p, c :: pick(p, c) in pool
    modifies lab
    ensures ok == Tallied(disk, [], depth, branch, branch).ok && failed == Tallied(disk, [], depth, branch, branch).failed
    ensures failed == 0 ==> Full(lab.dirs, [], depth, branch, pool) && IsBuilt(lab.dirs, depth, branch, pool)
    ensures Grows(old(lab.dirs), lab.dirs) && OnlyAdds(old(lab.dirs), lab.dirs, [], depth, branch, pool)
  {
    ok, failed := lab.BuildSubtree(disk, pick, pool, [], depth, branch, 0, 0);
    FullIsEveryPlace(lab.dirs, [], depth, branch, pool);
    assert forall p: Place :: [] + p == p;
  }

  /** engine_validate's count. */
  method Validate(dirs: Dirs, pool: set<string>, depth: nat, branch: nat) returns (missingLayers: nat, missingFiles: nat)
    requires "" !in pool
    ensures missingLayers == 0 && missingFiles == 0 <==> Full(dirs, [], depth, branch, pool)
  {
    missingLayers, missingFiles := ValidateSubtree(dirs, [], depth, branch, pool, 0, 0);
    ValidIffFull(dirs, [], depth, branch, pool);
  }

  /** A build without failures has made every node of the estimate, and validation finds
      nothing missing, whatever extensions the session's seed picked from the pool. */
  method ApplyThenValidate(lab: Labyrinth, disk: Disk, pick: (Place, char) -> string, level: nat)
    returns (applied: bool, ok: nat, missingLayers: nat, missingFiles: nat)
    requires 1 <= level <= 5
    requires forall p, c :: pick(p, c) in PoolOf(level)
    modifies lab
    ensures var depth, branch := ENGINE_TREE_DEPTH[level], ENGINE_TREE_BRANCH[level];
            && (applied <==> Tallied(disk, [], depth, branch, branch).failed == 0)
            && (applied ==> ok == Nodes(branch, depth) && missingLayers == 0 && missingFiles == 0)
            && (applied ==> IsBuilt(lab.dirs, depth, branch, PoolOf(level)))
            && Grows(old(lab.dirs), lab.dirs) && OnlyAdds(old(lab.dirs), lab.dirs, [], depth, branch, PoolOf(level))
  {
    var depth, branch := ENGINE_TREE_DEPTH[level], ENGINE_TREE_BRANCH[level];
    var estimated := EstimateNodes(branch, depth);
    assert estimated <= ENGINE_MAX_DECOY_NODES by {
      TablesFit(level);
    }
    if estimated > ENGINE_MAX_DECOY_NODES {
      assert false;
    }
    var failed;
    ok, failed := Build(lab, disk, pick, PoolOf(level), depth, branch);
    BuildMeetsEstimate(disk, [], depth, branch);
    missingLayers, missingFiles := Validate(lab.dirs, PoolOf(level), depth, branch);
    applied := failed == 0;
  }

  function PoolOf(level: nat): (pool: set<string>)
    ensures "" !in pool
  {
    if level >= 4 then BINARY_EXT_POOL else TEXT_EXT_POOL
  }
}
