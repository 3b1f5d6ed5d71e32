/** The two Levenshtein distances of the repository, levenshtein in c_src/sandbox/jail.c and
    levenshtein_distance in rust/path_assistant.rs, and the search that uses the first. */
module EditDistance {

  function Min(a: int, b: int): int { if a <= b then a else b }

  function Max(a: int, b: int): int { if a <= b then b else a }

  function Front<T>(s: seq<T>): seq<T>
    requires s != []
  {
    s[..|s| - 1]
  }

  function Last<T>(s: seq<T>): T
    requires s != []
  {
    s[|s| - 1]
  }

  // ---------------------------------------------------------------------
  // Edit scripts: what a distance is
  // ---------------------------------------------------------------------

  /** One edit, as a script is read from left to right along the source word. */
  datatype Edit<T> = Keep | Replace(c: T) | Insert(c: T) | Delete

  datatype Outcome<T> = Stuck | Word(w: seq<T>)

  /** What a script makes of a word it uses up completely. */
  function Apply<T>(script: seq<Edit<T>>, a: seq<T>): Outcome<T> {
    if script == [] then if a == [] then Word([]) else Stuck
    else
      var e := Last(script);
      if e.Insert? then Append(Apply(Front(script), a), e.c)
      else if a == [] then Stuck
      else
        var rest := Apply(Front(script), Front(a));
        match e
        case Keep => Append(rest, Last(a))
        case Replace(c) => Append(rest, c)
        case Delete => rest
  }

  function Append<T>(o: Outcome<T>, c: T): Outcome<T> {
    match o
    case Stuck => Stuck
    case Word(w) => Word(w + [c])
  }

  function Cost<T>(script: seq<Edit<T>>): nat {
    if script == [] then 0 else Cost(Front(script)) + if Last(script).Keep? then 0 else 1
  }

  predicate Turns<T(==)>(script: seq<Edit<T>>, a: seq<T>, b: seq<T>) { Apply(script, a) == Word(b) }

  // ---------------------------------------------------------------------
  // The recurrence
  // ---------------------------------------------------------------------

  /** The distance of two words: the recurrence of the C version. */
  function Distance<T(==)>(a: seq<T>, b: seq<T>): nat
    decreases |a| + |b|
  {
    if a == [] then |b|
    else if b == [] then |a|
    else
      Min(Distance(Front(a), b) + 1,
          Min(Distance(a, Front(b)) + 1,
              Distance(Front(a), Front(b)) + if Last(a) == Last(b) then 0 else 1))
  }

  lemma {:induction false} NeighboursDifferByOne<T>(a: seq<T>, b: seq<T>)
    ensures a != [] ==> Distance(Front(a), b) - 1 <= Distance(a, b) <= Distance(Front(a), b) + 1
    ensures b != [] ==> Distance(a, Front(b)) - 1 <= Distance(a, b) <= Distance(a, Front(b)) + 1
    decreases |a| + |b|
  {
    if a != [] && b != [] {
      NeighboursDifferByOne(Front(a), b);
      NeighboursDifferByOne(a, Front(b));
      NeighboursDifferByOne(Front(a), Front(b));
    }
  }

  /** On equal last characters the diagonal is already the least of the three, so the Rust
      version's shortcut computes the same function. */
  lemma DiagonalWins<T>(a: seq<T>, b: seq<T>)
    requires a != [] && b != [] && Last(a) == Last(b)
    ensures Distance(a, b) == Distance(Front(a), Front(b))
  {
    NeighboursDifferByOne(Front(a), b);
    NeighboursDifferByOne(a, Front(b));
  }

  // ---------------------------------------------------------------------
  // The distance is the least cost of a script
  // ---------------------------------------------------------------------

  lemma {:induction false} BestScript<T>(a: seq<T>, b: seq<T>) returns (script: seq<Edit<T>>)
    ensures Turns(script, a, b) && Cost(script) == Distance(a, b)
    decreases |a| + |b|
  {
    if a == [] && b == [] {
      script := [];
    } else if b != [] && (a == [] || Distance(a, b) == Distance(a, Front(b)) + 1) {
      var s := BestScript(a, Front(b));
      script := s + [Insert(Last(b))];
      assert Front(script) == s && Front(b) + [Last(b)] == b;
    } else if b == [] || Distance(a, b) == Distance(Front(a), b) + 1 {
      var s := BestScript(Front(a), b);
      script := s + [Delete];
      assert Front(script) == s;
    } else {
      var s := BestScript(Front(a), Front(b));
      script := s + [if Last(a) == Last(b) then Keep else Replace(Last(b))];
      assert Front(script) == s && Front(b) + [Last(b)] == b;
    }
  }

  lemma {:induction false} NoScriptIsCheaper<T>(script: seq<Edit<T>>, a: seq<T>, b: seq<T>)
    requires Turns(script, a, b)
    ensures Distance(a, b) <= Cost(script)
    decreases |script|
  {
    if script != [] {
      var s, e := Front(script), Last(script);
      if e.Insert? {
        assert Front(b) == Apply(s, a).w;
        NoScriptIsCheaper(s, a, Front(b));
        NeighboursDifferByOne(a, b);
      } else if e.Delete? {
        NoScriptIsCheaper(s, Front(a), b);
        NeighboursDifferByOne(a, b);
      } else {
        assert Front(b) == Apply(s, Front(a)).w;
        NoScriptIsCheaper(s, Front(a), Front(b));
      }
    }
  }

  // ---------------------------------------------------------------------
  // It is a metric
  // ---------------------------------------------------------------------

  lemma {:induction false} Symmetric<T>(a: seq<T>, b: seq<T>)
    ensures Distance(a, b) == Distance(b, a)
    decreases |a| + |b|
  {
    if a != [] && b != [] {
      Symmetric(Front(a), b);
      Symmetric(a, Front(b));
      Symmetric(Front(a), Front(b));
    }
  }

  lemma {:induction false} ZeroIffEqual<T>(a: seq<T>, b: seq<T>)
    ensures Distance(a, b) == 0 <==> a == b
    decreases |a| + |b|
  {
    if a != [] && b != [] {
      ZeroIffEqual(Front(a), Front(b));
      assert Front(a) + [Last(a)] == a && Front(b) + [Last(b)] == b;
      if Last(a) == Last(b) {
        DiagonalWins(a, b);
      }
    }
  }

  lemma {:induction false} LengthBounds<T>(a: seq<T>, b: seq<T>)
    ensures |a| - |b| <= Distance(a, b) && |b| - |a| <= Distance(a, b)
    ensures Distance(a, b) <= Max(|a|, |b|)
    decreases |a| + |b|
  {
    if a != [] && b != [] {
      LengthBounds(Front(a), b);
      LengthBounds(a, Front(b));
      LengthBounds(Front(a), Front(b));
    }
  }

  /** Two scripts one after the other can be merged into one that costs no more. */
  lemma {:induction false} Merge<T>(s: seq<Edit<T>>, t: seq<Edit<T>>, a: seq<T>, b: seq<T>, c: seq<T>)
    returns (r: seq<Edit<T>>)
    requires Turns(s, a, b) && Turns(t, b, c)
    ensures Turns(r, a, c) && Cost(r) <= Cost(s) + Cost(t)
    decreases |s| + |t|
  {
    if t != [] && Last(t).Insert? {
      var q := Merge(s, Front(t), a, b, Front(c));
      r := q + [Last(t)];
      assert Front(r) == q && Front(c) + [Last(c)] == c;
    } else if s != [] && Last(s).Delete? {
      var q := Merge(Front(s), t, Front(a), b, c);
      r := q + [Delete];
      assert Front(r) == q;
    } else if s == [] {
      r := [];
    } else {
      // the last edit of s makes the character that the last edit of t uses
      var e, f := Last(s), Last(t);
      var a' := if e.Insert? then a else Front(a);
      var c' := if f.Delete? then c else Front(c);
      var q := Merge(Front(s), Front(t), a', Front(b), c');
      if e.Insert? && f.Delete? {
        r := q;
      } else if f.Delete? {
        r := q + [Delete];
        assert Front(r) == q;
      } else {
        r := q + [if e.Insert? then Insert(Last(c)) else if e.Keep? && f.Keep? then Keep else Replace(Last(c))];
        assert Front(r) == q && Front(c) + [Last(c)] == c;
      }
    }
  }

  lemma Triangle<T>(a: seq<T>, b: seq<T>, c: seq<T>)
    ensures Distance(a, c) <= Distance(a, b) + Distance(b, c)
  {
    var s := BestScript(a, b);
    var t := BestScript(b, c);
    var r := Merge(s, t, a, b, c);
    NoScriptIsCheaper(r, a, c);
  }

  // ---------------------------------------------------------------------
  // The two tables
  // ---------------------------------------------------------------------

  /** The distance of two prefixes, by their lengths. */
  ghost function Cell(a: string, b: string, i: nat, j: nat): (d: nat)
    requires i <= |a| && j <= |b|
    ensures i == 0 ==> d == j
    ensures j == 0 ==> d == i
  {
    Distance(a[..i], b[..j])
  }

  lemma CellRecurrence(a: string, b: string, i: nat, j: nat)
    requires 0 < i <= |a| && 0 < j <= |b|
    ensures Cell(a, b, i, j)
         == Min(Cell(a, b, i - 1, j) + 1,
                Min(Cell(a, b, i, j - 1) + 1, Cell(a, b, i - 1, j - 1) + if a[i - 1] == b[j - 1] then 0 else 1))
    ensures a[i - 1] == b[j - 1] ==> Cell(a, b, i, j) == Cell(a, b, i - 1, j - 1)
  {
    var u, v := a[..i], b[..j];
    assert Front(u) == a[..i - 1] && Last(u) == a[i - 1];
    assert Front(v) == b[..j - 1] && Last(v) == b[j - 1];
    if a[i - 1] == b[j - 1] {
      DiagonalWins(u, v);
    }
  }

  /** c_src/sandbox/jail.c:23-40. */
  method LevenshteinC(s1: string, s2: string) returns (distance: int)
    ensures distance == Distance(s1, s2)
  {
    var m, n := |s1|, |s2|;
    var matrix := new int[m + 1, n + 1];
    for i := 0 to m + 1
      invariant forall x :: 0 <= x < i ==> matrix[x, 0] == x
    {
      matrix[i, 0] := i;
    }
    for j := 0 to n + 1
      invariant forall x :: 0 < x <= m ==> matrix[x, 0] == x
      invariant forall y :: 0 <= y < j ==> matrix[0, y] == y
    {
      matrix[0, j] := j;
    }
    for i := 1 to m + 1
      invariant forall x :: i <= x <= m ==> matrix[x, 0] == x
      invariant forall x, y :: 0 <= x < i && 0 <= y <= n ==> matrix[x, y] == Cell(s1, s2, x, y)
    {
      for j := 1 to n + 1
        invariant forall x :: i < x <= m ==> matrix[x, 0] == x
        invariant forall x, y :: 0 <= x < i && 0 <= y <= n ==> matrix[x, y] == Cell(s1, s2, x, y)
        invariant forall y :: 0 <= y < j ==> matrix[i, y] == Cell(s1, s2, i, y)
      {
        CellRecurrence(s1, s2, i, j);
        var cost := if s1[i - 1] == s2[j - 1] then 0 else 1;
        var min := matrix[i - 1, j] + 1;
        if matrix[i, j - 1] + 1 < min {
          min := matrix[i, j - 1] + 1;
        }
        if matrix[i - 1, j - 1] + cost < min {
          min := matrix[i - 1, j - 1] + cost;
        }
        matrix[i, j] := min;
      }
    }
    distance := matrix[m, n];
    assert s1[..m] == s1 && s2[..n] == s2;
  }

  /** rust/path_assistant.rs:9-33. */
  method LevenshteinRust(s1: string, s2: string) returns (distance: int)
    ensures distance == Distance(s1, s2)
  {
    var m, n := |s1|, |s2|;
    var dp := new int[m + 1, n + 1]((i, j) => 0);
    for i := 0 to m + 1
      invariant forall x :: 0 <= x < i ==> dp[x, 0] == x
    {
      dp[i, 0] := i;
    }
    for j := 0 to n + 1
      invariant forall x :: 0 < x <= m ==> dp[x, 0] == x
      invariant forall y :: 0 <= y < j ==> dp[0, y] == y
    {
      dp[0, j] := j;
    }
    for i := 1 to m + 1
      invariant forall x :: i <= x <= m ==> dp[x, 0] == x
      invariant forall x, y :: 0 <= x < i && 0 <= y <= n ==> dp[x, y] == Cell(s1, s2, x, y)
    {
      for j := 1 to n + 1
        invariant forall x :: i < x <= m ==> dp[x, 0] == x
        invariant forall x, y :: 0 <= x < i && 0 <= y <= n ==> dp[x, y] == Cell(s1, s2, x, y)
        invariant forall y :: 0 <= y < j ==> dp[i, y] == Cell(s1, s2, i, y)
      {
        CellRecurrence(s1, s2, i, j);
        if s1[i - 1] == s2[j - 1] {
          dp[i, j] := dp[i - 1, j - 1];
        } else {
          dp[i, j] := 1 + Min(Min(dp[i - 1, j], dp[i, j - 1]), dp[i - 1, j - 1]);
        }
      }
    }
    distance := dp[m, n];
    assert s1[..m] == s1 && s2[..n] == s2;
  }

  // ---------------------------------------------------------------------
  // The closest binary
  // ---------------------------------------------------------------------

  datatype Entry = Entry(name: string, executable: bool)

  /** A directory that cannot be opened reads as one with no entries. */
  type Listing = seq<Entry>

  datatype Match = NoMatch | At(dir: nat, index: nat)

  predicate Candidate(target: string, maxDistance: int, e: Entry) {
    e.name != "." && e.name != ".." && e.executable && Distance(target, e.name) <= maxDistance
  }

  predicate Before(p: nat, k: nat, p': nat, k': nat) { p < p' || (p == p' && k < k') }

  /** `best` is the first of the closest candidates among the entries before (dirs, index). */
  ghost predicate IsFirstClosest(target: string, maxDistance: int, dirs: seq<Listing>, p: nat, k: nat, best: Match) {
    && (best == NoMatch ==>
          forall x, y :: 0 <= x < |dirs| && 0 <= y < |dirs[x]| && Before(x, y, p, k) ==>
                           !Candidate(target, maxDistance, dirs[x][y]))
    && (best.At? ==>
          && best.dir < |dirs| && best.index < |dirs[best.dir]| && Before(best.dir, best.index, p, k)
          && Candidate(target, maxDistance, dirs[best.dir][best.index])
          && forall x, y :: 0 <= x < |dirs| && 0 <= y < |dirs[x]| && Before(x, y, p, k)
                            && Candidate(target, maxDistance, dirs[x][y]) ==>
                              var d, d' := Distance(target, dirs[best.dir][best.index].name), Distance(target, dirs[x][y].name);
                              d <= d' && (Before(x, y, best.dir, best.index) ==> d < d'))
  }

  /** find_closest_binary, c_src/sandbox/jail.c:43-82. */
  method FindClosest(target: string, maxDistance: int, dirs: seq<Listing>) returns (best: Match)
    ensures IsFirstClosest(target, maxDistance, dirs, |dirs|, 0, best)
    ensures best.At? ==>
              && best.dir < |dirs| && best.index < |dirs[best.dir]|
              && var e := dirs[best.dir][best.index];
                 e.name !in {".", ".."} && e.executable && Distance(target, e.name) <= maxDistance
    ensures best == NoMatch ==>
              forall x, y :: 0 <= x < |dirs| && 0 <= y < |dirs[x]| ==>
                             var e := dirs[x][y];
                             e.name in {".", ".."} || !e.executable || Distance(target, e.name) > maxDistance
  {
    best := NoMatch;
    var minDist := maxDistance + 1;
    for p := 0 to |dirs|
      invariant IsFirstClosest(target, maxDistance, dirs, p, 0, best)
      invariant minDist == if best.At? then Distance(target, dirs[best.dir][best.index].name) else maxDistance + 1
    {
      var dir := dirs[p];
      for k := 0 to |dir|
        invariant IsFirstClosest(target, maxDistance, dirs, p, k, best)
        invariant minDist == if best.At? then Distance(target, dirs[best.dir][best.index].name) else maxDistance + 1
      {
        var entry := dir[k];
        if entry.name != "." && entry.name != ".." {
          var dist := LevenshteinC(target, entry.name);
          if dist < minDist && entry.executable {
            minDist := dist;
            best := At(p, k);
          }
        }
      }
    }
  }
}
