/** Is a path inside the vault? The climbing loops and prefix test of overlay_path_is_safe
    (c_src/container/overlay.c:44-75) and bind_path_is_safe (c_src/cli/vault_cli.c:1241-1258),
    and the lexical cleaning of safe_vault_path (rust/vault_ops.rs:9-29). */
module PathContainment {
  import opened Options

  const SYMLOOP_MAX: nat := 32
  const PATH_MAX: nat := 4096

  // ---- The prefix test ------------------------------------------------------------------

  type Name = s: string | s != "" && '/' !in s witness "x"

  /** A resolved path as realpath prints it. */
  function Render(names: seq<Name>): (s: string)
    ensures s != "" && s[0] == '/'
  {
    if names == [] then "/" else Tail(names)
  }

  function Tail(names: seq<Name>): (s: string)
    ensures names != [] ==> s != "" && s[0] == '/'
  {
    if names == [] then "" else "/" + names[0] + Tail(names[1..])
  }

  predicate Inside(root: string, path: string) {
    root <= path && (|path| == |root| || path[|root|] == '/')
  }

  lemma {:induction false} TailPrefix(root: seq<Name>, path: seq<Name>)
    ensures Inside(Tail(root), Tail(path)) <==> root <= path
  {
    if root == [] {
      assert Tail(root) == "";
    } else if path == [] {
      assert !(Tail(root) <= Tail(path));
    } else {
      var a, b := root[0], path[0];
      var ra, rb := Tail(root[1..]), Tail(path[1..]);
      TailPrefix(root[1..], path[1..]);
      assert root <= path <==> a == b && root[1..] <= path[1..];
      NamePrefix(a, ra, b, rb);
    }
  }

  /** A name followed by a slash or the end matches only itself. */
  lemma NamePrefix(a: Name, ra: string, b: Name, rb: string)
    requires ra == "" || ra[0] == '/'
    requires rb == "" || rb[0] == '/'
    ensures Inside("/" + a + ra, "/" + b + rb) <==> a == b && Inside(ra, rb)
  {
    if a == b {
      SameStart("/" + a, ra, rb);
    } else {
      OtherName(a, ra, b, rb);
    }
  }

  lemma SameStart(start: string, ra: string, rb: string)
    ensures Inside(start + ra, start + rb) <==> Inside(ra, rb)
  {
    assert (start + ra)[|start|..] == ra && (start + rb)[|start|..] == rb;
    if ra <= rb {
      assert start + rb == start + ra + rb[|ra|..];
    }
    if start + ra <= start + rb {
      assert rb[..|ra|] == (start + rb)[|start|..|start + ra|] == ra;
    }
  }

  lemma OtherName(a: Name, ra: string, b: Name, rb: string)
    requires ra == "" || ra[0] == '/'
    requires rb == "" || rb[0] == '/'
    requires a != b
    ensures !Inside("/" + a + ra, "/" + b + rb)
  {
    var s, t := "/" + a + ra, "/" + b + rb;
    assert s[1..1 + |a|] == a && t[1..1 + |b|] == b;
    assert |b| < |a| ==> s[1 + |b|] == a[|b|] && a[|b|] in a;
    assert |a| < |b| ==> t[1 + |a|] == b[|a|] && b[|a|] in b;
    assert ra != "" ==> s[1 + |a|] == '/';
    assert rb != "" ==> t[1 + |b|] == '/';
    assert |a| == |b| ==> s[1..1 + |a|] != t[1..1 + |a|];
  }

  /** The test on strings is containment of resolved paths; only of the file system's root it
      accepts nothing but the root itself. */
  lemma InsideIffPrefix(root: seq<Name>, path: seq<Name>)
    ensures root != [] ==> (Inside(Render(root), Render(path)) <==> root <= path)
    ensures root == [] ==> (Inside(Render(root), Render(path)) <==> path == [])
  {
    if root != [] {
      TailPrefix(root, path);
      if path == [] {
        assert root[0] != "" && |Tail(root)| > 1;
      }
    } else if path != [] {
      assert Render(path)[1] == path[0][0];
      assert path[0][0] in path[0];
    }
  }

  // ---- Climbing to something that exists ------------------------------------------------

  /** Where the last '/' is, if anywhere. */
  function LastSlash(s: string): (r: Option<nat>)
    ensures r.Some? ==> r.value < |s| && s[r.value] == '/' && '/' !in s[r.value + 1..]
    ensures r == None ==> '/' !in s
  {
    if s == "" then None
    else if s[|s| - 1] == '/' then Some(|s| - 1)
    else
      assert s == s[..|s| - 1] + [s[|s| - 1]];
      LastSlash(s[..|s| - 1])
  }

  /** The path after `k` cuts at the last '/', unless it came to the first character or ran out
      of slashes. */
  function Cut(s: string, k: nat): (r: Option<string>)
    ensures r.Some? ==> r.value <= s
    decreases k
  {
    if k == 0 then Some(s)
    else
      var t :- Cut(s, k - 1);
      var slash :- LastSlash(t);
      if slash == 0 then None else Some(t[..slash])
  }

  /** realpath: what a path resolves to, if it exists. */
  type Resolver = string -> Option<string>

  /** The first `k` cuts do not exist, the next one does. */
  ghost predicate Reaches(resolve: Resolver, s: string, k: nat, found: string) {
    && Cut(s, k).Some? && resolve(Cut(s, k).value) == Some(found)
    && forall j :: 0 <= j < k ==> Cut(s, j).Some? && resolve(Cut(s, j).value) == None
  }

  /** Within the limit an existing ancestor is reached, and it is inside the root. */
  ghost predicate Accepts(resolve: Resolver, root: string, path: string, limit: Option<nat>) {
    && resolve(root).Some?
    && exists k: nat, found: string ::
         Reaches(resolve, path, k, found) && (limit.Some? ==> k <= limit.value) && Inside(resolve(root).value, found)
  }

  /** Nothing up to the `k`th cut exists. */
  ghost predicate NothingTo(resolve: Resolver, path: string, k: nat) {
    forall j :: 0 <= j <= k ==> Cut(path, j).Some? && resolve(Cut(path, j).value) == None
  }

  lemma NotReached(resolve: Resolver, root: string, path: string, limit: Option<nat>, k: nat)
    requires NothingTo(resolve, path, k) && (Cut(path, k + 1) == None || (limit.Some? && k >= limit.value))
    ensures !Accepts(resolve, root, path, limit)
  {
    forall n: nat | n > k
      ensures Cut(path, k + 1) == None ==> Cut(path, n) == None
    {
      if Cut(path, k + 1) == None {
        NoCutAt(path, k + 1, n);
      }
    }
  }

  lemma ReachedOnce(resolve: Resolver, root: string, path: string, limit: Option<nat>, k: nat, found: string)
    requires resolve(root).Some? && Reaches(resolve, path, k, found) && (limit.Some? ==> k <= limit.value)
    ensures Accepts(resolve, root, path, limit) <==> Inside(resolve(root).value, found)
  {
    forall n: nat, other: string | Reaches(resolve, path, n, other)
      ensures n == k && other == found
    {
    }
  }

  /** Both checks: with `limit` the depth guard of the overlay, without it the bind check. */
  method IsSafe(resolve: Resolver, root: string, path: string, limit: Option<nat>) returns (safe: bool)
    ensures safe <==> Accepts(resolve, root, path, limit)
  {
    var resolvedRoot := resolve(root);
    if resolvedRoot == None {
      return false;
    }
    var probe, depth := path, 0;
    while resolve(probe) == None
      invariant Cut(path, depth) == Some(probe) && (limit.Some? ==> depth <= limit.value)
      invariant depth > 0 ==> NothingTo(resolve, path, depth - 1)
      decreases |probe|
    {
      assert NothingTo(resolve, path, depth);
      if limit.Some? && depth + 1 > limit.value {
        NotReached(resolve, root, path, limit, depth);
        return false;
      }
      var slash := LastSlash(probe);
      if slash == None || slash.value == 0 {
        NotReached(resolve, root, path, limit, depth);
        return false;
      }
      probe := probe[..slash.value];
      depth := depth + 1;
    }
    ReachedOnce(resolve, root, path, limit, depth, resolve(probe).value);
    return Inside(resolvedRoot.value, resolve(probe).value);
  }

  /** A path that exists is accepted exactly if what it resolves to is the resolved root or goes
      on with a slash behind it. */
  lemma ExistingPath(resolve: Resolver, root: string, path: string, limit: Option<nat>)
    requires resolve(root).Some? && resolve(path).Some?
    ensures var r, p := resolve(root).value, resolve(path).value;
            Accepts(resolve, root, path, limit) <==> p == r || r + "/" <= p
  {
    var r, p := resolve(root).value, resolve(path).value;
    ReachedOnce(resolve, root, path, limit, 0, p);
    assert r + "/" <= p ==> p[|r|] == (r + "/")[|r|] && p[..|r|] == (r + "/")[..|r|];
    if Inside(r, p) && p != r {
      assert p[..|r|] == r && p[|r|] == '/';
      assert p[..|r| + 1] == r + "/";
    }
  }

  lemma CutOnce(up: string, leaf: string)
    requires up != "" && '/' !in leaf
    ensures Cut(up + "/" + leaf, 1) == Some(up)
  {
    var s := up + "/" + leaf;
    LastSlashIs(up, leaf);
    assert Cut(s, 0) == Some(s);
    assert s[..|up|] == up;
  }

  lemma {:induction false} LastSlashIs(up: string, leaf: string)
    requires '/' !in leaf
    ensures LastSlash(up + "/" + leaf) == Some(|up|)
    decreases |leaf|
  {
    var s := up + "/" + leaf;
    if leaf != "" {
      assert s[|s| - 1] == leaf[|leaf| - 1] && leaf[|leaf| - 1] in leaf;
      assert s[..|s| - 1] == up + "/" + leaf[..|leaf| - 1];
      LastSlashIs(up, leaf[..|leaf| - 1]);
    }
  }

  /** A path that does not exist in a directory that does is judged by the directory. */
  lemma MissingLeaf(resolve: Resolver, root: string, up: string, leaf: string, limit: Option<nat>)
    requires resolve(root).Some? && resolve(up).Some? && resolve(up + "/" + leaf) == None
    requires up != "" && '/' !in leaf && (limit.Some? ==> limit.value >= 1)
    ensures Accepts(resolve, root, up + "/" + leaf, limit) <==> Accepts(resolve, root, up, limit)
  {
    CutOnce(up, leaf);
    ReachedOnce(resolve, root, up + "/" + leaf, limit, 1, resolve(up).value);
    ReachedOnce(resolve, root, up, limit, 0, resolve(up).value);
  }

  lemma {:induction false} NoCutAt(s: string, k: nat, n: nat)
    requires Cut(s, k) == None && k <= n
    ensures Cut(s, n) == None
    decreases n - k
  {
    if k < n {
      NoCutAt(s, k + 1, n);
    }
  }

  /** overlay_path_is_safe: with a depth guard, and nothing that does not fit its buffer. */
  method OverlayPathIsSafe(resolve: Resolver, root: string, path: string) returns (safe: bool)
    ensures safe <==> |path| < 4096 && Accepts(resolve, root, path, Some(32))
  {
    if resolve(root) == None || |path| >= PATH_MAX {
      return false;
    }
    safe := IsSafe(resolve, root, path, Some(SYMLOOP_MAX));
  }

  /** What snprintf leaves of a path in the buffer. */
  function Fitted(path: string): string { if |path| < PATH_MAX then path else path[..PATH_MAX - 1] }

  /** bind_path_is_safe: without a guard, and on what fits its buffer. */
  method BindPathIsSafe(resolve: Resolver, root: string, path: string) returns (safe: bool)
    ensures safe <==> Accepts(resolve, root, if |path| < 4096 then path else path[..4095], None)
  {
    safe := IsSafe(resolve, root, Fitted(path), None);
  }

  // ---- Lexical cleaning -----------------------------------------------------------------

  datatype Component = Normal(name: Name) | CurDir | ParentDir | RootDir

  /** How deep the components lead, counted from the vault's root. */
  function Depth(cs: seq<Component>): int {
    if cs == [] then 0
    else
      var last := cs[|cs| - 1];
      Depth(cs[..|cs| - 1]) + if last.Normal? then 1 else if last.ParentDir? then -1 else 0
  }

  /** One component followed from a place, `..` going up as far as there is an up. */
  function Step(at: seq<Name>, c: Component): seq<Name> {
    match c
    case Normal(name) => at + [name]
    case ParentDir => if at == [] then [] else at[..|at| - 1]
    case _ => at
  }

  function Follow(from: seq<Name>, cs: seq<Component>): seq<Name> {
    if cs == [] then from else Step(Follow(from, cs[..|cs| - 1]), cs[|cs| - 1])
  }

  /** From `height` names below it, the components never lead above. */
  ghost predicate NeverAbove(height: nat, cs: seq<Component>) {
    forall k :: 0 <= k <= |cs| ==> height + Depth(cs[..k]) >= 0
  }

  /** The loop of safe_vault_path, lines 12-29. It succeeds exactly if the components never lead
      above where they start, and then they lead to the same place below any root. */
  method CleanRelative(cs: seq<Component>) returns (r: Option<seq<Name>>)
    ensures r.Some? <==> NeverAbove(0, cs)
    ensures r.Some? ==> |r.value| == Depth(cs) && forall root :: Follow(root, cs) == root + r.value
  {
    var clean: seq<Name> := [];
    for i := 0 to |cs|
      invariant |clean| == Depth(cs[..i]) && forall k :: 0 <= k <= i ==> Depth(cs[..k]) >= 0
      invariant forall root :: Follow(root, cs[..i]) == root + clean
    {
      assert cs[..i + 1][..i] == cs[..i];
      match cs[i]
      case Normal(name) =>
        assert forall root: seq<Name> :: root + (clean + [name]) == root + clean + [name];
        clean := clean + [name];
      case ParentDir =>
        if clean == [] {
          assert Depth(cs[..i + 1]) == -1;
          return None;
        }
        assert forall root: seq<Name> :: root + clean[..|clean| - 1] == (root + clean)[..|root + clean| - 1];
        clean := clean[..|clean| - 1];
      case CurDir =>
      case RootDir =>
    }
    assert cs[..|cs|] == cs;
    return Some(clean);
  }

  /** A path of names alone. */
  function Plain(names: seq<Name>): (cs: seq<Component>)
    ensures |cs| == |names| && forall i :: 0 <= i < |names| ==> cs[i] == Normal(names[i])
  {
    if names == [] then [] else Plain(names[..|names| - 1]) + [Normal(names[|names| - 1])]
  }

  /** Names alone are kept as they are and in their order. */
  lemma {:induction false} NamesAreKept(root: seq<Name>, names: seq<Name>)
    ensures Depth(Plain(names)) == |names| && Follow(root, Plain(names)) == root + names
    ensures NeverAbove(0, Plain(names))
  {
    if names != [] {
      var front, last := names[..|names| - 1], names[|names| - 1];
      NamesAreKept(root, front);
      assert Plain(names)[..|front|] == Plain(front);
      assert root + front + [last] == root + names;
      forall k | 0 <= k <= |names|
        ensures Depth(Plain(names)[..k]) >= 0
      {
        assert k <= |front| ==> Plain(names)[..k] == Plain(front)[..k];
        assert Plain(names)[..|names|] == Plain(names);
      }
    }
  }

  // ---- Is an accepted path inside? ------------------------------------------------------

  /** A piece of a path between slashes. */
  function ComponentOf(piece: string): Component
    requires '/' !in piece
  {
    if piece == "" || piece == "." then CurDir else if piece == ".." then ParentDir else Normal(piece)
  }

  function FirstSlash(s: string): (i: nat)
    ensures i <= |s| && '/' !in s[..i] && (i < |s| ==> s[i] == '/')
  {
    if s == "" || s[0] == '/' then 0 else 1 + FirstSlash(s[1..])
  }

  /** The components between the slashes of a path. */
  function Components(s: string): seq<Component>
    decreases |s|
  {
    var i := FirstSlash(s);
    [ComponentOf(s[..i])] + if i == |s| then [] else Components(s[i + 1..])
  }

  /** The part of a path that `k` cuts take off. */
  function CutOff(s: string, k: nat): seq<Component>
    requires Cut(s, k).Some?
  {
    Components(s[|Cut(s, k).value|..])
  }

  /** On the way along the components the place stays below `root`. */
  ghost predicate StaysBelow(root: seq<Name>, from: seq<Name>, cs: seq<Component>) {
    forall k :: 0 <= k <= |cs| ==> root <= Follow(from, cs[..k])
  }

  lemma {:induction false} StaysBelowIff(root: seq<Name>, from: seq<Name>, cs: seq<Component>)
    requires root != [] && root <= from
    ensures StaysBelow(root, from, cs) <==> NeverAbove(|from| - |root|, cs)
    ensures StaysBelow(root, from, cs) ==> |Follow(from, cs)| == |from| + Depth(cs)
  {
    assert cs[..|cs|] == cs;
    if cs != [] {
      var front := cs[..|cs| - 1];
      StaysBelowIff(root, from, front);
      assert forall k :: 0 <= k <= |front| ==> front[..k] == cs[..k];
      assert StaysBelow(root, from, cs) <==> StaysBelow(root, from, front) && root <= Follow(from, cs);
      assert NeverAbove(|from| - |root|, cs) <==>
             NeverAbove(|from| - |root|, front) && |from| - |root| + Depth(cs) >= 0;
    }
  }

  lemma {:induction false} LastSlashAt(rest: string, piece: string)
    requires '/' !in piece
    ensures LastSlash(rest + "/" + piece) == Some(|rest|)
    decreases |piece|
  {
    var t := rest + "/" + piece;
    if piece != "" {
      assert t[|t| - 1] == piece[|piece| - 1];
      assert t[..|t| - 1] == rest + "/" + piece[..|piece| - 1];
      LastSlashAt(rest, piece[..|piece| - 1]);
    }
  }

  lemma CutStep(s: string, k: nat, t: string, rest: string, piece: string)
    requires Cut(s, k) == Some(t) && t == rest + "/" + piece && rest != "" && '/' !in piece
    ensures Cut(s, k + 1) == Some(rest)
  {
    LastSlashAt(rest, piece);
    assert t[..|rest|] == rest;
  }

  lemma FourCuts(path: string, t1: string, t2: string, t3: string, root: string, name: Name, other: Name)
    requires root != "" && t3 == root + "/" + name && t2 == t3 + "/" + ".." && t1 == t2 + "/" + ".."
    requires path == t1 + "/" + other
    ensures Cut(path, 0) == Some(path) && Cut(path, 1) == Some(t1) && Cut(path, 2) == Some(t2)
    ensures Cut(path, 3) == Some(t3) && Cut(path, 4) == Some(root)
  {
    CutStep(path, 0, path, t1, other);
    CutStep(path, 1, t1, t2, "..");
    CutStep(path, 2, t2, t3, "..");
    CutStep(path, 3, t3, root, name);
  }

  lemma {:induction false} FirstSlashAt(piece: string, rest: string)
    requires '/' !in piece
    ensures FirstSlash(piece + "/" + rest) == |piece|
  {
    var s := piece + "/" + rest;
    if piece != "" {
      assert s[0] == piece[0];
      assert s[1..] == piece[1..] + "/" + rest;
      FirstSlashAt(piece[1..], rest);
    }
  }

  lemma FirstComponent(s: string, piece: string, rest: string)
    requires s == piece + "/" + rest && '/' !in piece
    ensures Components(s) == [ComponentOf(piece)] + Components(rest)
  {
    FirstSlashAt(piece, rest);
    assert s[..|piece|] == piece && s[|piece| + 1..] == rest;
  }

  lemma DepthStep(cs: seq<Component>, k: nat)
    requires k < |cs|
    ensures Depth(cs[..k + 1]) == Depth(cs[..k]) + if cs[k].Normal? then 1 else if cs[k].ParentDir? then -1 else 0
  {
    assert cs[..k + 1][..k] == cs[..k];
  }

  lemma UpTwiceIsAbove(cs: seq<Component>, c1: seq<Component>, c2: seq<Component>, c3: seq<Component>,
                       c4: seq<Component>, name: Name)
    requires cs == [CurDir] + c1 && c1 == [Normal(name)] + c2 && c2 == [ParentDir] + c3 && c3 == [ParentDir] + c4
    ensures !NeverAbove(0, cs)
  {
    DepthStep(cs, 0);
    DepthStep(cs, 1);
    DepthStep(cs, 2);
    DepthStep(cs, 3);
    assert 0 + Depth(cs[..4]) == -1;
  }

  lemma UpTwice(tail: string, name: Name, t1: string, t2: string, t3: string, other: string)
    requires tail == "" + "/" + t1 && t1 == name + "/" + t2 && t2 == ".." + "/" + t3 && t3 == ".." + "/" + other
    requires name != "." && name != ".."
    ensures !NeverAbove(0, Components(tail))
  {
    FirstComponent(tail, "", t1);
    FirstComponent(t1, name, t2);
    FirstComponent(t2, "..", t3);
    FirstComponent(t3, "..", other);
    UpTwiceIsAbove(Components(tail), Components(t1), Components(t2), Components(t3), Components(other), name);
  }

  lemma TailText(root: string, name: Name, other: Name, missing: string, up: string, back: string,
                 t1: string, t2: string, t3: string)
    requires missing == root + "/" + name && up == missing + "/" + ".." && back == up + "/" + ".."
    requires t3 == ".." + "/" + other && t2 == ".." + "/" + t3 && t1 == name + "/" + t2
    ensures back + "/" + other == root + ("" + "/" + t1)
  {
    assert back + "/" + other == up + "/" + t3;
    assert up + "/" + t3 == missing + "/" + t2;
    assert missing + "/" + t2 == root + "/" + t1;
  }

  lemma CutOffAt(path: string, k: nat, root: string, tail: string)
    requires Cut(path, k) == Some(root) && path == root + tail
    ensures CutOff(path, k) == Components(tail)
  {
  }

  lemma NothingStep(resolve: Resolver, path: string, k: nat, t: string)
    requires Cut(path, k) == Some(t) && resolve(t) == None && (k > 0 ==> NothingTo(resolve, path, k - 1))
    ensures NothingTo(resolve, path, k)
  {
    forall j | 0 <= j <= k
      ensures Cut(path, j).Some? && resolve(Cut(path, j).value) == None
    {
      if j < k {
        assert NothingTo(resolve, path, k - 1);
      }
    }
  }

  /** Where a link that stands at a path leads, if one does. realpath resolves a path to nothing
      also when a link in it leads nowhere yet. */
  type Links = string -> Option<seq<Name>>

  /** The place after the first `k` components, a link followed to where it leads. */
  function PlaceAt(from: seq<Name>, cs: seq<Component>, leads: nat -> Option<seq<Name>>, k: nat): seq<Name>
    requires k <= |cs|
  {
    if k == 0 then from
    else
      match leads(k - 1)
      case Some(to) => to
      case None => Step(PlaceAt(from, cs, leads, k - 1), cs[k - 1])
  }

  ghost predicate StaysInside(root: seq<Name>, from: seq<Name>, cs: seq<Component>, leads: nat -> Option<seq<Name>>) {
    forall k :: 0 <= k <= |cs| ==> root <= PlaceAt(from, cs, leads, k)
  }

  /** The links among the components that `k` cuts take off; the first of these is what stands
      before the slash. */
  function LeadsAt(links: Links, path: string, k: nat): nat -> Option<seq<Name>> {
    (i: nat) => if 1 <= i <= k && Cut(path, k - i).Some? then links(Cut(path, k - i).value) else None
  }

  ghost predicate Agrees(links: Links, isLink: string -> bool) { forall t :: links(t).Some? <==> isLink(t) }

  /** The path stays inside wherever the links may lead. */
  ghost predicate StaysWherever(isLink: string -> bool, path: string, k: nat, root: seq<Name>, from: seq<Name>)
    requires Cut(path, k).Some?
  {
    forall links: Links {:trigger Agrees(links, isLink)} :: Agrees(links, isLink) ==>
      StaysInside(root, from, CutOff(path, k), LeadsAt(links, path, k))
  }

  /** No component that is cut off is a link. */
  ghost predicate NoLinkCut(isLink: string -> bool, path: string, k: nat) {
    forall i :: 0 <= i < k && Cut(path, i).Some? ==> !isLink(Cut(path, i).value)
  }

  lemma {:induction false} WithoutLinks(from: seq<Name>, cs: seq<Component>, leads: nat -> Option<seq<Name>>, k: nat)
    requires k <= |cs| && forall i: nat :: i < |cs| ==> leads(i) == None
    ensures PlaceAt(from, cs, leads, k) == Follow(from, cs[..k])
  {
    if k > 0 {
      WithoutLinks(from, cs, leads, k - 1);
      assert cs[..k][..k - 1] == cs[..k - 1];
    }
  }

  lemma {:induction false} ComponentsOfPiece(piece: string, rest: string)
    requires '/' !in piece && (rest == "" || rest[0] == '/')
    ensures |Components(piece + rest)| == |Components(rest)|
  {
    if rest == "" {
      assert piece + rest == piece && FirstSlash(piece) == |piece|;
    } else {
      assert rest == "" + "/" + rest[1..];
      FirstComponent(rest, "", rest[1..]);
      assert piece + rest == piece + "/" + rest[1..];
      FirstComponent(piece + rest, piece, rest[1..]);
    }
  }

  lemma CutApart(path: string, t: string, u: string)
    requires u < t <= path && t[|u|] == '/' && '/' !in t[|u| + 1..] && (t == path || path[|t|] == '/')
    ensures |Components(path[|u|..])| == |Components(path[|t|..])| + 1
  {
    var piece, rest := t[|u| + 1..], path[|t|..];
    assert path[|u|..] == "" + "/" + (piece + rest);
    FirstComponent(path[|u|..], "", piece + rest);
    ComponentsOfPiece(piece, rest);
  }

  /** Each cut takes off one component more. */
  lemma {:induction false} CutOffCounts(path: string, k: nat)
    requires Cut(path, k).Some?
    ensures |CutOff(path, k)| == k + 1
    ensures k > 0 ==> |Cut(path, k).value| < |path| && path[|Cut(path, k).value|] == '/'
  {
    if k == 0 {
      assert path[|path|..] == "";
    } else {
      CutOffCounts(path, k - 1);
      CutApart(path, Cut(path, k - 1).value, Cut(path, k).value);
    }
  }

  /** Below a root other than the file system's, a path is accepted exactly if the existing
      ancestor that is reached is inside. What is cut off is never looked at: wherever its
      links may lead, the path stays inside exactly if none of it is a link and it never leads
      above the root. */
  lemma ContainedIff(resolve: Resolver, isLink: string -> bool, root: string, path: string, limit: Option<nat>,
                     rootNames: seq<Name>, k: nat, names: seq<Name>)
    requires rootNames != [] && resolve(root) == Some(Render(rootNames))
    requires Reaches(resolve, path, k, Render(names)) && (limit.Some? ==> k <= limit.value)
    ensures Accepts(resolve, root, path, limit) <==> rootNames <= names
    ensures Accepts(resolve, root, path, limit) ==>
              (StaysWherever(isLink, path, k, rootNames, names) <==>
               NoLinkCut(isLink, path, k) && NeverAbove(|names| - |rootNames|, CutOff(path, k)))
  {
    ReachedOnce(resolve, root, path, limit, k, Render(names));
    InsideIffPrefix(rootNames, names);
    if rootNames <= names {
      StaysWhereverLinksLead(isLink, path, rootNames, k, names);
    }
  }

  lemma StaysWhereverLinksLead(isLink: string -> bool, path: string, root: seq<Name>, k: nat, from: seq<Name>)
    requires root != [] && root <= from && Cut(path, k).Some?
    ensures StaysWherever(isLink, path, k, root, from) <==>
            NoLinkCut(isLink, path, k) && NeverAbove(|from| - |root|, CutOff(path, k))
  {
    if NoLinkCut(isLink, path, k) {
      StaysWithoutLinks(isLink, path, root, k, from);
    } else {
      SomeLinkLeadsOut(isLink, path, root, k, from);
    }
  }

  /** Links that all lead to the root of the file system. */
  function Away(isLink: string -> bool): (links: Links)
    ensures Agrees(links, isLink)
  {
    (t: string) => if isLink(t) then Some([]) else None
  }

  lemma SomeLinkLeadsOut(isLink: string -> bool, path: string, root: seq<Name>, k: nat, from: seq<Name>)
    requires root != [] && Cut(path, k).Some? && !NoLinkCut(isLink, path, k)
    ensures !StaysWherever(isLink, path, k, root, from)
  {
    var links := Away(isLink);
    var i :| 0 <= i < k && Cut(path, i).Some? && isLink(Cut(path, i).value);
    LinkDecides(links, path, root, k, from, i, []);
    assert Agrees(links, isLink);
  }

  lemma StaysWithoutLinks(isLink: string -> bool, path: string, root: seq<Name>, k: nat, from: seq<Name>)
    requires root != [] && root <= from && Cut(path, k).Some? && NoLinkCut(isLink, path, k)
    ensures StaysWherever(isLink, path, k, root, from) <==> NeverAbove(|from| - |root|, CutOff(path, k))
  {
    forall links: Links | Agrees(links, isLink)
      ensures StaysInside(root, from, CutOff(path, k), LeadsAt(links, path, k)) <==>
              NeverAbove(|from| - |root|, CutOff(path, k))
    {
      InsideWithoutLinks(isLink, links, path, root, k, from);
    }
    assert Agrees(Away(isLink), isLink);
  }

  lemma InsideWithoutLinks(isLink: string -> bool, links: Links, path: string, root: seq<Name>, k: nat, from: seq<Name>)
    requires root != [] && root <= from && Cut(path, k).Some? && Agrees(links, isLink) && NoLinkCut(isLink, path, k)
    ensures StaysInside(root, from, CutOff(path, k), LeadsAt(links, path, k)) <==>
            NeverAbove(|from| - |root|, CutOff(path, k))
  {
    var cs, leads := CutOff(path, k), LeadsAt(links, path, k);
    CutOffCounts(path, k);
    forall i: nat | i < |cs|
      ensures leads(i) == None
    {
    }
    forall j | 0 <= j <= |cs|
      ensures PlaceAt(from, cs, leads, j) == Follow(from, cs[..j])
    {
      WithoutLinks(from, cs, leads, j);
    }
    StaysBelowIff(root, from, cs);
  }

  /** A link at a cut path decides where the path is from there on. */
  lemma LinkDecides(links: Links, path: string, root: seq<Name>, k: nat, from: seq<Name>, i: nat, to: seq<Name>)
    requires i < k && Cut(path, k).Some? && Cut(path, i).Some? && links(Cut(path, i).value) == Some(to)
    ensures |CutOff(path, k)| == k + 1 && PlaceAt(from, CutOff(path, k), LeadsAt(links, path, k), k - i + 1) == to
    ensures !(root <= to) ==> !StaysInside(root, from, CutOff(path, k), LeadsAt(links, path, k))
  {
    CutOffCounts(path, k);
    assert k - (k - i) == i;
    assert LeadsAt(links, path, k)(k - i) == Some(to);
  }

  /** A witness below every root: a link that leads out to something not there yet is accepted,
      and the path is then where the link leads. */
  lemma DanglingLinkLeadsOut(resolve: Resolver, links: Links, root: string, rootNames: seq<Name>, name: Name,
                             path: string, out: seq<Name>)
    requires root != "" && rootNames != [] && resolve(root) == Some(Render(rootNames))
    requires path == root + "/" + name && resolve(path) == None && links(path) == Some(out) && !(rootNames <= out)
    ensures Accepts(resolve, root, path, None) && Cut(path, 1) == Some(root)
    ensures !StaysInside(rootNames, rootNames, CutOff(path, 1), LeadsAt(links, path, 1))
  {
    CutStep(path, 0, path, root, name);
    NothingStep(resolve, path, 0, path);
    assert Reaches(resolve, path, 1, Render(rootNames));
    ReachedOnce(resolve, root, path, None, 1, Render(rootNames));
    InsideIffPrefix(rootNames, rootNames);
    LinkDecides(links, path, rootNames, 1, rootNames, 0, out);
  }

  lemma LeadsOut(resolve: Resolver, root: string, path: string, rootNames: seq<Name>, k: nat)
    requires rootNames != [] && resolve(root) == Some(Render(rootNames)) && k < SYMLOOP_MAX
    requires NothingTo(resolve, path, k) && Cut(path, k + 1) == Some(root) && !NeverAbove(0, CutOff(path, k + 1))
    ensures Accepts(resolve, root, path, Some(SYMLOOP_MAX))
    ensures !StaysBelow(rootNames, rootNames, CutOff(path, k + 1))
  {
    assert Reaches(resolve, path, k + 1, Render(rootNames));
    ReachedOnce(resolve, root, path, Some(SYMLOOP_MAX), k + 1, Render(rootNames));
    InsideIffPrefix(rootNames, rootNames);
    StaysBelowIff(rootNames, rootNames, CutOff(path, k + 1));
  }

  lemma TailLeadsUp(root: string, name: Name, other: Name, missing: string, up: string, back: string, path: string)
    requires root != "" && name != "." && name != ".." && missing == root + "/" + name && up == missing + "/" + ".."
    requires back == up + "/" + ".." && path == back + "/" + other && Cut(path, 4) == Some(root)
    ensures !NeverAbove(0, CutOff(path, 4))
  {
    var t3 := ".." + "/" + other;
    var t2 := ".." + "/" + t3;
    var t1 := name + "/" + t2;
    TailText(root, name, other, missing, up, back, t1, t2, t3);
    CutOffAt(path, 4, root, "" + "/" + t1);
    UpTwice("" + "/" + t1, name, t1, t2, t3, other);
  }

  /** A witness below every root: a missing name, then twice `..`, is accepted and leads out. */
  lemma MissingNameLeadsOut(resolve: Resolver, root: string, rootNames: seq<Name>, name: Name, other: Name,
                            missing: string, up: string, back: string, path: string)
    requires root != "" && rootNames != [] && resolve(root) == Some(Render(rootNames))
    requires name != "." && name != ".." && missing == root + "/" + name && up == missing + "/" + ".."
    requires back == up + "/" + ".." && path == back + "/" + other
    requires resolve(missing) == resolve(up) == resolve(back) == resolve(path) == None
    ensures Accepts(resolve, root, path, Some(SYMLOOP_MAX))
    ensures Cut(path, 4) == Some(root) && !StaysBelow(rootNames, rootNames, CutOff(path, 4))
  {
    FourCuts(path, back, up, missing, root, name, other);
    TailLeadsUp(root, name, other, missing, up, back, path);
    NothingStep(resolve, path, 0, path);
    NothingStep(resolve, path, 1, back);
    NothingStep(resolve, path, 2, up);
    NothingStep(resolve, path, 3, missing);
    LeadsOut(resolve, root, path, rootNames, 3);
  }
}
