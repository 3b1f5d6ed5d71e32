/** The signed baseline manifest: vault_baseline prints it, vault_verify rebuilds the signed
    body, parses it back and compares it with the vault (rust/vault_ops.rs:1091-1336). */
module Baseline {
  import opened Options
  import opened Decimals
  import opened Sequences

  // ---- Lines and fields -----------------------------------------------------------------

  function FirstAt(s: string, c: char): (i: nat)
    ensures i <= |s| && (i < |s| ==> s[i] == c) && forall j :: 0 <= j < i ==> s[j] != c
  {
    if s == "" || s[0] == c then 0 else 1 + FirstAt(s[1..], c)
  }

  function StripReturn(s: string): string { if s != "" && s[|s| - 1] == '\r' then s[..|s| - 1] else s }

  /** str::lines. */
  function Lines(s: string): seq<string>
    decreases |s|
  {
    if s == "" then []
    else
      var i := FirstAt(s, '\n');
      if i == |s| then [s] else [StripReturn(s[..i])] + Lines(s[i + 1..])
  }

  /** Each line with a line break. */
  function Unlines(ls: seq<string>): string {
    if ls == [] then "" else ls[0] + "\n" + Unlines(ls[1..])
  }

  function Join(ls: seq<string>): string {
    if ls == [] then "" else if |ls| == 1 then ls[0] else ls[0] + "\n" + Join(ls[1..])
  }

  function Split(s: string, c: char): seq<string>
    decreases |s|
  {
    var i := FirstAt(s, c);
    if i == |s| then [s] else [s[..i]] + Split(s[i + 1..], c)
  }

  /** char::is_whitespace. */
  predicate IsSpace(c: char) {
    '\t' <= c <= '\r' || c == ' ' || c == '\U{85}' || c == '\U{a0}' || c == '\U{1680}' || '\U{2000}' <= c <= '\U{200a}' ||
    c == '\U{2028}' || c == '\U{2029}' || c == '\U{202f}' || c == '\U{205f}' || c == '\U{3000}'
  }

  /** The 25 white-space characters of Unicode. */
  lemma SpacesAre(c: char)
    ensures IsSpace(c) <==>
            || c in {'\t', '\n', '\U{b}', '\U{c}', '\r', ' ', '\U{85}', '\U{a0}', '\U{1680}'}
            || c in {'\U{2000}', '\U{2001}', '\U{2002}', '\U{2003}', '\U{2004}', '\U{2005}', '\U{2006}', '\U{2007}',
              '\U{2008}', '\U{2009}', '\U{200a}', '\U{2028}', '\U{2029}', '\U{202f}', '\U{205f}', '\U{3000}'}
  {
  }

  function TrimStart(s: string): string { if s != "" && IsSpace(s[0]) then TrimStart(s[1..]) else s }
  function TrimEnd(s: string): string { if s != "" && IsSpace(s[|s| - 1]) then TrimEnd(s[..|s| - 1]) else s }
  function Trim(s: string): string { TrimEnd(TrimStart(s)) }

  /** A string that is one line, and stays so when lines are taken apart. */
  predicate IsLine(s: string) { '\n' !in s && (s == "" || s[|s| - 1] != '\r') }

  lemma FirstAtEnd(a: string, c: char, b: string)
    requires c !in a
    ensures FirstAt(a + [c] + b, c) == |a|
  {
    var s := a + [c] + b;
    assert s[|a|] == c && forall j :: 0 <= j < |a| ==> s[j] == a[j] != c;
  }

  /** Lines come back as they were. */
  lemma {:induction false} LinesOfUnlines(ls: seq<string>)
    requires forall l :: l in ls ==> IsLine(l)
    ensures Lines(Unlines(ls)) == ls
  {
    if ls != [] {
      assert ls[0] in ls;
      var rest := Unlines(ls[1..]);
      var s := ls[0] + ['\n'] + rest;
      assert Unlines(ls) == s;
      FirstAtEnd(ls[0], '\n', rest);
      assert s[..|ls[0]|] == ls[0] && s[|ls[0]| + 1..] == rest;
      assert StripReturn(ls[0]) == ls[0];
      LinesOfUnlines(ls[1..]);
      assert [ls[0]] + ls[1..] == ls;
    }
  }

  lemma {:induction false} UnlinesConcat(a: seq<string>, b: seq<string>)
    ensures Unlines(a + b) == Unlines(a) + Unlines(b)
  {
    if a == [] {
      assert a + b == b;
    } else {
      assert (a + b)[1..] == a[1..] + b;
      UnlinesConcat(a[1..], b);
    }
  }

  lemma {:induction false} JoinIsUnlines(ls: seq<string>)
    requires ls != []
    ensures Join(ls) + "\n" == Unlines(ls)
  {
    if |ls| > 1 {
      JoinIsUnlines(ls[1..]);
      assert ls[0] + "\n" + Join(ls[1..]) + "\n" == ls[0] + "\n" + (Join(ls[1..]) + "\n");
    } else {
      assert Unlines(ls[1..]) == "";
    }
  }

  lemma SplitOff(a: string, c: char, b: string)
    requires c !in a
    ensures Split(a + [c] + b, c) == [a] + Split(b, c)
  {
    var s := a + [c] + b;
    FirstAtEnd(a, c, b);
    assert s[..|a|] == a && s[|a| + 1..] == b;
  }

  lemma SplitNone(a: string, c: char)
    requires c !in a
    ensures Split(a, c) == [a]
  {
    assert FirstAt(a, c) == |a|;
  }

  lemma {:induction false} SplitInTwo(s: string, c: char)
    ensures Split(s, c) != [] && (c in s <==> |Split(s, c)| >= 2)
  {
    assert c in s <==> FirstAt(s, c) < |s|;
  }

  /** The last part is what comes after the last `c`. */
  lemma {:induction false} SplitLast(s: string, c: char)
    ensures Split(s, c) != []
    ensures var l := Split(s, c)[|Split(s, c)| - 1];
            c !in l && |l| <= |s| && s[|s| - |l|..] == l
    decreases |s|
  {
    var i := FirstAt(s, c);
    if i < |s| {
      SplitLast(s[i + 1..], c);
      var l := Split(s, c)[|Split(s, c)| - 1];
      assert s[|s| - |l|..] == s[i + 1..][|s[i + 1..]| - |l|..];
    } else {
      assert c !in s && s[0..] == s;
    }
  }

  /** Trimming an end takes off white space and nothing else. */
  lemma {:induction false} TrimEndIs(s: string)
    ensures TrimEnd(s) <= s && (TrimEnd(s) == "" || !IsSpace(TrimEnd(s)[|TrimEnd(s)| - 1]))
    ensures TrimEnd(s) == s <==> s == "" || !IsSpace(s[|s| - 1])
    ensures forall c :: c in s && c !in TrimEnd(s) ==> IsSpace(c)
    decreases |s|
  {
    if s != "" && IsSpace(s[|s| - 1]) {
      TrimEndIs(s[..|s| - 1]);
      assert s == s[..|s| - 1] + [s[|s| - 1]];
    }
  }

  lemma {:induction false} TrimEndConcat(a: string, b: string)
    requires a != "" && !IsSpace(a[|a| - 1])
    ensures TrimEnd(a + b) == a + TrimEnd(b)
    decreases |b|
  {
    if b != "" && IsSpace(b[|b| - 1]) {
      assert (a + b)[..|a + b| - 1] == a + b[..|b| - 1];
      TrimEndConcat(a, b[..|b| - 1]);
    } else if b == "" {
      assert a + b == a;
    }
  }

  lemma {:induction false} TrimStartIs(s: string)
    ensures |TrimStart(s)| <= |s| && TrimStart(s) == s[|s| - |TrimStart(s)|..]
  {
    if s != "" && IsSpace(s[0]) {
      TrimStartIs(s[1..]);
      assert s[1..][|s[1..]| - |TrimStart(s)|..] == s[|s| - |TrimStart(s)|..];
    }
  }

  lemma TrimNothing(s: string)
    requires s != "" && !IsSpace(s[0]) && !IsSpace(s[|s| - 1])
    ensures Trim(s) == s
  {
  }

  // ---- The manifest ---------------------------------------------------------------------

  datatype Entry = Entry(path: string, size: nat, hash: string)

  const SIG: string := "# HMAC_SIG="
  const TITLE: string := "# NUK4SD VAULT BASELINE MANIFEST"
  const CREATED_AT: string := "# CREATED_AT="
  const TOTAL_FILES: string := "# TOTAL_FILES="
  const FORMAT: string := "# FORMAT: SHA256|SIZE|PATH"

  predicate IsHex(s: string) { s != "" && forall i :: 0 <= i < |s| ==> '0' <= s[i] <= '9' || 'a' <= s[i] <= 'f' }

  /** A path that survives being printed between '|' and the end of a line. */
  predicate Survives(path: string) {
    '\n' !in path && '|' !in path && (path == "" || (path[0] != '/' && !IsSpace(path[|path| - 1])))
  }

  function EntryLine(e: Entry): string { e.hash + "|" + (Decimal(e.size) + "|" + e.path) }

  function EntryLines(es: seq<Entry>): seq<string> { seq(|es|, i requires 0 <= i < |es| => EntryLine(es[i])) }

  function Header(created: string, total: nat): seq<string> {
    [TITLE, CREATED_AT + created, TOTAL_FILES + Decimal(total), FORMAT, ""]
  }

  function BodyOf(created: string, es: seq<Entry>): seq<string> { Header(created, |es|) + EntryLines(es) }

  /** What vault_baseline writes: the body and its signature. */
  function Content(hmac: string -> string, created: string, es: seq<Entry>): string {
    var body := Unlines(BodyOf(created, es));
    body + (SIG + hmac(body) + "\n")
  }

  predicate IsSig(line: string) { SIG <= line }

  /** The signature of the last line that has one. */
  function SigOf(ls: seq<string>): Option<string> {
    if ls == [] then None
    else
      var last := ls[|ls| - 1];
      if IsSig(last) then Some(Trim(last[|SIG|..])) else SigOf(ls[..|ls| - 1])
  }

  function Unsigned(ls: seq<string>): seq<string> {
    if ls == [] then []
    else Unsigned(ls[..|ls| - 1]) + if IsSig(ls[|ls| - 1]) then [] else [ls[|ls| - 1]]
  }

  /** The body that verification signs. */
  function Rebuilt(ls: seq<string>): string {
    var joined := Join(Unsigned(ls));
    if joined == "" then "" else joined + "\n"
  }

  predicate AllDigits(s: string) { s != "" && forall i :: 0 <= i < |s| ==> '0' <= s[i] <= '9' }

  /** parse::<u64>().unwrap_or(0). */
  function ParseSize(s: string): nat {
    var digits := if s != "" && s[0] == '+' then s[1..] else s;
    if AllDigits(digits) && Value(digits) < 0x1_0000_0000_0000_0000 then Value(digits) else 0
  }

  /** The entry a line stands for, if any. */
  function ParseLine(line: string): Option<Entry> {
    var t := Trim(line);
    if t == "" || t[0] == '#' then None
    else
      var parts := Split(t, '|');
      if |parts| != 3 then None
      else if parts[2] != "" && parts[2][0] == '/' then None
      else Some(Entry(parts[2], ParseSize(parts[1]), parts[0]))
  }

  type Manifest = map<string, Entry>

  function ParseLines(ls: seq<string>): Manifest {
    if ls == [] then map[]
    else
      var front := ParseLines(ls[..|ls| - 1]);
      match ParseLine(ls[|ls| - 1])
      case None => front
      case Some(e) => front[e.path := e]
  }

  /** An entry as vault_baseline makes it, whatever its path. */
  predicate IsMade(e: Entry) { IsHex(e.hash) && e.size < 0x1_0000_0000_0000_0000 }

  predicate IsPrintable(e: Entry) { IsMade(e) && Survives(e.path) }

  lemma EntryIsLine(e: Entry)
    requires IsPrintable(e)
    ensures IsLine(EntryLine(e)) && !IsSig(EntryLine(e))
  {
    var tail := Decimal(e.size) + "|" + e.path;
    assert EntryLine(e) == e.hash + "|" + tail;
    assert EntryLine(e)[0] == e.hash[0];
    assert '\n' !in Decimal(e.size) && '\n' !in e.hash;
  }

  lemma SplitPipe(a: string, b: string)
    requires '|' !in a
    ensures Split(a + "|" + b, '|') == [a] + Split(b, '|')
  {
    assert "|" == ['|'];
    SplitOff(a, '|', b);
  }

  lemma SizeRoundTrip(n: nat)
    requires n < 0x1_0000_0000_0000_0000
    ensures ParseSize(Decimal(n)) == n
  {
    ValueOfDecimal(n);
  }

  /** Only the end of the path can be trimmed. */
  lemma TrimOfLine(e: Entry)
    requires IsMade(e)
    ensures Trim(EntryLine(e)) == EntryLine(e.(path := TrimEnd(e.path)))
    ensures Trim(EntryLine(e)) != "" && Trim(EntryLine(e))[0] == e.hash[0]
  {
    var start := e.hash + "|" + Decimal(e.size) + "|";
    assert EntryLine(e) == start + e.path && EntryLine(e)[0] == e.hash[0];
    TrimEndConcat(start, e.path);
    assert start + TrimEnd(e.path) == EntryLine(e.(path := TrimEnd(e.path)));
  }

  lemma FieldsOfLine(e: Entry)
    requires IsMade(e)
    ensures Split(EntryLine(e), '|') == [e.hash, Decimal(e.size)] + Split(e.path, '|')
  {
    assert '|' !in e.hash && '|' !in Decimal(e.size);
    SplitPipe(e.hash, Decimal(e.size) + "|" + e.path);
    SplitPipe(Decimal(e.size), e.path);
  }

  lemma PathTrim(path: string)
    ensures '|' in TrimEnd(path) <==> '|' in path
    ensures TrimEnd(path) != "" && TrimEnd(path)[0] == '/' <==> path != "" && path[0] == '/'
  {
    TrimEndIs(path);
    assert path != "" && TrimEnd(path) == "" ==> path[0] in path && path[0] !in TrimEnd(path);
  }

  lemma ParseFields(line: string, a: string, b: string, rest: seq<string>)
    requires Trim(line) != "" && Trim(line)[0] != '#' && Split(Trim(line), '|') == [a, b] + rest
    ensures ParseLine(line) ==
            if |rest| != 1 || (rest[0] != "" && rest[0][0] == '/') then None else Some(Entry(rest[0], ParseSize(b), a))
  {
  }

  /** What a printed line parses to, for every path: nothing if the path has a '|' or starts
      with a '/', and otherwise the entry with the white space off the end of its path. */
  lemma LineParsesExactly(e: Entry)
    requires IsMade(e)
    ensures ParseLine(EntryLine(e)) ==
            if '|' in e.path || (e.path != "" && e.path[0] == '/') then None
            else Some(e.(path := TrimEnd(e.path)))
  {
    var path := TrimEnd(e.path);
    TrimOfLine(e);
    FieldsOfLine(e.(path := path));
    ParseFields(EntryLine(e), e.hash, Decimal(e.size), Split(path, '|'));
    PathTrim(e.path);
    SizeRoundTrip(e.size);
    SplitInTwo(path, '|');
    if '|' !in path {
      SplitNone(path, '|');
    }
  }

  /** An entry comes back as it was exactly if its path has no '|', no leading '/' and no
      white space at its end. */
  lemma LineRoundTrip(e: Entry)
    requires IsMade(e)
    ensures ParseLine(EntryLine(e)) == Some(e) <==>
            '|' !in e.path && (e.path == "" || (e.path[0] != '/' && !IsSpace(e.path[|e.path| - 1])))
  {
    LineParsesExactly(e);
    TrimEndIs(e.path);
  }

  /** No other path comes out of a line. */
  lemma ParsedSurvives(line: string)
    requires '\n' !in line && ParseLine(line).Some?
    ensures Survives(ParseLine(line).value.path)
  {
    var path := ParseLine(line).value.path;
    TrimStartIs(line);
    TrimEndIs(TrimStart(line));
    SplitLast(Trim(line), '|');
    assert path == Trim(line)[|Trim(line)| - |path|..];
    assert path != "" ==> path[|path| - 1] == Trim(line)[|Trim(line)| - 1];
  }

  // ---- The whole manifest ---------------------------------------------------------------

  /** No line is taken for the signature or broken in two. */
  lemma BodyIsClean(created: string, es: seq<Entry>)
    requires IsLine(created) && forall i :: 0 <= i < |es| ==> IsPrintable(es[i])
    ensures forall l :: l in BodyOf(created, es) ==> IsLine(l) && !IsSig(l)
  {
    forall l | l in EntryLines(es)
      ensures IsLine(l) && !IsSig(l)
    {
      var i :| 0 <= i < |es| && l == EntryLine(es[i]);
      EntryIsLine(es[i]);
    }
    HeaderIsClean(created, |es|);
  }

  /** A line that is read past: neither broken, nor a signature, nor an entry. */
  predicate IsComment(l: string) { IsLine(l) && !IsSig(l) && ParseLine(l) == None }

  predicate StartsComment(s: string) { |s| >= 3 && s[0] == '#' && s[2] != SIG[2] && IsLine(s) }

  lemma TitleStarts()
    ensures StartsComment(TITLE)
  {
  }

  lemma CreatedStarts()
    ensures StartsComment(CREATED_AT)
  {
  }

  lemma TotalStarts()
    ensures StartsComment(TOTAL_FILES)
  {
  }

  lemma FormatStarts()
    ensures StartsComment(FORMAT)
  {
  }

  lemma CommentIsPassed(start: string, rest: string)
    requires StartsComment(start) && IsLine(rest)
    ensures IsComment(start + rest)
  {
    var l := start + rest;
    assert l[2] == start[2];
    StartSurvivesTrim(l);
  }

  lemma DecimalHasIsLine(n: nat)
    ensures IsLine(Decimal(n))
  {
  }

  lemma EmptyLineIsPassed()
    ensures IsComment("")
  {
  }

  lemma HeaderIsClean(created: string, total: nat)
    requires IsLine(created)
    ensures forall l :: l in Header(created, total) ==> IsComment(l)
  {
    TitleStarts();
    CreatedStarts();
    TotalStarts();
    FormatStarts();
    CommentIsPassed(TITLE, "");
    CommentIsPassed(CREATED_AT, created);
    DecimalHasIsLine(total);
    CommentIsPassed(TOTAL_FILES, Decimal(total));
    CommentIsPassed(FORMAT, "");
    EmptyLineIsPassed();
    FiveLines(TITLE, CREATED_AT + created, TOTAL_FILES + Decimal(total), FORMAT, "");
  }

  lemma FiveLines(a: string, b: string, c: string, d: string, e: string)
    requires IsComment(a + "") && IsComment(b) && IsComment(c) && IsComment(d + "") && IsComment(e)
    ensures forall l :: l in [a, b, c, d, e] ==> IsComment(l)
  {
    assert a + "" == a && d + "" == d;
  }

  lemma StartSurvivesTrim(s: string)
    requires s != "" && !IsSpace(s[0])
    ensures Trim(s) != "" && Trim(s)[0] == s[0]
  {
    EndTrim(s);
  }

  lemma {:induction false} EndTrim(s: string)
    requires s != "" && !IsSpace(s[0])
    ensures TrimEnd(s) != "" && TrimEnd(s)[0] == s[0]
    decreases |s|
  {
    if IsSpace(s[|s| - 1]) {
      EndTrim(s[..|s| - 1]);
    }
  }

  lemma {:induction false} UnsignedOfClean(ls: seq<string>)
    requires forall l :: l in ls ==> !IsSig(l)
    ensures Unsigned(ls) == ls
  {
    if ls != [] {
      UnsignedOfClean(ls[..|ls| - 1]);
      assert ls == ls[..|ls| - 1] + [ls[|ls| - 1]];
    }
  }

  lemma SigIsTrim(sig: string)
    requires IsHex(sig)
    ensures IsSig(SIG + sig) && Trim((SIG + sig)[|SIG|..]) == sig && IsLine(SIG + sig)
  {
    assert (SIG + sig)[|SIG|..] == sig;
    TrimNothing(sig);
  }

  lemma SignedLines(body: seq<string>, sig: string)
    requires IsHex(sig) && forall l :: l in body ==> IsLine(l)
    ensures Lines(Unlines(body) + (SIG + sig + "\n")) == body + [SIG + sig]
  {
    var last := SIG + sig;
    SigIsTrim(sig);
    UnlinesConcat(body, [last]);
    assert Unlines([last]) == last + "\n" by {
      assert Unlines([last][1..]) == "";
    }
    LinesOfUnlines(body + [last]);
  }

  lemma SignatureComesOff(body: seq<string>, last: string)
    requires IsSig(last) && Unsigned(body) == body
    ensures Unsigned(body + [last]) == body && SigOf(body + [last]) == Some(Trim(last[|SIG|..]))
  {
    assert (body + [last])[..|body|] == body;
  }

  lemma SignedBody(body: seq<string>, sig: string)
    requires body != [] && body[0] != "" && IsHex(sig) && forall l :: l in body ==> !IsSig(l)
    ensures Rebuilt(body + [SIG + sig]) == Unlines(body) && SigOf(body + [SIG + sig]) == Some(sig)
  {
    SigIsTrim(sig);
    UnsignedOfClean(body);
    SignatureComesOff(body, SIG + sig);
    JoinIsUnlines(body);
    JoinNotEmpty(body);
  }

  lemma JoinNotEmpty(ls: seq<string>)
    requires ls != [] && ls[0] != ""
    ensures Join(ls) != ""
  {
  }

  /** Verification sees the lines of the body, then the signature, and signs the very body that
      was signed. */
  lemma BodyIsRebuilt(hmac: string -> string, created: string, es: seq<Entry>)
    requires IsLine(created) && forall i :: 0 <= i < |es| ==> IsPrintable(es[i])
    requires IsHex(hmac(Unlines(BodyOf(created, es))))
    ensures var body := BodyOf(created, es);
            var ls := Lines(Content(hmac, created, es));
            ls == body + [SIG + hmac(Unlines(body))] && Rebuilt(ls) == Unlines(body) && SigOf(ls) == Some(hmac(Unlines(body)))
  {
    var body := BodyOf(created, es);
    BodyIsClean(created, es);
    assert body[0] == Header(created, |es|)[0] != "";
    SignedLines(body, hmac(Unlines(body)));
    SignedBody(body, hmac(Unlines(body)));
  }

  lemma {:induction false} NoEntriesInHeader(ls: seq<string>, more: seq<string>)
    requires forall l :: l in ls ==> ParseLine(l) == None
    ensures ParseLines(ls + more) == ParseLines(more)
  {
    if more == [] {
      assert ls + more == ls;
      if ls != [] {
        NoEntriesInHeader(ls[..|ls| - 1], []);
        assert ls[..|ls| - 1] + [] == ls[..|ls| - 1];
      }
    } else {
      assert (ls + more)[..|ls + more| - 1] == ls + more[..|more| - 1];
      NoEntriesInHeader(ls, more[..|more| - 1]);
    }
  }

  function ByPath(es: seq<Entry>): Manifest {
    if es == [] then map[] else ByPath(es[..|es| - 1])[es[|es| - 1].path := es[|es| - 1]]
  }

  lemma {:induction false} EntriesParse(es: seq<Entry>)
    requires forall i :: 0 <= i < |es| ==> IsPrintable(es[i])
    ensures ParseLines(EntryLines(es)) == ByPath(es)
  {
    if es != [] {
      EntriesParse(es[..|es| - 1]);
      assert EntryLines(es)[..|es| - 1] == EntryLines(es[..|es| - 1]);
      LineRoundTrip(es[|es| - 1]);
    }
  }

  lemma OnlyTheMiddle(start: seq<string>, middle: seq<string>, last: string)
    requires (forall l :: l in start ==> ParseLine(l) == None) && ParseLine(last) == None
    ensures ParseLines(start + middle + [last]) == ParseLines(middle)
  {
    assert (start + middle + [last])[..|start + middle|] == start + middle;
    NoEntriesInHeader(start, middle);
  }

  lemma SigIsNoEntry(sig: string)
    ensures ParseLine(SIG + sig) == None
  {
    assert (SIG + sig)[0] == '#';
    StartSurvivesTrim(SIG + sig);
  }

  lemma SignedParses(header: seq<string>, es: seq<Entry>, sig: string)
    requires (forall l :: l in header ==> IsComment(l)) && forall i :: 0 <= i < |es| ==> IsPrintable(es[i])
    ensures ParseLines(header + EntryLines(es) + [SIG + sig]) == ByPath(es)
  {
    SigIsNoEntry(sig);
    OnlyTheMiddle(header, EntryLines(es), SIG + sig);
    EntriesParse(es);
  }

  /** The printed manifest parses back to the entries it was printed from. */
  lemma ManifestRoundTrip(hmac: string -> string, created: string, es: seq<Entry>)
    requires IsLine(created) && forall i :: 0 <= i < |es| ==> IsPrintable(es[i])
    requires IsHex(hmac(Unlines(BodyOf(created, es))))
    ensures ParseLines(Lines(Content(hmac, created, es))) == ByPath(es)
  {
    BodyIsRebuilt(hmac, created, es);
    HeaderIsClean(created, |es|);
    SignedParses(Header(created, |es|), es, hmac(Unlines(BodyOf(created, es))));
  }

  lemma {:induction false} LinesAreUnbroken(s: string)
    ensures forall l :: l in Lines(s) ==> '\n' !in l
    decreases |s|
  {
    if s != "" && FirstAt(s, '\n') < |s| {
      LinesAreUnbroken(s[FirstAt(s, '\n') + 1..]);
    }
  }

  /** The paths of any manifest. */
  lemma {:induction false} KeysSurvive(ls: seq<string>)
    requires forall l :: l in ls ==> '\n' !in l
    ensures forall p :: p in ParseLines(ls) ==> Survives(p)
  {
    if ls != [] {
      KeysSurvive(ls[..|ls| - 1]);
      var line := ls[|ls| - 1];
      if ParseLine(line).Some? {
        ParsedSurvives(line);
      }
    }
  }

  // ---- What the signature covers --------------------------------------------------------

  lemma {:induction false} SplitOfUnlines(ls: seq<string>)
    requires forall l :: l in ls ==> '\n' !in l
    ensures Split(Unlines(ls), '\n') == ls + [""]
  {
    if ls != [] {
      assert ls[0] in ls;
      assert Unlines(ls) == ls[0] + ['\n'] + Unlines(ls[1..]);
      SplitOff(ls[0], '\n', Unlines(ls[1..]));
      SplitOfUnlines(ls[1..]);
    }
  }

  lemma SignatureIsNoEntry(line: string)
    requires IsSig(line)
    ensures ParseLine(line) == None
  {
    assert line == SIG + line[|SIG|..];
    SigIsNoEntry(line[|SIG|..]);
  }

  lemma ParseOneMore(front: seq<string>, last: string)
    ensures ParseLines(front + [last]) ==
            var e := ParseLine(last); if e == None then ParseLines(front) else ParseLines(front)[e.value.path := e.value]
  {
    assert (front + [last])[..|front|] == front;
  }

  lemma {:induction false} SignaturesAreNoEntries(ls: seq<string>)
    ensures ParseLines(Unsigned(ls)) == ParseLines(ls)
  {
    if ls != [] {
      var front, last := ls[..|ls| - 1], ls[|ls| - 1];
      SignaturesAreNoEntries(front);
      assert ls == front + [last];
      ParseOneMore(front, last);
      if IsSig(last) {
        SignatureIsNoEntry(last);
        assert Unsigned(front) + [] == Unsigned(front);
      } else {
        ParseOneMore(Unsigned(front), last);
      }
    }
  }

  lemma {:induction false} UnsignedAreLines(ls: seq<string>)
    ensures forall l :: l in Unsigned(ls) <==> l in ls && !IsSig(l)
  {
    if ls != [] {
      UnsignedAreLines(ls[..|ls| - 1]);
      assert ls == ls[..|ls| - 1] + [ls[|ls| - 1]];
    }
  }

  /** The manifest is read off the body that the signature is computed of. */
  lemma BodyIsTheManifest(ls: seq<string>)
    requires forall l :: l in ls ==> '\n' !in l
    ensures ParseLines(ls) == ParseLines(Split(Rebuilt(ls), '\n'))
  {
    var body := Unsigned(ls);
    SignaturesAreNoEntries(ls);
    UnsignedAreLines(ls);
    EmptyLineIsPassed();
    assert [""][..0] == [];
    if Join(body) == "" {
      assert body == [] || body == [""];
    } else {
      JoinIsUnlines(body);
      SplitOfUnlines(body);
      assert (body + [""])[..|body|] == body;
    }
  }

  /** Two manifests with the same signed body hold the same entries, wherever their signatures
      stand: what is added behind a signature is signed, too. */
  lemma SignatureCoversManifest(a: string, b: string)
    requires Rebuilt(Lines(a)) == Rebuilt(Lines(b))
    ensures ParseLines(Lines(a)) == ParseLines(Lines(b))
  {
    LinesAreUnbroken(a);
    LinesAreUnbroken(b);
    BodyIsTheManifest(Lines(a));
    BodyIsTheManifest(Lines(b));
  }

  /** The signature that counts is that of the last line that has one. */
  lemma {:induction false} LastSignatureCounts(ls: seq<string>)
    ensures SigOf(ls) == None <==> forall i :: 0 <= i < |ls| ==> !("# HMAC_SIG=" <= ls[i])
    ensures forall i :: 0 <= i < |ls| && "# HMAC_SIG=" <= ls[i] && (forall j :: i < j < |ls| ==> !("# HMAC_SIG=" <= ls[j])) ==>
              SigOf(ls) == Some(Trim(ls[i][11..]))
  {
    if ls != [] && !IsSig(ls[|ls| - 1]) {
      LastSignatureCounts(ls[..|ls| - 1]);
    }
  }

  /** The lines of a printed manifest. */
  lemma ManifestText(hmac: string -> string, created: string, es: seq<Entry>)
    requires IsLine(created) && forall i :: 0 <= i < |es| ==> IsPrintable(es[i])
    requires IsHex(hmac(Unlines(BodyOf(created, es))))
    ensures var ls, n := Lines(Content(hmac, created, es)), |es|;
            && |ls| == n + 6
            && ls[..5] == ["# NUK4SD VAULT BASELINE MANIFEST", "# CREATED_AT=" + created, "# TOTAL_FILES=" + Decimal(n),
                           "# FORMAT: SHA256|SIZE|PATH", ""]
            && (forall i :: 0 <= i < n ==> ls[5 + i] == es[i].hash + "|" + (Decimal(es[i].size) + "|" + es[i].path))
            && ls[n + 5] == "# HMAC_SIG=" + hmac(Unlines(ls[..n + 5]))
  {
    BodyIsRebuilt(hmac, created, es);
    var ls := Lines(Content(hmac, created, es));
    assert ls[..|es| + 5] == BodyOf(created, es);
  }

  // ---- Verification ---------------------------------------------------------------------

  /** A piece of a path on disk: a character, or bytes that are not UTF-8. */
  datatype Piece = Chr(c: char) | Junk(bytes: seq<bv8>)

  /** A path below the vault's root as the file system has it. */
  type Path = seq<Piece>

  function Shown(piece: Piece): char {
    match piece
    case Chr(c) => if c == '\\' then '/' else c
    case Junk(_) => '\U{fffd}'
  }

  /** How both walks print a path: decoded as far as it goes, backslashes turned. */
  function Printed(p: Path): (s: string)
    ensures |s| == |p|
  {
    seq(|p|, i requires 0 <= i < |p| => Shown(p[i]))
  }

  /** The path that a printed one names when it is looked up. */
  function Named(s: string): (p: Path)
    ensures |p| == |s|
  {
    seq(|s|, i requires 0 <= i < |s| => Chr(s[i]))
  }

  predicate IsPlain(p: Path) { forall i :: 0 <= i < |p| ==> p[i].Chr? && p[i].c != '\\' }

  /** A printed path names the path it was printed from exactly if that one is plain. */
  lemma PlainIff(p: Path)
    ensures Named(Printed(p)) == p <==> IsPlain(p)
    ensures forall i :: 0 <= i < |p| && !(p[i].Chr? && p[i].c != '\\') ==>
              Printed(p)[i] == if p[i].Junk? then '\U{fffd}' else '/'
  {
    forall i | 0 <= i < |p|
      ensures Named(Printed(p))[i] == p[i] <==> p[i].Chr? && p[i].c != '\\'
    {
    }
    if Named(Printed(p)) == p {
      forall i | 0 <= i < |p|
        ensures p[i].Chr? && p[i].c != '\\'
      {
        assert Named(Printed(p))[i] == p[i];
      }
    }
  }

  /** What is found when a path is looked up, links followed. */
  datatype Look = Missing | Escapes | NotRegular | Regular(hash: string)

  /** The vault as verification sees it: the regular files of its walk with their hashes, and
      what a look at a path shows. */
  datatype View = View(files: map<Path, string>, look: Path -> Look)

  datatype Verdict = NoSignature | WrongSignature | Counted(matched: nat, modified: nat, missing: nat, untracked: nat)

  predicate Passes(v: Verdict) { v.Counted? && v.modified == 0 && v.missing == 0 && v.untracked == 0 }

  ghost predicate Signed(hmac: string -> string, ls: seq<string>) { SigOf(ls) == Some(hmac(Rebuilt(ls))) }

  ghost predicate Matches(m: Manifest, view: View) {
    && (forall s :: s in m ==> view.look(Named(s)) == Regular(m[s].hash))
    && (forall p :: p in view.files ==> Printed(p) in m)
  }

  ghost predicate Enumerates<T(!new)>(keys: seq<T>, all: set<T>) {
    Distinct(keys) && forall p :: p in keys <==> p in all
  }

  /** The loop over the lines that separates the signature from the body, lines 1172-1190. */
  method SplitSignature(ls: seq<string>) returns (expected: Option<string>, body: string)
    ensures expected == SigOf(ls) && body == Rebuilt(ls)
  {
    expected := None;
    var bodyLines: seq<string> := [];
    for i := 0 to |ls|
      invariant expected == SigOf(ls[..i]) && bodyLines == Unsigned(ls[..i])
    {
      assert ls[..i + 1][..i] == ls[..i];
      if SIG <= ls[i] {
        expected := Some(Trim(ls[i][|SIG|..]));
      } else {
        bodyLines := bodyLines + [ls[i]];
      }
    }
    assert ls[..|ls|] == ls;
    body := Join(bodyLines);
    if body != "" {
      body := body + "\n";
    }
  }

  /** The loop that parses the entries, lines 1195-1221. */
  method ParseManifest(ls: seq<string>) returns (m: Manifest)
    ensures m == ParseLines(ls)
  {
    m := map[];
    for i := 0 to |ls|
      invariant m == ParseLines(ls[..i])
    {
      assert ls[..i + 1][..i] == ls[..i];
      var e := ParseLine(ls[i]);
      if e.Some? {
        m := m[e.value.path := e.value];
      }
    }
    assert ls[..|ls|] == ls;
  }

  function IsFound(m: Manifest, view: View): string -> bool {
    s => s in m && view.look(Named(s)) == Regular(m[s].hash)
  }

  function IsMissing(view: View): string -> bool { s => view.look(Named(s)) == Missing }

  /** Entries found with their hash, entries found otherwise, and entries not found. */
  ghost predicate AreCounts(m: Manifest, view: View, matched: nat, modified: nat, missing: nat) {
    && matched == |set s | s in m && view.look(Named(s)) == Regular(m[s].hash)|
    && missing == |set s | s in m && view.look(Named(s)) == Missing|
    && matched + modified + missing == |m|
  }

  lemma CountsAreSizes(m: Manifest, keys: seq<string>, view: View)
    requires Enumerates(keys, m.Keys)
    ensures CountIf(keys, IsFound(m, view)) == |set s | s in m && view.look(Named(s)) == Regular(m[s].hash)|
    ensures CountIf(keys, IsMissing(view)) == |set s | s in m && view.look(Named(s)) == Missing|
    ensures |keys| == |m|
  {
    CountIsSize(keys, IsFound(m, view), set s | s in m && view.look(Named(s)) == Regular(m[s].hash));
    CountIsSize(keys, IsMissing(view), set s | s in m && view.look(Named(s)) == Missing);
    KeysAreCounted(m, keys);
  }

  lemma KeysAreCounted(m: Manifest, keys: seq<string>)
    requires Enumerates(keys, m.Keys)
    ensures |keys| == |m|
  {
    DistinctCount(keys);
    assert (set s | s in keys) == m.Keys;
  }

  /** The loop over the manifest, lines 1231-1278. */
  method CheckEntries(m: Manifest, keys: seq<string>, view: View) returns (matched: nat, modified: nat, missing: nat)
    requires Enumerates(keys, m.Keys)
    ensures AreCounts(m, view, matched, modified, missing)
    ensures modified == 0 && missing == 0 <==> forall s :: s in m ==> view.look(Named(s)) == Regular(m[s].hash)
  {
    matched, modified, missing := 0, 0, 0;
    for i := 0 to |keys|
      invariant matched + modified + missing == i
      invariant matched == CountIf(keys[..i], IsFound(m, view)) && missing == CountIf(keys[..i], IsMissing(view))
    {
      CountStep(keys, i, IsFound(m, view));
      CountStep(keys, i, IsMissing(view));
      assert keys[i] in keys;
      match view.look(Named(keys[i]))
      case Escapes => modified := modified + 1;
      case NotRegular => modified := modified + 1;
      case Missing => missing := missing + 1;
      case Regular(hash) =>
        if hash == m[keys[i]].hash {
          matched := matched + 1;
        } else {
          modified := modified + 1;
        }
    }
    assert keys[..|keys|] == keys;
    CountAll(keys, IsFound(m, view));
    CountsAreSizes(m, keys, view);
  }

  function IsUntracked(m: Manifest): Path -> bool { p => Printed(p) !in m }

  /** The walk for files that are not in the manifest, lines 1284-1312. */
  method CountUntracked(m: Manifest, found: seq<Path>) returns (untracked: nat)
    ensures untracked == CountIf(found, IsUntracked(m))
    ensures Distinct(found) ==> untracked == |set p | p in found && Printed(p) !in m|
    ensures untracked == 0 <==> forall p :: p in found ==> Printed(p) in m
  {
    untracked := 0;
    for i := 0 to |found|
      invariant untracked == CountIf(found[..i], IsUntracked(m))
    {
      CountStep(found, i, IsUntracked(m));
      if Printed(found[i]) !in m {
        untracked := untracked + 1;
      }
    }
    assert found[..|found|] == found;
    CountZero(found, IsUntracked(m));
    if Distinct(found) {
      CountIsSize(found, IsUntracked(m), set p | p in found && Printed(p) !in m);
    }
  }

  lemma UntrackedAre(m: Manifest, found: seq<Path>, view: View)
    requires Enumerates(found, view.files.Keys)
    ensures (set p | p in found && Printed(p) !in m) == set p | p in view.files && Printed(p) !in m
    ensures (forall p :: p in found ==> Printed(p) in m) <==> forall p :: p in view.files ==> Printed(p) in m
  {
  }

  /** vault_verify of an existing manifest: it passes exactly if the signature is that of the
      body, every entry is found with its hash, and no file is without an entry. */
  method Verify(hmac: string -> string, content: string, keys: seq<string>, view: View, found: seq<Path>)
    returns (v: Verdict)
    requires Enumerates(keys, ParseLines(Lines(content)).Keys) && Enumerates(found, view.files.Keys)
    ensures Passes(v) <==> Signed(hmac, Lines(content)) && Matches(ParseLines(Lines(content)), view)
    ensures v == NoSignature <==> forall i :: 0 <= i < |Lines(content)| ==> !("# HMAC_SIG=" <= Lines(content)[i])
    ensures v.Counted? <==> Signed(hmac, Lines(content))
    ensures v.Counted? ==>
              && AreCounts(ParseLines(Lines(content)), view, v.matched, v.modified, v.missing)
              && v.untracked == |set p | p in view.files && Printed(p) !in ParseLines(Lines(content))|
  {
    var ls := Lines(content);
    var expected, body := SplitSignature(ls);
    LastSignatureCounts(ls);
    if expected == None {
      return NoSignature;
    }
    if hmac(body) != expected.value {
      return WrongSignature;
    }
    var m := ParseManifest(ls);
    var matched, modified, missing := CheckEntries(m, keys, view);
    var untracked := CountUntracked(m, found);
    UntrackedAre(m, found, view);
    v := Counted(matched, modified, missing, untracked);
  }

  // ---- Baseline, then verification ------------------------------------------------------

  /** The walk's files are found where they are. */
  ghost predicate Consistent(view: View) {
    forall p :: p in view.files ==> view.look(p) == Regular(view.files[p])
  }

  /** Nothing but a file of the walk looks like a regular file: there are no links to files. */
  ghost predicate NoLinks(view: View, paths: set<Path>) {
    forall p :: p in paths && view.look(p).Regular? ==> p in view.files
  }

  /** The entries of a baseline of these files, in whatever order they were walked and sorted. */
  ghost predicate IsBaseline(es: seq<Entry>, walk: seq<Path>, files: map<Path, string>) {
    && Enumerates(walk, files.Keys) && |es| == |walk|
    && forall i :: 0 <= i < |es| ==>
         IsMade(es[i]) && es[i].path == Printed(walk[i]) && walk[i] in files && es[i].hash == files[walk[i]]
  }

  lemma {:induction false} ByPathFinds(es: seq<Entry>, p: string)
    ensures p in ByPath(es) <==> exists i :: 0 <= i < |es| && es[i].path == p
    ensures p in ByPath(es) ==> exists i :: 0 <= i < |es| && es[i].path == p && ByPath(es)[p] == es[i]
  {
    if es != [] {
      var k := |es| - 1;
      ByPathFinds(es[..k], p);
      if p in ByPath(es) {
        if es[k].path != p {
          var i :| 0 <= i < k && es[..k][i].path == p && ByPath(es[..k])[p] == es[..k][i];
          assert es[i].path == p && ByPath(es)[p] == es[i];
        }
      }
      if i :| 0 <= i < |es| && es[i].path == p {
        assert i < k ==> es[..k][i].path == p;
      }
    }
  }

  /** The manifest has the printed paths of the files and no others. */
  lemma BaselinePaths(es: seq<Entry>, walk: seq<Path>, files: map<Path, string>)
    requires IsBaseline(es, walk, files)
    ensures forall p :: p in files ==> Printed(p) in ByPath(es)
    ensures forall s :: s in ByPath(es) ==> exists p :: p in files && Printed(p) == s && files[p] == ByPath(es)[s].hash
  {
    forall p | p in files
      ensures Printed(p) in ByPath(es)
    {
      assert p in walk;
      var i :| 0 <= i < |walk| && walk[i] == p;
      ByPathFinds(es, Printed(p));
    }
    forall s | s in ByPath(es)
      ensures exists p :: p in files && Printed(p) == s && files[p] == ByPath(es)[s].hash
    {
      ByPathFinds(es, s);
      var i :| 0 <= i < |es| && es[i].path == s && ByPath(es)[s] == es[i];
      assert walk[i] in files && Printed(walk[i]) == s;
    }
  }

  /** Looking up the printed path of a file finds a regular file with the hash that is recorded
      for that printed path. */
  ghost predicate Finds(view: View, es: seq<Entry>, p: Path) {
    Printed(p) in ByPath(es) && view.look(Named(Printed(p))) == Regular(ByPath(es)[Printed(p)].hash)
  }

  ghost predicate AllFound(view: View, es: seq<Entry>, files: map<Path, string>) {
    forall p :: p in files ==> Finds(view, es, p)
  }

  ghost predicate PrintsLikeOne(files: map<Path, string>, p: Path) { exists q :: q in files && Printed(q) == Printed(p) }

  ghost predicate NoStranger(files: map<Path, string>, now: map<Path, string>) {
    forall p :: p in now ==> PrintsLikeOne(files, p)
  }

  ghost predicate AllPlain(files: map<Path, string>) { forall p :: p in files ==> IsPlain(p) }

  ghost predicate AllSurvive(files: map<Path, string>) { forall p :: p in files ==> Survives(Printed(p)) }

  lemma StrangersAreUntracked(es: seq<Entry>, walk: seq<Path>, files: map<Path, string>, now: map<Path, string>)
    requires IsBaseline(es, walk, files)
    ensures NoStranger(files, now) <==> forall p :: p in now ==> Printed(p) in ByPath(es)
  {
    BaselinePaths(es, walk, files);
    forall p | p in now
      ensures Printed(p) in ByPath(es) <==> PrintsLikeOne(files, p)
    {
    }
  }

  lemma FoundIsLookedUp(es: seq<Entry>, walk: seq<Path>, files: map<Path, string>, view: View)
    requires IsBaseline(es, walk, files)
    ensures AllFound(view, es, files) <==> forall s :: s in ByPath(es) ==> view.look(Named(s)) == Regular(ByPath(es)[s].hash)
  {
    BaselinePaths(es, walk, files);
    if AllFound(view, es, files) {
      forall s | s in ByPath(es)
        ensures view.look(Named(s)) == Regular(ByPath(es)[s].hash)
      {
        var p :| p in files && Printed(p) == s && files[p] == ByPath(es)[s].hash;
        assert Finds(view, es, p);
      }
    }
  }

  lemma MatchesBaseline(es: seq<Entry>, walk: seq<Path>, files: map<Path, string>, view: View)
    requires IsBaseline(es, walk, files)
    ensures Matches(ByPath(es), view) <==> AllFound(view, es, files) && NoStranger(files, view.files)
  {
    StrangersAreUntracked(es, walk, files, view.files);
    FoundIsLookedUp(es, walk, files, view);
  }

  lemma ContentParses(hmac: string -> string, created: string, es: seq<Entry>, walk: seq<Path>, files: map<Path, string>)
    requires IsBaseline(es, walk, files) && IsLine(created) && AllSurvive(files)
    requires IsHex(hmac(Unlines(BodyOf(created, es))))
    ensures Signed(hmac, Lines(Content(hmac, created, es))) && ParseLines(Lines(Content(hmac, created, es))) == ByPath(es)
  {
    BodyIsRebuilt(hmac, created, es);
    ManifestRoundTrip(hmac, created, es);
  }

  /** What verification against a baseline comes to, if all paths survive being printed: the
      look at every printed path finds what is recorded for it, and every file of the walk
      prints like one that was there. */
  lemma VerifiesIff(hmac: string -> string, created: string, es: seq<Entry>, walk: seq<Path>,
                    files: map<Path, string>, view: View)
    requires IsBaseline(es, walk, files) && IsLine(created) && AllSurvive(files)
    requires IsHex(hmac(Unlines(BodyOf(created, es))))
    ensures var ls := Lines(Content(hmac, created, es));
            Signed(hmac, ls) &&
            (Matches(ParseLines(ls), view) <==> AllFound(view, es, files) && NoStranger(files, view.files))
  {
    ContentParses(hmac, created, es, walk, files);
    MatchesBaseline(es, walk, files, view);
  }

  ghost predicate AllKept(files: map<Path, string>, now: map<Path, string>) {
    forall p :: p in files ==> p in now && now[p] == files[p]
  }

  lemma PlainFinds(es: seq<Entry>, walk: seq<Path>, files: map<Path, string>, view: View, p: Path)
    requires IsBaseline(es, walk, files) && p in files && AllPlain(files)
    ensures Finds(view, es, p) <==> view.look(p) == Regular(files[p])
  {
    BaselinePaths(es, walk, files);
    PlainIff(p);
    var q :| q in files && Printed(q) == Printed(p) && files[q] == ByPath(es)[Printed(p)].hash;
    PlainIff(q);
  }

  lemma AllFoundIff(es: seq<Entry>, walk: seq<Path>, files: map<Path, string>, view: View)
    requires IsBaseline(es, walk, files) && AllPlain(files) && Consistent(view) && NoLinks(view, files.Keys)
    ensures AllFound(view, es, files) <==> AllKept(files, view.files)
  {
    forall p | p in files
      ensures Finds(view, es, p) <==> p in view.files && view.files[p] == files[p]
    {
      PlainFinds(es, walk, files, view, p);
    }
  }

  lemma PlainTwin(files: map<Path, string>, p: Path)
    requires AllPlain(files) && IsPlain(p)
    ensures PrintsLikeOne(files, p) <==> p in files
  {
    if PrintsLikeOne(files, p) {
      var q :| q in files && Printed(q) == Printed(p);
      PlainIff(p);
      PlainIff(q);
    }
  }

  lemma NoPlainStranger(files: map<Path, string>, now: map<Path, string>)
    requires AllPlain(files) && AllPlain(now)
    ensures NoStranger(files, now) <==> forall p :: p in now ==> p in files
  {
    forall p | p in now
      ensures PrintsLikeOne(files, p) <==> p in files
    {
      PlainTwin(files, p);
    }
  }

  lemma KeptBothWays(files: map<Path, string>, now: map<Path, string>)
    ensures AllKept(files, now) && (forall p :: p in now ==> p in files) <==> now == files
  {
  }

  lemma MatchesIffSame(es: seq<Entry>, walk: seq<Path>, files: map<Path, string>, view: View)
    requires IsBaseline(es, walk, files) && AllPlain(files) && Consistent(view) && NoLinks(view, files.Keys)
    ensures Matches(ByPath(es), view) <==> AllKept(files, view.files) && NoStranger(files, view.files)
    ensures AllPlain(view.files) ==> (Matches(ByPath(es), view) <==> view.files == files)
  {
    MatchesBaseline(es, walk, files, view);
    AllFoundIff(es, walk, files, view);
    if AllPlain(view.files) {
      NoPlainStranger(files, view.files);
      KeptBothWays(files, view.files);
    }
  }

  /** A vault with plain names verifies against its baseline exactly if its files are there with
      their hashes, and no file is there that does not print like one of them. So if no name
      has a backslash or is not UTF-8, then or now, it verifies exactly if paths and hashes are
      what they were, in both directions. */
  lemma VerifiesIffUnchanged(hmac: string -> string, created: string, es: seq<Entry>, walk: seq<Path>,
                             files: map<Path, string>, view: View)
    requires IsBaseline(es, walk, files) && IsLine(created) && AllPlain(files) && AllSurvive(files)
    requires IsHex(hmac(Unlines(BodyOf(created, es))))
    requires Consistent(view) && NoLinks(view, files.Keys)
    ensures var ls := Lines(Content(hmac, created, es));
            && Signed(hmac, ls)
            && (Matches(ParseLines(ls), view) <==> AllKept(files, view.files) && NoStranger(files, view.files))
    ensures AllPlain(view.files) ==>
              (Matches(ParseLines(Lines(Content(hmac, created, es))), view) <==> view.files == files)
  {
    ContentParses(hmac, created, es, walk, files);
    MatchesIffSame(es, walk, files, view);
  }

  lemma OnlySurvivorsMatch(content: string, view: View)
    requires Matches(ParseLines(Lines(content)), view)
    ensures AllSurvive(view.files)
  {
    LinesAreUnbroken(content);
    KeysSurvive(Lines(content));
  }

  /** A vault that has not changed passes against its own baseline exactly if every path
      survives being printed, and the look at the printed path finds the hash recorded for it. */
  lemma OwnBaselinePasses(hmac: string -> string, created: string, es: seq<Entry>, walk: seq<Path>, view: View)
    requires IsBaseline(es, walk, view.files) && IsLine(created) && IsHex(hmac(Unlines(BodyOf(created, es))))
    ensures var ls := Lines(Content(hmac, created, es));
            Signed(hmac, ls) && Matches(ParseLines(ls), view) <==> AllSurvive(view.files) && AllFound(view, es, view.files)
  {
    var content := Content(hmac, created, es);
    if Matches(ParseLines(Lines(content)), view) {
      OnlySurvivorsMatch(content, view);
    }
    if AllSurvive(view.files) {
      VerifiesIff(hmac, created, es, walk, view.files, view);
    }
  }

  /** With plain names that is: exactly if every path survives being printed. */
  lemma OwnPlainBaselinePasses(hmac: string -> string, created: string, es: seq<Entry>, walk: seq<Path>, view: View)
    requires IsBaseline(es, walk, view.files) && IsLine(created) && IsHex(hmac(Unlines(BodyOf(created, es))))
    requires Consistent(view) && AllPlain(view.files)
    ensures var ls := Lines(Content(hmac, created, es));
            Signed(hmac, ls) && Matches(ParseLines(ls), view) <==> AllSurvive(view.files)
  {
    OwnBaselinePasses(hmac, created, es, walk, view);
    forall p | p in view.files
      ensures Finds(view, es, p)
    {
      PlainFinds(es, walk, view.files, view, p);
    }
  }

  /** A witness: a vault whose only file has a name that is not plain, like `a\b`, never passes
      against its own baseline. */
  lemma OnlyFileIsMissing(hmac: string -> string, created: string, e: Entry, p: Path)
    requires !IsPlain(p) && IsMade(e) && e.path == Printed(p) && IsLine(created)
    requires IsHex(hmac(Unlines(BodyOf(created, [e]))))
    ensures var view := View(map[p := e.hash], q => if q == p then Regular(e.hash) else Missing);
            var ls := Lines(Content(hmac, created, [e]));
            Consistent(view) && !(Signed(hmac, ls) && Matches(ParseLines(ls), view))
    ensures !IsPlain(Named("a\\b")) && Survives(Printed(Named("a\\b")))
  {
    var view := View(map[p := e.hash], q => if q == p then Regular(e.hash) else Missing);
    assert Enumerates([p], view.files.Keys) by {
      assert p in [p];
    }
    OwnBaselinePasses(hmac, created, [e], [p], view);
    PlainIff(p);
    assert p in view.files && !Finds(view, [e], p);
    assert Printed(Named("a\\b")) == "a/b" && Named("a\\b")[1] == Chr('\\');
  }

  /** Two files and nothing else. */
  function TwoFiles(p: Path, hash: string, q: Path, other: string): View {
    View(map[p := hash, q := other], r => if r == q then Regular(other) else if r == p then Regular(hash) else Missing)
  }

  /** A witness: beside a plain file, another one that prints like it may hold anything. */
  lemma TwinGoesUnnoticed(plain: Path, twin: Path, es: seq<Entry>, hash: string, was: string, now: string)
    requires IsPlain(plain) && twin != plain && Printed(twin) == Printed(plain)
    requires IsBaseline(es, [twin, plain], map[plain := hash, twin := was])
    ensures Consistent(TwoFiles(plain, hash, twin, now)) && Matches(ByPath(es), TwoFiles(plain, hash, twin, now))
  {
    PlainIff(plain);
    assert es[..1][..0] == [] && es[..2] == es;
    assert ByPath(es) == ByPath(es[..1])[es[1].path := es[1]];
    assert ByPath(es[..1]) == map[][es[0].path := es[0]];
    assert ByPath(es) == map[Printed(plain) := es[1]];
  }

  /** The recorded size is not compared. */
  lemma SizeGoesUnnoticed(m: Manifest, s: string, size: nat, view: View)
    requires s in m
    ensures Matches(m[s := m[s].(size := size)], view) <==> Matches(m, view)
  {
    var other := m[s := m[s].(size := size)];
    assert forall t :: t in m <==> t in other;
    assert forall t :: t in m ==> m[t].hash == other[t].hash;
  }

  /** A file replaced by a link to a file with the same content goes unnoticed. */
  lemma LinkGoesUnnoticed(p: Path, e: Entry)
    requires IsPlain(p) && e.path == Printed(p)
    ensures var view := View(map[], q => if q == p then Regular(e.hash) else Missing);
            Matches(map[e.path := e], view) && view.files != map[p := e.hash]
  {
    PlainIff(p);
    assert p in map[p := e.hash];
  }
}
