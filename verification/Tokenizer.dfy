/** The REPL's tokenizer: a line-continuation pass, then a quote-aware scan
    (rust/repl.rs:111-162). */
module Tokenizer {

  // ---- The continuation pass ------------------------------------------------------------

  predicate IsBlank(c: char) { c == ' ' || c == '\t' }
  predicate IsBreak(c: char) { c == '\n' || c == '\r' }

  /** The first place from `j` on that holds no blank. */
  function AfterBlanks(s: string, j: nat): (k: nat)
    requires j <= |s|
    ensures j <= k <= |s| && (forall i :: j <= i < k ==> IsBlank(s[i])) && (k < |s| ==> !IsBlank(s[k]))
    decreases |s| - j
  {
    if j < |s| && IsBlank(s[j]) then AfterBlanks(s, j + 1) else j
  }

  /** Where the continuation that starts at `i` ends; `i` itself if none does: a backslash,
      blanks and a line break. */
  function ContinuationEnd(s: string, i: nat): (k: nat)
    requires i < |s|
    ensures i <= k <= |s|
  {
    if s[i] != '\\' then i
    else
      var j := AfterBlanks(s, i + 1);
      if j == |s| || !IsBreak(s[j]) then i
      else if s[j] == '\r' && j + 1 < |s| && s[j + 1] == '\n' then j + 2
      else j + 1
  }

  /** The text from `i` on with every continuation turned into a space. */
  function Normalize(s: string, i: nat): string
    requires i <= |s|
    decreases |s| - i
  {
    if i == |s| then ""
    else
      var k := ContinuationEnd(s, i);
      if k > i then " " + Normalize(s, k) else [s[i]] + Normalize(s, i + 1)
  }

  // ---- The scan -------------------------------------------------------------------------

  datatype State = State(tokens: seq<string>, current: string, inSingle: bool, inDouble: bool)

  const START := State([], "", false, false)

  function Push(st: State): State {
    if st.current == "" then st else st.(tokens := st.tokens + [st.current], current := "")
  }

  function StepChar(st: State, c: char): State {
    if c == '\'' && !st.inDouble then st.(inSingle := !st.inSingle)
    else if c == '"' && !st.inSingle then st.(inDouble := !st.inDouble)
    else if (IsBlank(c) || IsBreak(c)) && !st.inSingle && !st.inDouble then Push(st)
    else st.(current := st.current + [c])
  }

  function Scan(st: State, s: string): State
    decreases |s|
  {
    if s == "" then st else Scan(StepChar(st, s[0]), s[1..])
  }

  function Tokens(s: string): seq<string> { Push(Scan(START, Normalize(s, 0))).tokens }

  /** The first loop, lines 118-138. */
  method Normalized(input: string) returns (normalized: string)
    ensures normalized == Normalize(input, 0)
  {
    normalized := "";
    var i := 0;
    while i < |input|
      invariant i <= |input|
      invariant Normalize(input, 0) == normalized + Normalize(input, i)
    {
      ghost var was := normalized;
      var k := PassContinuation(input, i);
      if k > i {
        normalized := normalized + " ";
        assert was + (" " + Normalize(input, k)) == normalized + Normalize(input, k);
        i := k;
      } else {
        normalized := normalized + [input[i]];
        assert was + ([input[i]] + Normalize(input, i + 1)) == normalized + Normalize(input, i + 1);
        i := i + 1;
      }
    }
  }

  /** Lines 122-135: what follows a backslash. */
  method PassContinuation(s: string, i: nat) returns (k: nat)
    requires i < |s|
    ensures k == ContinuationEnd(s, i)
  {
    if s[i] == '\\' {
      var j := i + 1;
      while j < |s| && (s[j] == ' ' || s[j] == '\t')
        invariant i < j <= |s| && AfterBlanks(s, i + 1) == AfterBlanks(s, j)
      {
        j := j + 1;
      }
      if j < |s| && (s[j] == '\n' || s[j] == '\r') {
        if s[j] == '\r' && j + 1 < |s| && s[j + 1] == '\n' {
          j := j + 1;
        }
        return j + 1;
      }
    }
    return i;
  }

  /** The second loop, lines 140-162. */
  method Scanned(normalized: string) returns (tokens: seq<string>)
    ensures tokens == Push(Scan(START, normalized)).tokens
  {
    var current, inSingle, inDouble := "", false, false;
    tokens := [];
    assert normalized[0..] == normalized;
    for k := 0 to |normalized|
      invariant Scan(START, normalized) == Scan(State(tokens, current, inSingle, inDouble), normalized[k..])
    {
      var ch := normalized[k];
      assert normalized[k..][1..] == normalized[k + 1..];
      if ch == '\'' && !inDouble {
        inSingle := !inSingle;
      } else if ch == '"' && !inSingle {
        inDouble := !inDouble;
      } else if (ch == ' ' || ch == '\t' || ch == '\n' || ch == '\r') && !inSingle && !inDouble {
        if current != "" {
          tokens := tokens + [current];
          current := "";
        }
      } else {
        current := current + [ch];
      }
    }
    if current != "" {
      tokens := tokens + [current];
    }
  }

  method Tokenize(input: string) returns (tokens: seq<string>)
    ensures tokens == Tokens(input)
    ensures NoneEmpty(tokens)
  {
    var normalized := Normalized(input);
    tokens := Scanned(normalized);
    TokensAreNonEmpty(input);
  }

  /** Every backslash has something other than white space behind it. */
  predicate Safe(s: string) {
    forall i :: 0 <= i < |s| && s[i] == '\\' ==> i + 1 < |s| && !IsBlank(s[i + 1]) && !IsBreak(s[i + 1])
  }

  // ---- No empty tokens ------------------------------------------------------------------

  predicate NoneEmpty(ts: seq<string>) { forall i :: 0 <= i < |ts| ==> ts[i] != "" }

  lemma {:induction false} ScanKeepsNonEmpty(st: State, s: string)
    requires NoneEmpty(st.tokens)
    ensures NoneEmpty(Scan(st, s).tokens)
    decreases |s|
  {
    if s != "" {
      ScanKeepsNonEmpty(StepChar(st, s[0]), s[1..]);
    }
  }

  lemma TokensAreNonEmpty(s: string)
    ensures NoneEmpty(Tokens(s))
  {
    ScanKeepsNonEmpty(START, Normalize(s, 0));
  }

  // ---- Printing tokens so that they read back -------------------------------------------

  /** Each character in quotes of its own. */
  function QuoteChar(c: char): string { if c == '\'' then "\"'\"" else ['\'', c, '\''] }

  function Quote(t: string): string {
    if t == "" then "" else Quote(t[..|t| - 1]) + QuoteChar(t[|t| - 1])
  }

  function Print(ts: seq<string>): string {
    if ts == [] then ""
    else if |ts| == 1 then Quote(ts[0])
    else Print(ts[..|ts| - 1]) + " " + Quote(ts[|ts| - 1])
  }

  function NonEmpty(ts: seq<string>): seq<string> {
    if ts == [] then []
    else NonEmpty(ts[..|ts| - 1]) + if ts[|ts| - 1] == "" then [] else [ts[|ts| - 1]]
  }

  lemma {:induction false} ScanConcat(st: State, a: string, b: string)
    ensures Scan(st, a + b) == Scan(Scan(st, a), b)
    decreases |a|
  {
    if a == "" {
      assert a + b == b;
    } else {
      assert (a + b)[1..] == a[1..] + b;
      ScanConcat(StepChar(st, a[0]), a[1..], b);
    }
  }

  lemma ScanOne(st: State, x: char)
    ensures Scan(st, [x]) == StepChar(st, x)
  {
    assert [x][1..] == "";
  }

  lemma ScanThree(st: State, x: char, y: char, z: char)
    ensures Scan(st, [x, y, z]) == StepChar(StepChar(StepChar(st, x), y), z)
  {
    assert [x, y, z] == [x] + [y] + [z];
    ScanConcat(st, [x] + [y], [z]);
    ScanConcat(st, [x], [y]);
    ScanOne(st, x);
    ScanOne(StepChar(st, x), y);
    ScanOne(StepChar(StepChar(st, x), y), z);
  }

  lemma ScanQuotedChar(st: State, c: char)
    requires !st.inSingle && !st.inDouble
    ensures Scan(st, QuoteChar(c)) == st.(current := st.current + [c])
  {
    var q := QuoteChar(c);
    assert q == [q[0], q[1], q[2]];
    ScanThree(st, q[0], q[1], q[2]);
  }

  lemma {:induction false} ScanQuoted(st: State, t: string)
    requires !st.inSingle && !st.inDouble
    ensures Scan(st, Quote(t)) == st.(current := st.current + t)
  {
    if t == "" {
      assert st.current + t == st.current;
    } else {
      var k := |t| - 1;
      ScanConcat(st, Quote(t[..k]), QuoteChar(t[k]));
      ScanQuoted(st, t[..k]);
      ScanQuotedChar(Scan(st, Quote(t[..k])), t[k]);
      assert st.current + t[..k] + [t[k]] == st.current + t;
    }
  }

  lemma {:induction false} ScanPrinted(ts: seq<string>)
    ensures !Scan(START, Print(ts)).inSingle && !Scan(START, Print(ts)).inDouble
    ensures Push(Scan(START, Print(ts))) == State(NonEmpty(ts), "", false, false)
  {
    if |ts| == 1 {
      ScanQuoted(START, ts[0]);
      assert "" + ts[0] == ts[0];
      assert NonEmpty(ts[..0]) == [];
    } else if ts != [] {
      var k := |ts| - 1;
      ScanPrinted(ts[..k]);
      ScanAfterSpace(Print(ts[..k]), ts[k]);
    }
  }

  lemma ScanAfterSpace(s: string, t: string)
    requires !Scan(START, s).inSingle && !Scan(START, s).inDouble
    ensures Scan(START, s + " " + Quote(t)) == Push(Scan(START, s)).(current := t)
  {
    ScanConcat(START, s + " ", Quote(t));
    ScanConcat(START, s, " ");
    ScanOne(Scan(START, s), ' ');
    ScanQuoted(Push(Scan(START, s)), t);
    assert "" + t == t;
  }

  // ---- Continuations --------------------------------------------------------------------

  /** No backslash from `i` on has only blanks between itself and a line break. */
  ghost predicate NoContinuation(s: string, i: nat) {
    forall b, k :: i <= b < k < |s| && s[b] == '\\' && (s[k] == '\n' || s[k] == '\r') ==>
      exists j :: b < j < k && s[j] != ' ' && s[j] != '\t'
  }

  lemma ContinuationHere(s: string, i: nat)
    requires i < |s|
    ensures NoContinuation(s, i) ==> ContinuationEnd(s, i) == i
    ensures ContinuationEnd(s, i) == i && NoContinuation(s, i + 1) ==> NoContinuation(s, i)
  {
    var j := AfterBlanks(s, i + 1);
    if ContinuationEnd(s, i) == i && s[i] == '\\' {
      forall k | i < k < |s| && (s[k] == '\n' || s[k] == '\r')
        ensures exists m :: i < m < k && s[m] != ' ' && s[m] != '\t'
      {
        assert j < k;
      }
    }
  }

  /** The pass leaves a text as it is exactly if it has no continuation, and otherwise makes it
      shorter. */
  lemma {:induction false} NormalIff(s: string, i: nat)
    requires i <= |s|
    ensures |Normalize(s, i)| <= |s| - i
    ensures Normalize(s, i) == s[i..] <==> NoContinuation(s, i)
    ensures Normalize(s, i) == s[i..] <==> |Normalize(s, i)| == |s| - i
    decreases |s| - i
  {
    if i < |s| {
      ContinuationHere(s, i);
      var k := ContinuationEnd(s, i);
      if k > i {
        NormalIff(s, k);
      } else {
        NormalIff(s, i + 1);
        assert s[i..] == [s[i]] + s[i + 1..];
        assert Normalize(s, i)[1..] == Normalize(s, i + 1);
      }
    }
  }

  lemma {:induction false} BlanksShift(a: string, b: string, j: nat)
    requires j <= |b|
    ensures AfterBlanks(a + b, |a| + j) == |a| + AfterBlanks(b, j)
    decreases |b| - j
  {
    if j < |b| {
      BlanksShift(a, b, j + 1);
    }
  }

  lemma ContinuationShift(a: string, b: string, j: nat)
    requires j < |b|
    ensures ContinuationEnd(a + b, |a| + j) == |a| + ContinuationEnd(b, j)
  {
    BlanksShift(a, b, j + 1);
  }

  lemma SameStep(s: string, i: nat, b: string, j: nat)
    requires i < |s| && j < |b| && s[i] == b[j] && ContinuationEnd(s, i) - i == ContinuationEnd(b, j) - j
    requires var k, m := ContinuationEnd(s, i), ContinuationEnd(b, j);
             Normalize(s, if k > i then k else i + 1) == Normalize(b, if m > j then m else j + 1)
    ensures Normalize(s, i) == Normalize(b, j)
  {
  }

  /** What is in front does not matter. */
  lemma {:induction false} NormalizeShift(a: string, b: string, j: nat)
    requires j <= |b|
    ensures Normalize(a + b, |a| + j) == Normalize(b, j)
    decreases |b| - j
  {
    if j < |b| {
      ContinuationShift(a, b, j);
      var k := ContinuationEnd(b, j);
      NormalizeShift(a, b, if k > j then k else j + 1);
      SameStep(a + b, |a| + j, b, j);
    }
  }

  /** Text whose every backslash has something other than white space behind it stays. */
  lemma {:induction false} SafeFront(a: string, b: string, i: nat)
    requires Safe(a) && i <= |a|
    ensures Normalize(a + b, i) == a[i..] + Normalize(b, 0)
    decreases |a| - i
  {
    if i == |a| {
      NormalizeShift(a, b, 0);
    } else {
      assert ContinuationEnd(a + b, i) == i;
      SafeFront(a, b, i + 1);
    }
  }

  lemma {:induction false} BlanksEnd(s: string, j: nat, k: nat)
    requires j <= k < |s| && !IsBlank(s[k]) && forall i :: j <= i < k ==> IsBlank(s[i])
    ensures AfterBlanks(s, j) == k
    decreases k - j
  {
    if j < k {
      BlanksEnd(s, j + 1, k);
    }
  }

  lemma FrontStays(a: string, b: string, rest: string)
    requires Safe(a) && Normalize(b, 0) == rest
    ensures Normalize(a + b, 0) == a + rest
  {
    SafeFront(a, b, 0);
    assert a[0..] == a;
  }

  lemma ContinuationFirst(blanks: string, line: string, b: string)
    requires forall i :: 0 <= i < |blanks| ==> IsBlank(blanks[i])
    requires line == "\n" || line == "\r\n" || (line == "\r" && (b == "" || b[0] != '\n'))
    ensures Normalize("\\" + blanks + line + b, 0) == " " + Normalize(b, 0)
  {
    var front := "\\" + blanks + line;
    var s := front + b;
    assert forall i :: 1 <= i < 1 + |blanks| ==> s[i] == blanks[i - 1];
    assert s[1 + |blanks|] == line[0];
    BlanksEnd(s, 1, 1 + |blanks|);
    assert |line| == 2 ==> s[2 + |blanks|] == line[1];
    assert |line| == 1 && b != "" ==> s[2 + |blanks|] == b[0];
    assert ContinuationEnd(s, 0) == |front|;
    NormalizeShift(front, b, 0);
  }

  lemma SpaceFirst(b: string)
    ensures Normalize(" " + b, 0) == " " + Normalize(b, 0)
  {
    assert ContinuationEnd(" " + b, 0) == 0;
    NormalizeShift(" ", b, 0);
  }

  /** A backslash, blanks and a line break of any kind count as one space. */
  lemma ContinuationIsSpace(a: string, blanks: string, line: string, b: string)
    requires Safe(a) && forall i :: 0 <= i < |blanks| ==> blanks[i] == ' ' || blanks[i] == '\t'
    requires line == "\n" || line == "\r\n" || (line == "\r" && (b == "" || b[0] != '\n'))
    ensures Normalize(a + ("\\" + blanks + line + b), 0) == a + (" " + Normalize(b, 0))
    ensures Tokens(a + ("\\" + blanks + line + b)) == Tokens(a + (" " + b))
  {
    ContinuationFirst(blanks, line, b);
    SpaceFirst(b);
    FrontStays(a, "\\" + blanks + line + b, " " + Normalize(b, 0));
    FrontStays(a, " " + b, " " + Normalize(b, 0));
  }

  // ---- What the tokens are --------------------------------------------------------------

  /** A word is written in pieces, each bare or in quotes of either kind. */
  datatype Piece = Bare(text: string) | Single(text: string) | Double(text: string)

  predicate Separates(c: char) { c == ' ' || c == '\t' || c == '\n' || c == '\r' }

  predicate IsPiece(p: Piece) {
    match p
    case Bare(t) => forall i :: 0 <= i < |t| ==> !Separates(t[i]) && t[i] != '\'' && t[i] != '"'
    case Single(t) => '\'' !in t
    case Double(t) => '"' !in t
  }

  function PieceText(p: Piece): string {
    match p
    case Bare(t) => t
    case Single(t) => "'" + t + "'"
    case Double(t) => "\"" + t + "\""
  }

  function WordText(w: seq<Piece>): string {
    if w == [] then "" else WordText(w[..|w| - 1]) + PieceText(w[|w| - 1])
  }

  function Meaning(w: seq<Piece>): string {
    if w == [] then "" else Meaning(w[..|w| - 1]) + w[|w| - 1].text
  }

  function Meanings(ws: seq<seq<Piece>>): (ts: seq<string>)
    ensures |ts| == |ws| && forall i :: 0 <= i < |ws| ==> ts[i] == Meaning(ws[i])
  {
    seq(|ws|, i requires 0 <= i < |ws| => Meaning(ws[i]))
  }

  predicate AreWords(ws: seq<seq<Piece>>) {
    forall i, j :: 0 <= i < |ws| && 0 <= j < |ws[i]| ==> IsPiece(ws[i][j])
  }

  /** What stands before, between and behind the words: any separators, some between two. */
  predicate AreGaps(gaps: seq<string>) {
    && (forall i, j :: 0 <= i < |gaps| && 0 <= j < |gaps[i]| ==> Separates(gaps[i][j]))
    && (forall i :: 0 < i < |gaps| - 1 ==> gaps[i] != "")
  }

  function Line(ws: seq<seq<Piece>>, gaps: seq<string>): string
    requires |gaps| == |ws| + 1
  {
    var n := |ws|;
    if n == 0 then gaps[0] else Line(ws[..n - 1], gaps[..n]) + WordText(ws[n - 1]) + gaps[n]
  }

  function Grown(st: State, t: string): State { st.(current := st.current + t) }

  lemma GrownTwice(st: State, t: string, u: string)
    ensures Grown(Grown(st, t), u) == Grown(st, t + u)
  {
    assert st.current + t + u == st.current + (t + u);
  }

  predicate Unquoted(st: State) { !st.inSingle && !st.inDouble }

  lemma {:induction false} ScanInside(st: State, t: string)
    requires if st.inSingle then '\'' !in t && !st.inDouble else if st.inDouble then '"' !in t else IsPiece(Bare(t))
    ensures Scan(st, t) == st.(current := st.current + t)
    decreases |t|
  {
    if t == "" {
      assert st.current + t == st.current;
    } else {
      assert t[0] in t && forall c :: c in t[1..] ==> c in t;
      ScanInside(StepChar(st, t[0]), t[1..]);
      assert st.current + [t[0]] + t[1..] == st.current + t;
    }
  }

  lemma ScanPiece(st: State, p: Piece)
    requires Unquoted(st) && IsPiece(p)
    ensures Scan(st, PieceText(p)) == Grown(st, p.text)
  {
    if p.Bare? {
      ScanInside(st, p.text);
    } else {
      var q := if p.Single? then "'" else "\"";
      ScanConcat(st, q + p.text, q);
      ScanConcat(st, q, p.text);
      ScanOne(st, q[0]);
      ScanInside(StepChar(st, q[0]), p.text);
      ScanOne(Scan(st, q + p.text), q[0]);
    }
  }

  lemma ScanJoin(st: State, a: string, b: string, end: State)
    requires Scan(Scan(st, a), b) == end
    ensures Scan(st, a + b) == end
  {
    ScanConcat(st, a, b);
  }

  lemma {:induction false} ScanWord(st: State, w: seq<Piece>)
    requires Unquoted(st) && forall j :: 0 <= j < |w| ==> IsPiece(w[j])
    ensures Scan(st, WordText(w)) == Grown(st, Meaning(w))
  {
    if w == [] {
      assert st.current + "" == st.current;
    } else {
      var front, p := w[..|w| - 1], w[|w| - 1];
      ScanWord(st, front);
      ScanPiece(Grown(st, Meaning(front)), p);
      GrownTwice(st, Meaning(front), p.text);
      ScanJoin(st, WordText(front), PieceText(p), Grown(st, Meaning(w)));
    }
  }

  lemma {:induction false} ScanGap(st: State, gap: string)
    requires Unquoted(st) && forall j :: 0 <= j < |gap| ==> Separates(gap[j])
    ensures Scan(st, gap) == if gap == "" then st else Push(st)
    decreases |gap|
  {
    if gap != "" {
      ScanGap(StepChar(st, gap[0]), gap[1..]);
    }
  }

  lemma {:induction false} ScanLine(ws: seq<seq<Piece>>, gaps: seq<string>)
    requires |gaps| == |ws| + 1 && AreWords(ws) && AreGaps(gaps)
    ensures var st := Scan(START, Line(ws, gaps));
            && Unquoted(st) && Push(st) == State(NonEmpty(Meanings(ws)), "", false, false)
            && (ws == [] || gaps[|ws|] != "" ==> st.current == "")
  {
    var n := |ws|;
    if n == 0 {
      ScanGap(START, gaps[0]);
    } else {
      var front, before := Line(ws[..n - 1], gaps[..n]), gaps[..n];
      assert n > 1 ==> before[n - 1] == gaps[n - 1] != "";
      ScanLine(ws[..n - 1], before);
      ScanConcat(START, front + WordText(ws[n - 1]), gaps[n]);
      ScanConcat(START, front, WordText(ws[n - 1]));
      ScanWord(Scan(START, front), ws[n - 1]);
      assert "" + Meaning(ws[n - 1]) == Meaning(ws[n - 1]);
      ScanGap(Scan(START, front + WordText(ws[n - 1])), gaps[n]);
      assert Meanings(ws)[..n - 1] == Meanings(ws[..n - 1]);
    }
  }

  /** The tokens of a line are its words, each with its quotes taken off, whatever pieces it is
      put together from and whatever separates them. */
  lemma TokensOfLine(ws: seq<seq<Piece>>, gaps: seq<string>)
    requires |gaps| == |ws| + 1 && AreWords(ws) && AreGaps(gaps) && NoContinuation(Line(ws, gaps), 0)
    ensures Tokens(Line(ws, gaps)) == NonEmpty(Meanings(ws))
    ensures (forall i :: 0 <= i < |ws| ==> Meaning(ws[i]) != "") ==> Tokens(Line(ws, gaps)) == Meanings(ws)
  {
    NormalIff(Line(ws, gaps), 0);
    assert Line(ws, gaps)[0..] == Line(ws, gaps);
    ScanLine(ws, gaps);
    NonEmptyIsIdentity(Meanings(ws));
  }

  /** A quote that is never closed runs to the end of the line. */
  lemma TokensOfUnclosed(ws: seq<seq<Piece>>, gaps: seq<string>, q: char, t: string)
    requires |gaps| == |ws| + 1 && AreWords(ws) && AreGaps(gaps) && (ws == [] || gaps[|ws|] != "")
    requires (q == '\'' || q == '"') && q !in t && NoContinuation(Line(ws, gaps) + ([q] + t), 0)
    ensures Tokens(Line(ws, gaps) + ([q] + t)) == NonEmpty(Meanings(ws)) + if t == "" then [] else [t]
  {
    var line := Line(ws, gaps);
    NormalIff(line + ([q] + t), 0);
    assert (line + ([q] + t))[0..] == line + ([q] + t);
    ScanLine(ws, gaps);
    ScanConcat(START, line, [q] + t);
    ScanConcat(Scan(START, line), [q], t);
    ScanOne(Scan(START, line), q);
    ScanInside(StepChar(Scan(START, line), q), t);
    assert "" + t == t;
  }

  // ---- Printed text has no continuations ------------------------------------------------

  lemma {:induction false} QuotedIsSafe(t: string)
    ensures Safe(Quote(t))
  {
    if t != "" {
      QuotedIsSafe(t[..|t| - 1]);
    }
  }

  lemma {:induction false} PrintedIsSafe(ts: seq<string>)
    ensures Safe(Print(ts))
  {
    if ts != [] {
      PrintedIsSafe(ts[..|ts| - 1]);
      QuotedIsSafe(ts[|ts| - 1]);
    }
  }

  /** Printed tokens read back, but for the empty ones, whatever characters they hold. */
  lemma PrintReadsBack(ts: seq<string>)
    ensures Tokens(Print(ts)) == NonEmpty(ts)
  {
    PrintedIsSafe(ts);
    SafeFront(Print(ts), "", 0);
    assert Print(ts)[0..] == Print(ts) == Print(ts) + "";
    ScanPrinted(ts);
  }

  lemma {:induction false} NonEmptyIsIdentity(ts: seq<string>)
    ensures |NonEmpty(ts)| <= |ts|
    ensures NonEmpty(ts) == ts <==> NoneEmpty(ts)
  {
    if ts != [] {
      var front := ts[..|ts| - 1];
      NonEmptyIsIdentity(front);
      assert ts == front + [ts[|ts| - 1]];
      if NonEmpty(ts) == ts {
        assert NonEmpty(ts)[..|front|] == front;
      }
    }
  }

  /** They read back as they were exactly if none is empty. */
  lemma RoundTrip(ts: seq<string>)
    ensures Tokens(Print(ts)) == ts <==> NoneEmpty(ts)
  {
    PrintReadsBack(ts);
    NonEmptyIsIdentity(ts);
  }

  /** What was tokenized once survives being printed and tokenized again. */
  lemma PrintIsRightInverse(s: string)
    ensures Tokens(Print(Tokens(s))) == Tokens(s)
  {
    TokensAreNonEmpty(s);
    RoundTrip(Tokens(s));
  }

  /** Quoting a token as a whole does not do: a continuation is dropped inside quotes, too. */
  lemma ContinuationInQuotesIsLost()
    ensures Tokens("'\\\n'") == [" "]
  {
    var s := "'\\\n'";
    assert Normalize(s, 3) == "'" + Normalize(s, 4);
    assert ContinuationEnd(s, 1) == 3;
    assert Normalize(s, 1) == " '";
    assert Normalize(s, 0) == "'" + " '";
    ScanThree(START, '\'', ' ', '\'');
    assert "' '" == ['\'', ' ', '\''];
    assert "" + [' '] == " ";
    assert [] + [" "] == [" "];
  }
}
