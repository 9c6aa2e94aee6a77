/**
 * The tiny shell's command-line parser (parseline).  The line is scanned left to
 * right: delimiters are skipped, `<` and `>` announce that the next token is the
 * input or output file, a token that opens with a single or double quote runs to
 * the matching quote, and any other token runs to the next delimiter.
 *
 * The specification is split in two: Lex cuts the line into lexemes, and Interp
 * feeds them to the redirection state machine.  ParseLine is the scanning loop
 * and is proved to compute Parse.
 */
module ShellParse {
  import opened Opt

  const MAXLINE: nat := 1024
  const MAXARGS: nat := 128

  /** The argument delimiters " \t\r\n". */
  predicate IsDelim(c: char)
  {
    c == ' ' || c == '\t' || c == '\r' || c == '\n'
  }

  predicate IsQuote(c: char)
  {
    c == '\'' || c == '"'
  }

  /** strspn(line + pos, delims): the first index at or after pos that is not a delimiter. */
  function SkipDelims(line: string, pos: nat): (p: nat)
    requires pos <= |line|
    ensures pos <= p <= |line|
    decreases |line| - pos
  {
    if pos < |line| && IsDelim(line[pos]) then SkipDelims(line, pos + 1) else pos
  }

  lemma {:induction false} SkipDelimsSpec(line: string, pos: nat)
    requires pos <= |line|
    ensures forall k :: pos <= k < SkipDelims(line, pos) ==> IsDelim(line[k])
    ensures SkipDelims(line, pos) < |line| ==> !IsDelim(line[SkipDelims(line, pos)])
    decreases |line| - pos
  {
    if pos < |line| && IsDelim(line[pos]) {
      SkipDelimsSpec(line, pos + 1);
    }
  }

  /** buf + strcspn(buf, delims): the first delimiter at or after pos, or the end of the line. */
  function WordEnd(line: string, pos: nat): (e: nat)
    requires pos <= |line|
    ensures pos <= e <= |line|
    decreases |line| - pos
  {
    if pos < |line| && !IsDelim(line[pos]) then WordEnd(line, pos + 1) else pos
  }

  lemma {:induction false} WordEndSpec(line: string, pos: nat)
    requires pos <= |line|
    ensures forall k :: pos <= k < WordEnd(line, pos) ==> !IsDelim(line[k])
    ensures WordEnd(line, pos) < |line| ==> IsDelim(line[WordEnd(line, pos)])
    decreases |line| - pos
  {
    if pos < |line| && !IsDelim(line[pos]) {
      WordEndSpec(line, pos + 1);
    }
  }

  /** A run of non-delimiters ending at a delimiter or the end of the line ends the word. */
  lemma {:induction false} WordEndAt(line: string, pos: nat, e: nat)
    requires pos <= e <= |line|
    requires forall k :: pos <= k < e ==> !IsDelim(line[k])
    requires e < |line| ==> IsDelim(line[e])
    ensures WordEnd(line, pos) == e
    decreases e - pos
  {
    if pos < e {
      WordEndAt(line, pos + 1, e);
    }
  }

  /** strchr(buf, c) for a non-NUL c: the first index at or after pos holding c, if any. */
  function FindChar(line: string, pos: nat, c: char): (r: Option<nat>)
    requires pos <= |line|
    ensures r.Some? ==> pos <= r.value < |line| && line[r.value] == c
    decreases |line| - pos
  {
    if pos == |line| then None
    else if line[pos] == c then Some(pos)
    else FindChar(line, pos + 1, c)
  }

  lemma {:induction false} FindCharSpec(line: string, pos: nat, c: char)
    requires pos <= |line|
    ensures FindChar(line, pos, c).None? <==> forall k :: pos <= k < |line| ==> line[k] != c
    ensures FindChar(line, pos, c).Some? ==>
              forall k :: pos <= k < FindChar(line, pos, c).value ==> line[k] != c
    decreases |line| - pos
  {
    if pos < |line| && line[pos] != c {
      FindCharSpec(line, pos + 1, c);
    }
  }

  /** The first c after a run without c is found where it is. */
  lemma {:induction false} FindCharAt(line: string, pos: nat, c: char, q: nat)
    requires pos <= q < |line| && line[q] == c
    requires forall k :: pos <= k < q ==> line[k] != c
    ensures FindChar(line, pos, c) == Some(q)
    decreases q - pos
  {
    if pos < q {
      FindCharAt(line, pos + 1, c, q);
    }
  }

  /** No c after pos: strchr returns NULL. */
  lemma {:induction false} FindCharNone(line: string, pos: nat, c: char)
    requires pos <= |line|
    requires forall k :: pos <= k < |line| ==> line[k] != c
    ensures FindChar(line, pos, c) == None
    decreases |line| - pos
  {
    if pos < |line| {
      FindCharNone(line, pos + 1, c);
    }
  }

  datatype Lexeme = InRedirect | OutRedirect | Word(text: string) | Unmatched

  /** One lexeme starting at a non-delimiter p, and the index where scanning resumes. */
  datatype Step = Step(lexeme: Lexeme, next: nat)

  function TokenAt(line: string, p: nat): (t: Step)
    requires p < |line|
    ensures p < t.next <= |line| + 1
  {
    if line[p] == '<' then Step(InRedirect, p + 1)
    else if line[p] == '>' then Step(OutRedirect, p + 1)
    else if IsQuote(line[p]) then
      match FindChar(line, p + 1, line[p])
      case None => Step(Unmatched, |line|)
      case Some(q) => Step(Word(line[p + 1..q]), q + 1)
    else
      var e := WordEnd(line, p);
      Step(Word(line[p..e]), e + 1)
  }

  /** The lexemes of line from index pos on; an unmatched quote is the last lexeme. */
  function Lex(line: string, pos: nat): seq<Lexeme>
    decreases |line| - pos
  {
    if pos >= |line| then []
    else
      var p := SkipDelims(line, pos);
      if p >= |line| then []
      else
        var t := TokenAt(line, p);
        [t.lexeme] + Lex(line, t.next)
  }

  /**
   * The parser's state between tokens: the arguments so far, the redirection files
   * (None stands for a NULL pointer) and the two bits of parsing_state.
   */
  datatype Scan = Scan(argv: seq<string>, infile: Option<string>, outfile: Option<string>,
                       pendingIn: bool, pendingOut: bool)

  const Start: Scan := Scan([], None, None, false, false)

  /**
   * One lexeme through the redirection state machine; None is an error (-1).  A word
   * is recorded as an argument, the input file or the output file according to the
   * pending bits, which it then clears.
   */
  function Feed(x: Lexeme, s: Scan): (r: Option<Scan>)
    ensures r.Some? ==> |s.argv| <= |r.value.argv| <= |s.argv| + 1
    ensures r.Some? && !x.Word? ==> r.value.argv == s.argv
  {
    match x
    case Unmatched => None
    case InRedirect => if s.infile.Some? then None else Some(s.(pendingIn := true))
    case OutRedirect => if s.outfile.Some? then None else Some(s.(pendingOut := true))
    case Word(w) =>
      if s.pendingIn && s.pendingOut then None
      else
        var s1 := if s.pendingIn then s.(infile := Some(w))
                  else if s.pendingOut then s.(outfile := Some(w))
                  else s.(argv := s.argv + [w]);
        Some(s1.(pendingIn := false, pendingOut := false))
  }

  /** Feed the lexemes in order, stopping at an error or once MAXARGS-1 arguments are recorded. */
  function Interp(lx: seq<Lexeme>, s: Scan): (r: Option<Scan>)
    requires |s.argv| < MAXARGS - 1
    ensures r.Some? ==> |s.argv| <= |r.value.argv| <= MAXARGS - 1
    decreases |lx|
  {
    if lx == [] then Some(s)
    else
      match Feed(lx[0], s)
      case None => None
      case Some(s2) => if |s2.argv| >= MAXARGS - 1 then Some(s2) else Interp(lx[1..], s2)
  }

  datatype Builtin = NoBuiltin | Quit | Jobs | BgCmd | FgCmd

  /** The builtins field chosen from argv[0]. */
  function Classify(cmd: string): (b: Builtin)
    ensures b == Quit <==> cmd == "quit"
    ensures b == Jobs <==> cmd == "jobs"
    ensures b == BgCmd <==> cmd == "bg"
    ensures b == FgCmd <==> cmd == "fg"
  {
    if cmd == "quit" then Quit
    else if cmd == "jobs" then Jobs
    else if cmd == "bg" then BgCmd
    else if cmd == "fg" then FgCmd
    else NoBuiltin
  }

  datatype Tokens = Tokens(argv: seq<string>, infile: Option<string>, outfile: Option<string>,
                           builtins: Builtin)

  /** The result of parseline: -1 (Failed), or 1/0 (background or not) with the tokens. */
  datatype Outcome = Failed | Parsed(bg: bool, tok: Tokens)

  function Code(o: Outcome): int
  {
    match o
    case Failed => -1
    case Parsed(bg, _) => if bg then 1 else 0
  }

  /**
   * The checks after the loop.  A blank line leaves the builtins field as it was
   * (`prior`) and counts as a background job; otherwise an argument list whose last
   * element starts with '&' is a background job and loses that element.
   */
  function Finish(s: Scan, prior: Builtin): Outcome
  {
    if s.pendingIn || s.pendingOut then Failed
    else if s.argv == [] then Parsed(true, Tokens([], s.infile, s.outfile, prior))
    else
      var last := s.argv[|s.argv| - 1];
      var bg := |last| > 0 && last[0] == '&';
      Parsed(bg, Tokens(if bg then s.argv[..|s.argv| - 1] else s.argv,
                        s.infile, s.outfile, Classify(s.argv[0])))
  }

  /** parseline(cmdline, tok) with `prior` the builtins field tok held before the call. */
  function Parse(cmdline: Option<string>, prior: Builtin): (o: Outcome)
    ensures cmdline.None? ==> o == Failed
    ensures o.Parsed? ==> |o.tok.argv| <= MAXARGS - 1
    ensures o.Parsed? && !o.bg ==> |o.tok.argv| > 0
  {
    match cmdline
    case None => Failed
    case Some(line) =>
      match Interp(Lex(line, 0), Start)
      case None => Failed
      case Some(s) => Finish(s, prior)
  }

  /**
   * The token at buf, which is neither a delimiter nor a redirection sign: a quoted
   * run or a run up to the next delimiter.  next is the index of the closing quote or
   * delimiter (or the end of the line); an unmatched quote returns next = |line| + 1.
   */
  method ScanWord(line: string, buf: nat) returns (w: string, next: nat)
    requires buf < |line| && line[buf] != '<' && line[buf] != '>'
    ensures next <= |line| ==> TokenAt(line, buf) == Step(Word(w), next + 1)
    ensures next > |line| <==> TokenAt(line, buf).lexeme == Unmatched
  {
    var start := buf;
    if IsQuote(line[buf]) {
      start := buf + 1;
      var found := FindChar(line, start, line[buf]);
      if found.None? {
        return "", |line| + 1;
      }
      next := found.value;
    } else {
      next := WordEnd(line, start);
    }
    w := line[start..next];
  }

  /** Where one pass of the scanning loop leaves the parser: scanning goes on from buf
      with state st, or the loop ends with the given result of Interp. */
  datatype Progress = More(buf: nat, st: Scan) | Done(r: Option<Scan>)

  /**
   * One pass of the scanning loop: skip delimiters, then take a redirection sign or a
   * word.  Returning Done(None) is parseline's `return -1`; Done(Some(s)) ends the
   * loop, at the end of the line or once argv is full.
   */
  method ScanStep(line: string, buf: nat, st: Scan) returns (p: Progress)
    requires buf < |line| && |st.argv| < MAXARGS - 1
    ensures p.More? ==> buf < p.buf <= |line| + 1 && |p.st.argv| < MAXARGS - 1 &&
                        Interp(Lex(line, p.buf), p.st) == Interp(Lex(line, buf), st)
    ensures p.Done? ==> p.r == Interp(Lex(line, buf), st)
  {
    var b := SkipDelims(line, buf);
    if b >= |line| {
      assert Lex(line, buf) == [];
      return Done(Some(st));
    }
    ghost var t := TokenAt(line, b);
    assert Lex(line, buf) == [t.lexeme] + Lex(line, t.next);
    InterpCons(t.lexeme, Lex(line, t.next), st);
    if line[b] == '<' {
      if st.infile.Some? {
        return Done(None);
      }
      return More(b + 1, st.(pendingIn := true));
    }
    if line[b] == '>' {
      if st.outfile.Some? {
        return Done(None);
      }
      return More(b + 1, st.(pendingOut := true));
    }
    var w, next := ScanWord(line, b);
    if next > |line| {
      return Done(None);
    }
    var s := st;
    if s.pendingIn && s.pendingOut {
      return Done(None);
    } else if s.pendingIn {
      s := s.(infile := Some(w));
    } else if s.pendingOut {
      s := s.(outfile := Some(w));
    } else {
      s := s.(argv := s.argv + [w]);
    }
    s := s.(pendingIn := false, pendingOut := false);
    assert Feed(t.lexeme, st) == Some(s);
    if |s.argv| >= MAXARGS - 1 {
      return Done(Some(s));
    }
    return More(next + 1, s);
  }

  /** The scanning loop of parseline, followed by its final checks. */
  method ParseLine(cmdline: Option<string>, prior: Builtin) returns (o: Outcome)
    requires cmdline.Some? ==> |cmdline.value| < MAXLINE && '\0' !in cmdline.value
    ensures o == Parse(cmdline, prior)
  {
    if cmdline.None? {
      return Failed;
    }
    var line := cmdline.value;
    ghost var target := Interp(Lex(line, 0), Start);
    var buf: nat := 0;
    var st := Start;
    while buf < |line|
      invariant buf <= |line| + 1
      invariant |st.argv| < MAXARGS - 1
      invariant Interp(Lex(line, buf), st) == target
      decreases |line| + 1 - buf
    {
      var p := ScanStep(line, buf, st);
      match p
      case Done(r) =>
        if r.None? {
          return Failed;
        }
        return Finish(r.value, prior);
      case More(b, s) =>
        buf, st := b, s;
    }
    assert Lex(line, buf) == [];
    o := Finish(st, prior);
  }

  // ---------------------------------------------------------------------------
  // Properties of the parser

  /** Interp on a lexeme followed by more lexemes: one Feed step, then the rest. */
  lemma InterpCons(x: Lexeme, more: seq<Lexeme>, s: Scan)
    requires |s.argv| < MAXARGS - 1
    ensures Interp([x] + more, s) ==
            match Feed(x, s)
            case None => None
            case Some(s2) => if |s2.argv| >= MAXARGS - 1 then Some(s2) else Interp(more, s2)
  {
    assert ([x] + more)[0] == x && ([x] + more)[1..] == more;
  }

  /** b sits in line from index d to the end. */
  predicate SuffixAt(line: string, d: nat, b: string)
  {
    d + |b| == |line| && forall k :: 0 <= k < |b| ==> line[d + k] == b[k]
  }

  lemma SuffixOfConcat(a: string, b: string)
    ensures SuffixAt(a + b, |a|, b)
  {
  }

  // Scanning a suffix on its own gives the same lexemes as scanning it in place.

  lemma {:induction false} SkipDelimsShift(line: string, d: nat, b: string, p: nat)
    requires SuffixAt(line, d, b) && p <= |b|
    ensures SkipDelims(line, d + p) == d + SkipDelims(b, p)
    decreases |b| - p
  {
    if p < |b| {
      assert line[d + p] == b[p];
      SkipDelimsShift(line, d, b, p + 1);
    }
  }

  lemma {:induction false} WordEndShift(line: string, d: nat, b: string, p: nat)
    requires SuffixAt(line, d, b) && p <= |b|
    ensures WordEnd(line, d + p) == d + WordEnd(b, p)
    decreases |b| - p
  {
    if p < |b| {
      assert line[d + p] == b[p];
      WordEndShift(line, d, b, p + 1);
    }
  }

  lemma {:induction false} FindCharShift(line: string, d: nat, b: string, p: nat, c: char)
    requires SuffixAt(line, d, b) && p <= |b|
    ensures FindChar(line, d + p, c) ==
            match FindChar(b, p, c)
            case None => None
            case Some(q) => Some(d + q)
    decreases |b| - p
  {
    if p < |b| {
      assert line[d + p] == b[p];
      FindCharShift(line, d, b, p + 1, c);
    }
  }

  lemma SliceShift(line: string, d: nat, b: string, i: nat, j: nat)
    requires SuffixAt(line, d, b) && i <= j <= |b|
    ensures line[d + i..d + j] == b[i..j]
  {
    forall k | 0 <= k < j - i
      ensures line[d + i..d + j][k] == b[i..j][k]
    {
      assert line[d + i + k] == b[i + k];
    }
  }

  lemma TokenAtShift(line: string, d: nat, b: string, p: nat)
    requires SuffixAt(line, d, b) && p < |b|
    ensures TokenAt(line, d + p) == Step(TokenAt(b, p).lexeme, d + TokenAt(b, p).next)
  {
    assert line[d + p] == b[p];
    if !(b[p] == '<' || b[p] == '>') {
      if IsQuote(b[p]) {
        FindCharShift(line, d, b, p + 1, b[p]);
        match FindChar(b, p + 1, b[p])
        case None =>
        case Some(q) =>
          SliceShift(line, d, b, p + 1, q);
      } else {
        WordEndShift(line, d, b, p);
        SliceShift(line, d, b, p, WordEnd(b, p));
      }
    }
  }

  /** One step of Lex past the delimiters. */
  lemma LexUnfold(line: string, pos: nat)
    requires pos < |line| && SkipDelims(line, pos) < |line|
    ensures Lex(line, pos) == [TokenAt(line, SkipDelims(line, pos)).lexeme] +
                              Lex(line, TokenAt(line, SkipDelims(line, pos)).next)
  {
  }

  lemma {:induction false} LexShiftAt(line: string, d: nat, b: string, p: nat)
    requires SuffixAt(line, d, b)
    ensures Lex(line, d + p) == Lex(b, p)
    decreases |b| + 1 - p
  {
    if p < |b| {
      SkipDelimsShift(line, d, b, p);
      var q := SkipDelims(b, p);
      if q < |b| {
        var t := TokenAt(b, q);
        TokenAtShift(line, d, b, q);
        LexShiftAt(line, d, b, t.next);
        LexUnfold(line, d + p);
        LexUnfold(b, p);
      }
    }
  }

  lemma LexShift(a: string, b: string, p: nat)
    ensures Lex(a + b, |a| + p) == Lex(b, p)
  {
    SuffixOfConcat(a, b);
    LexShiftAt(a + b, |a|, b, p);
  }

  /** Leading delimiters are skipped. */
  lemma LexDelim(c: char, rest: string)
    requires IsDelim(c)
    ensures Lex([c] + rest, 0) == Lex(rest, 0)
  {
    var line := [c] + rest;
    assert SkipDelims(line, 0) == SkipDelims(line, 1);
    LexShift([c], rest, 0);
  }

  /** A word the scanner ends at a delimiter: non-empty, with no delimiter, and not
      starting with a quote or a redirection sign. */
  predicate Bare(w: string)
  {
    |w| > 0 && !IsQuote(w[0]) && w[0] != '<' && w[0] != '>' &&
    forall k :: 0 <= k < |w| ==> !IsDelim(w[k])
  }

  /** A bare word that does not start with '&' either. */
  predicate PlainWord(w: string)
  {
    Bare(w) && w[0] != '&'
  }

  /** An unquoted token followed by a space, and the last unquoted token of a line. */
  lemma LexBareThen(w: string, rest: string)
    requires Bare(w)
    ensures Lex(w + " " + rest, 0) == [Word(w)] + Lex(rest, 0)
  {
    var line := w + " " + rest;
    assert forall k :: 0 <= k < |w| ==> line[k] == w[k];
    assert line[|w|] == ' ';
    assert SkipDelims(line, 0) == 0;
    WordEndAt(line, 0, |w|);
    assert line[0..|w|] == w;
    LexShift(w + " ", rest, 0);
  }

  lemma LexBareLast(w: string)
    requires Bare(w)
    ensures Lex(w, 0) == [Word(w)]
  {
    assert SkipDelims(w, 0) == 0;
    WordEndAt(w, 0, |w|);
    assert w[0..|w|] == w;
  }

  /** A redirection sign is a lexeme of its own, even with no delimiter after it. */
  lemma LexRedirect(c: char, rest: string)
    requires c == '<' || c == '>'
    ensures Lex([c] + rest, 0) == [if c == '<' then InRedirect else OutRedirect] + Lex(rest, 0)
  {
    assert SkipDelims([c] + rest, 0) == 0;
    LexShift([c], rest, 0);
  }

  lemma LexRedirectLast(c: char)
    requires c == '<' || c == '>'
    ensures Lex([c], 0) == [if c == '<' then InRedirect else OutRedirect]
  {
    assert SkipDelims([c], 0) == 0;
  }

  /** A quote with no partner up to the end of the line ends the lexemes with Unmatched. */
  lemma LexUnmatched(q: char, rest: string)
    requires IsQuote(q) && q !in rest
    ensures Lex([q] + rest, 0) == [Unmatched]
  {
    var line := [q] + rest;
    assert SkipDelims(line, 0) == 0;
    assert forall k :: 1 <= k < |line| ==> line[k] == rest[k - 1];
    FindCharNone(line, 1, q);
  }

  /** A quoted run, taken without its quotes, is one token. */
  lemma LexQuoted(q: char, body: string, rest: string)
    requires IsQuote(q) && q !in body
    ensures Lex([q] + body + [q] + rest, 0) == [Word(body)] + Lex(rest, 0)
  {
    var line := [q] + body + [q] + rest;
    assert SkipDelims(line, 0) == 0;
    assert forall k :: 1 <= k < 1 + |body| ==> line[k] == body[k - 1];
    assert line[1 + |body|] == q;
    FindCharAt(line, 1, q, 1 + |body|);
    assert line[1..1 + |body|] == body;
    LexShift([q] + body + [q], rest, 0);
  }

  lemma LexQuotedLast(q: char, body: string)
    requires IsQuote(q) && q !in body
    ensures Lex([q] + body + [q], 0) == [Word(body)]
  {
    var line := [q] + body + [q];
    assert SkipDelims(line, 0) == 0;
    assert forall k :: 1 <= k < 1 + |body| ==> line[k] == body[k - 1];
    FindCharAt(line, 1, q, 1 + |body|);
    assert line[1..1 + |body|] == body;
  }

  /** Words separated by single spaces. */
  function Join(ws: seq<string>): string
  {
    if ws == [] then ""
    else if |ws| == 1 then ws[0]
    else ws[0] + " " + Join(ws[1..])
  }

  function Words(ws: seq<string>): (lx: seq<Lexeme>)
    ensures |lx| == |ws|
  {
    if ws == [] then [] else [Word(ws[0])] + Words(ws[1..])
  }

  lemma {:induction false} WordsAppend(ws: seq<string>, w: string)
    ensures Words(ws + [w]) == Words(ws) + [Word(w)]
    decreases |ws|
  {
    if ws == [] {
      assert [] + [w] == [w];
    } else {
      assert (ws + [w])[1..] == ws[1..] + [w];
      WordsAppend(ws[1..], w);
    }
  }

  /** Space-separated bare words lex to exactly those words. */
  lemma {:induction false} LexJoin(ws: seq<string>)
    requires forall i :: 0 <= i < |ws| ==> Bare(ws[i])
    ensures Lex(Join(ws), 0) == Words(ws)
    decreases |ws|
  {
    if |ws| == 1 {
      LexBareLast(ws[0]);
    } else if |ws| > 1 {
      LexBareThen(ws[0], Join(ws[1..]));
      LexJoin(ws[1..]);
    }
  }

  /** ... and when more of the line follows a space, its lexemes come after the words. */
  lemma {:induction false} LexJoinThen(ws: seq<string>, rest: string)
    requires |ws| > 0
    requires forall i :: 0 <= i < |ws| ==> Bare(ws[i])
    ensures Lex(Join(ws) + " " + rest, 0) == Words(ws) + Lex(rest, 0)
    decreases |ws|
  {
    if |ws| == 1 {
      LexBareThen(ws[0], rest);
    } else {
      var tail := Join(ws[1..]) + " " + rest;
      assert Join(ws) + " " + rest == ws[0] + " " + tail;
      LexBareThen(ws[0], tail);
      LexJoinThen(ws[1..], rest);
    }
  }

  /** Words are appended to argv one by one while argv has room. */
  lemma {:induction false} InterpWords(ws: seq<string>, s: Scan)
    requires !s.pendingIn && !s.pendingOut
    requires |s.argv| < MAXARGS - 1 && |s.argv| + |ws| < MAXARGS
    ensures Interp(Words(ws), s) == Some(s.(argv := s.argv + ws))
    decreases |ws|
  {
    if ws == [] {
      assert s.argv + ws == s.argv;
    } else {
      var s2 := s.(argv := s.argv + [ws[0]]);
      assert Words(ws) == [Word(ws[0])] + Words(ws[1..]);
      InterpCons(Word(ws[0]), Words(ws[1..]), s);
      assert s2.argv + ws[1..] == s.argv + ws;
      if |s2.argv| < MAXARGS - 1 {
        InterpWords(ws[1..], s2);
      } else {
        assert ws[1..] == [];
        assert s2.argv == s.argv + ws;
      }
    }
  }

  /** Interp over words and then more lexemes runs the words first. */
  lemma {:induction false} InterpWordsThen(ws: seq<string>, more: seq<Lexeme>, s: Scan)
    requires !s.pendingIn && !s.pendingOut
    requires |s.argv| + |ws| < MAXARGS - 1
    ensures Interp(Words(ws) + more, s) == Interp(more, s.(argv := s.argv + ws))
    decreases |ws|
  {
    if ws == [] {
      assert Words(ws) + more == more;
      assert s.argv + ws == s.argv;
    } else {
      var s2 := s.(argv := s.argv + [ws[0]]);
      assert Words(ws) + more == [Word(ws[0])] + (Words(ws[1..]) + more);
      InterpCons(Word(ws[0]), Words(ws[1..]) + more, s);
      assert s2.argv + ws[1..] == s.argv + ws;
      InterpWordsThen(ws[1..], more, s2);
    }
  }

  /** Parse in terms of the lexemes of the line and their interpretation. */
  lemma ParseOf(line: string, prior: Builtin, lx: seq<Lexeme>, r: Option<Scan>)
    requires Lex(line, 0) == lx && Interp(lx, Start) == r
    ensures Parse(Some(line), prior) == if r.None? then Failed else Finish(r.value, prior)
  {
  }

  /** Interp from the initial state over words only. */
  lemma InterpWordsFromStart(ws: seq<string>)
    requires |ws| < MAXARGS
    ensures Interp(Words(ws), Start) == Some(Start.(argv := ws))
  {
    InterpWords(ws, Start);
    assert Start.argv + ws == ws;
  }

  /** The final checks on a redirection-free argv that does not end in a '&' word. */
  lemma FinishForeground(argv: seq<string>, prior: Builtin)
    requires |argv| > 0
    requires var last := argv[|argv| - 1]; last == [] || last[0] != '&'
    ensures Finish(Start.(argv := argv), prior) == Parsed(false, Tokens(argv, None, None, Classify(argv[0])))
  {
  }

  /** ... and on one that ends in the word "&". */
  lemma FinishBackground(ws: seq<string>, prior: Builtin)
    requires |ws| > 0
    ensures Finish(Start.(argv := ws + ["&"]), prior) == Parsed(true, Tokens(ws, None, None, Classify(ws[0])))
  {
    var all := ws + ["&"];
    assert all[..|all| - 1] == ws;
  }

  /** Round trip: a line of up to MAXARGS-1 plain words parses to exactly those words, in
      the foreground, with no redirection and argv[0] classified. */
  lemma ParsePlainWords(ws: seq<string>, prior: Builtin)
    requires 0 < |ws| < MAXARGS
    requires forall i :: 0 <= i < |ws| ==> PlainWord(ws[i])
    ensures Parse(Some(Join(ws)), prior) == Parsed(false, Tokens(ws, None, None, Classify(ws[0])))
  {
    LexJoin(ws);
    InterpWordsFromStart(ws);
    ParseOf(Join(ws), prior, Words(ws), Some(Start.(argv := ws)));
    FinishForeground(ws, prior);
  }

  lemma AmpBare(ws: seq<string>)
    requires forall i :: 0 <= i < |ws| ==> PlainWord(ws[i])
    ensures forall i :: 0 <= i < |ws + ["&"]| ==> Bare((ws + ["&"])[i])
  {
    var all := ws + ["&"];
    forall i | 0 <= i < |all|
      ensures Bare(all[i])
    {
      if i < |ws| {
        assert all[i] == ws[i];
      } else {
        assert all[i] == "&";
      }
    }
  }

  /** A last argument "&" makes the job a background job and is removed from argv. */
  lemma ParseBackground(ws: seq<string>, prior: Builtin)
    requires 0 < |ws| < MAXARGS - 1
    requires forall i :: 0 <= i < |ws| ==> PlainWord(ws[i])
    ensures Parse(Some(Join(ws + ["&"])), prior) == Parsed(true, Tokens(ws, None, None, Classify(ws[0])))
  {
    var all := ws + ["&"];
    AmpBare(ws);
    LexJoin(all);
    InterpWordsFromStart(all);
    ParseOf(Join(all), prior, Words(all), Some(Start.(argv := all)));
    FinishBackground(ws, prior);
  }

  /** A blank line (delimiters only) parses to an empty argv and returns 1. */
  lemma ParseBlank(line: string, prior: Builtin)
    requires forall k :: 0 <= k < |line| ==> IsDelim(line[k])
    ensures Parse(Some(line), prior) == Parsed(true, Tokens([], None, None, prior))
  {
    if |line| > 0 {
      SkipDelimsSpec(line, 0);
    }
  }

  /** A quoted argument is recorded without its quotes. */
  lemma ParseQuoted(ws: seq<string>, q: char, body: string, prior: Builtin)
    requires 0 < |ws| < MAXARGS - 2
    requires forall i :: 0 <= i < |ws| ==> PlainWord(ws[i])
    requires IsQuote(q) && q !in body && (body == [] || body[0] != '&')
    ensures Parse(Some(Join(ws) + " " + ([q] + body + [q])), prior) ==
            Parsed(false, Tokens(ws + [body], None, None, Classify(ws[0])))
  {
    LexJoinThen(ws, [q] + body + [q]);
    LexQuotedLast(q, body);
    WordsAppend(ws, body);
    InterpWordsFromStart(ws + [body]);
    ParseOf(Join(ws) + " " + ([q] + body + [q]), prior, Words(ws + [body]),
            Some(Start.(argv := ws + [body])));
    FinishForeground(ws + [body], prior);
  }

  /** An unmatched quote after plain words is an error. */
  lemma ParseUnmatchedQuote(ws: seq<string>, q: char, rest: string, prior: Builtin)
    requires 0 < |ws| < MAXARGS - 1
    requires forall i :: 0 <= i < |ws| ==> PlainWord(ws[i])
    requires IsQuote(q) && q !in rest
    ensures Parse(Some(Join(ws) + " " + ([q] + rest)), prior) == Failed
  {
    LexJoinThen(ws, [q] + rest);
    LexUnmatched(q, rest);
    InterpWordsThen(ws, [Unmatched], Start);
    ParseOf(Join(ws) + " " + ([q] + rest), prior, Words(ws) + [Unmatched], None);
  }

  /** A redirection sign with no file name after it is an error. */
  lemma ParseTrailingRedirect(ws: seq<string>, c: char, prior: Builtin)
    requires 0 < |ws| < MAXARGS - 1
    requires forall i :: 0 <= i < |ws| ==> PlainWord(ws[i])
    requires c == '<' || c == '>'
    ensures Parse(Some(Join(ws) + " " + [c]), prior) == Failed
  {
    var lx := if c == '<' then InRedirect else OutRedirect;
    LexJoinThen(ws, [c]);
    LexRedirectLast(c);
    InterpWordsThen(ws, [lx], Start);
    var s := Start.(argv := ws);
    assert Start.argv + ws == ws;
    assert [lx] == [lx] + [];
    InterpCons(lx, [], s);
    ParseOf(Join(ws) + " " + [c], prior, Words(ws) + [lx], Interp([lx], s));
  }

  /** Redirections: "cmd < a > b" runs cmd with input a and output b. */
  lemma ParseRedirections(cmd: string, a: string, b: string, prior: Builtin)
    requires PlainWord(cmd) && PlainWord(a) && PlainWord(b)
    ensures Parse(Some(cmd + " " + ("<" + (" " + (a + " " + (">" + (" " + b)))))), prior) ==
            Parsed(false, Tokens([cmd], Some(a), Some(b), Classify(cmd)))
  {
    var lx := [Word(cmd)] + [InRedirect, Word(a), OutRedirect, Word(b)];
    LexRedirections(cmd, a, b);
    InterpRedirections(cmd, a, b);
    ParseOf(cmd + " " + ("<" + (" " + (a + " " + (">" + (" " + b))))), prior, lx,
            Some(Scan([cmd], Some(a), Some(b), false, false)));
  }

  lemma LexRedirections(cmd: string, a: string, b: string)
    requires PlainWord(cmd) && PlainWord(a) && PlainWord(b)
    ensures Lex(cmd + " " + ("<" + (" " + (a + " " + (">" + (" " + b))))), 0) ==
            [Word(cmd)] + [InRedirect, Word(a), OutRedirect, Word(b)]
  {
    var t1 := "<" + (" " + (a + " " + (">" + (" " + b))));
    LexInputOutput(a, b);
    LexBareThen(cmd, t1);
  }

  lemma LexInputOutput(a: string, b: string)
    requires PlainWord(a) && PlainWord(b)
    ensures Lex("<" + (" " + (a + " " + (">" + (" " + b)))), 0) ==
            [InRedirect, Word(a), OutRedirect, Word(b)]
  {
    var t3 := ">" + (" " + b);
    var ta := a + " " + t3;
    LexOutput(b);
    LexBareThen(a, t3);
    LexDelim(' ', ta);
    LexRedirect('<', " " + ta);
  }

  lemma LexOutput(b: string)
    requires PlainWord(b)
    ensures Lex(">" + (" " + b), 0) == [OutRedirect, Word(b)]
  {
    LexBareLast(b);
    LexDelim(' ', b);
    LexRedirect('>', " " + b);
  }

  lemma InterpRedirections(cmd: string, a: string, b: string)
    ensures Interp([Word(cmd)] + [InRedirect, Word(a), OutRedirect, Word(b)], Start) ==
            Some(Scan([cmd], Some(a), Some(b), false, false))
  {
    var lx := [Word(cmd), InRedirect, Word(a), OutRedirect, Word(b)];
    assert [Word(cmd)] + [InRedirect, Word(a), OutRedirect, Word(b)] == lx;
    var s1 := Start.(argv := [cmd]);
    var s2 := s1.(pendingIn := true);
    var s3 := s1.(infile := Some(a));
    var s4 := s3.(pendingOut := true);
    var s5 := s3.(outfile := Some(b));
    assert Interp(lx[4..], s4) == Some(s5);
    assert Interp(lx[3..], s3) == Some(s5);
    assert Interp(lx[2..], s2) == Some(s5);
    assert Interp(lx[1..], s1) == Some(s5);
    assert Start.argv + [cmd] == [cmd];
  }

  /** A second input redirection once the input file is set is an error ("< a < b"). */
  lemma ParseSecondInput(a: string, b: string, prior: Builtin)
    requires PlainWord(a) && PlainWord(b)
    ensures Parse(Some("<" + (" " + (a + " " + ("<" + (" " + b))))), prior) == Failed
  {
    var tb := " " + b;
    var t3 := "<" + tb;
    var ta := a + " " + t3;
    LexRedirect('<', " " + ta);
    LexDelim(' ', ta);
    LexBareThen(a, t3);
    LexRedirect('<', tb);
    var s1 := Start.(pendingIn := true);
    InterpCons(InRedirect, [Word(a)] + Lex(t3, 0), Start);
    InterpCons(Word(a), Lex(t3, 0), s1);
    InterpCons(InRedirect, Lex(tb, 0), Start.(infile := Some(a)));
  }

  /** A token for which both redirections are pending is an error ("< > b"). */
  lemma ParseBothPending(b: string, prior: Builtin)
    requires PlainWord(b)
    ensures Parse(Some("<" + (" " + (">" + (" " + b)))), prior) == Failed
  {
    var tb := " " + b;
    var t2 := ">" + tb;
    LexRedirect('<', " " + t2);
    LexDelim(' ', t2);
    LexRedirect('>', tb);
    LexDelim(' ', b);
    LexBareLast(b);
    var s1 := Start.(pendingIn := true);
    InterpCons(InRedirect, [OutRedirect, Word(b)], Start);
    InterpCons(OutRedirect, [Word(b)], s1);
    InterpCons(Word(b), [], s1.(pendingOut := true));
  }
}
