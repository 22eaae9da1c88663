/**
 * `parseline` of Project/TshLab/tsh.c: split a command line into
 * arguments at blanks, tabs, carriage returns and newlines; a token that
 * starts with a quote runs to the matching quote; `<` and `>` make the
 * next token the input or output file; a last argument starting with `&`
 * asks for a background job and is dropped; `argv[0]` names a builtin.
 *
 * The scan is a function of the position `buf` has reached in the copied
 * line. The copy writes a NUL over the character after each token; those
 * characters all lie before the next position scanned, so the model reads
 * the line as it was.
 */
module TshParse {
  import opened Outcomes
  import opened CStr

  const MAXLINE: nat := 1024
  const MAXARGS: nat := 128

  /** The argument delimiters. */
  const DELIMS: set<char> := {' ', '\t', '\r', '\n'}

  datatype Builtin = BuiltinNone | BuiltinQuit | BuiltinJobs | BuiltinBg | BuiltinFg

  /** The filled-in `cmdline_tokens`: `argc` is `|argv|`. */
  datatype Tokens = Tokens(argv: seq<string>, infile: Option<string>, outfile: Option<string>, builtins: Builtin)

  /** The two bits of `parsing_state`: a `<` or a `>` waits for its file name. */
  datatype Pending = Pending(input: bool, output: bool)

  const NORMAL := Pending(false, false)

  /** What the loop has built so far. */
  datatype Scan = Scan(argv: seq<string>, infile: Option<string>, outfile: Option<string>, pending: Pending)

  /**
   * The answer of `parseline`: -1 (`Error`), a blank line (`Blank`, 1), or
   * the tokens with the background flag (1 when set, 0 otherwise).
   */
  datatype Parse = Error | Blank | Parsed(tok: Tokens, bg: bool)

  function Ret(p: Parse): int
  {
    match p
    case Error => -1
    case Blank => 1
    case Parsed(_, bg) => if bg then 1 else 0
  }

  /** The command name of a builtin; none for `BuiltinNone`. */
  function BuiltinName(b: Builtin): string
  {
    match b
    case BuiltinNone => ""
    case BuiltinQuit => "quit"
    case BuiltinJobs => "jobs"
    case BuiltinBg => "bg"
    case BuiltinFg => "fg"
  }

  /** The `strcmp` chain on `argv[0]`: a builtin exactly when the whole name is one. */
  function BuiltinOf(name: string): (b: Builtin)
    ensures b != BuiltinNone ==> BuiltinName(b) == name
    ensures b == BuiltinNone ==> forall b' :: b' != BuiltinNone ==> BuiltinName(b') != name
  {
    if name == "quit" then BuiltinQuit
    else if name == "jobs" then BuiltinJobs
    else if name == "bg" then BuiltinBg
    else if name == "fg" then BuiltinFg
    else BuiltinNone
  }

  /** Each builtin is recognised by its name. */
  lemma BuiltinNameRoundTrip(b: Builtin)
    requires b != BuiltinNone
    ensures BuiltinOf(BuiltinName(b)) == b
  {
  }

  predicate IsQuote(c: char)
  {
    c == '\'' || c == '"'
  }

  /**
   * Record a token according to the pending state: an argument, the
   * input file or the output file; with both redirections pending the
   * line is ambiguous (`None`). The state returns to normal.
   */
  function Record(s: Scan, token: string): (r: Option<Scan>)
    ensures r.None? <==> s.pending == Pending(true, true)
    ensures r.Some? ==> r.value.pending == NORMAL
    ensures r.Some? && s.pending == NORMAL ==> r.value == s.(argv := s.argv + [token])
    ensures r.Some? && s.pending != NORMAL ==> r.value.argv == s.argv
  {
    match s.pending
    case Pending(false, false) => Some(s.(argv := s.argv + [token]))
    case Pending(true, false) => Some(s.(infile := Some(token), pending := NORMAL))
    case Pending(false, true) => Some(s.(outfile := Some(token), pending := NORMAL))
    case Pending(true, true) => None
  }

  /** A pending redirection has no file yet (a `<` with the input file set is refused on the spot). */
  predicate Waiting(s: Scan)
  {
    (s.pending.input ==> s.infile.None?) && (s.pending.output ==> s.outfile.None?)
  }

  /**
   * The loop of `parseline` from position `pos` (`None` is a -1 answered
   * inside the loop): skip delimiters, then take what starts there. It
   * stops at the end of the line, or once `MAXARGS - 1` arguments are in.
   */
  function ScanFrom(line: string, pos: nat, s: Scan): (r: Option<Scan>)
    requires pos <= |line| + 1 && |s.argv| < MAXARGS - 1 && Waiting(s)
    ensures r.Some? ==> |s.argv| <= |r.value.argv| <= MAXARGS - 1 && r.value.argv[..|s.argv|] == s.argv
    ensures r.Some? && s.infile.Some? ==> r.value.infile == s.infile
    ensures r.Some? && s.outfile.Some? ==> r.value.outfile == s.outfile
    decreases |line| + 1 - pos, 1
  {
    if pos >= |line| then Some(s) else ScanAt(line, Span(line, pos, DELIMS), s)
  }

  /**
   * One pass of the loop body at the first non-delimiter `p`: a `<` or a
   * `>` marks its redirection pending (-1 when that file is already set);
   * anything else is a token, to the matching quote or to the next
   * delimiter, recorded by the pending state.
   */
  function ScanAt(line: string, p: nat, s: Scan): (r: Option<Scan>)
    requires p <= |line| && |s.argv| < MAXARGS - 1 && Waiting(s)
    ensures r.Some? ==> |s.argv| <= |r.value.argv| <= MAXARGS - 1 && r.value.argv[..|s.argv|] == s.argv
    ensures r.Some? && s.infile.Some? ==> r.value.infile == s.infile
    ensures r.Some? && s.outfile.Some? ==> r.value.outfile == s.outfile
    decreases |line| + 1 - p, 0
  {
    if p == |line| then Some(s)
    else if line[p] == '<' then
      if s.infile.Some? then None
      else ScanFrom(line, p + 1, s.(pending := s.pending.(input := true)))
    else if line[p] == '>' then
      if s.outfile.Some? then None
      else ScanFrom(line, p + 1, s.(pending := s.pending.(output := true)))
    else
      match TokenAt(line, p)
      case None => None
      case Some((start, e)) =>
        match Record(s, line[start..e])
        case None => None
        case Some(s') =>
          assert s'.argv[..|s.argv|] == s.argv;
          if |s'.argv| >= MAXARGS - 1 then Some(s')
          else ScanFrom(line, e + 1, s')
  }

  /**
   * Where the token at `p` starts and where it ends (where the NUL goes):
   * a quote opens a token that ends at the next same quote, NULL when
   * there is none; any other token ends at the next delimiter or the end.
   */
  function TokenAt(line: string, p: nat): (r: Option<(nat, nat)>)
    requires p < |line|
    ensures r.Some? ==> p <= r.value.0 <= r.value.1 <= |line|
    ensures r.None? <==> IsQuote(line[p]) && forall j :: p < j < |line| ==> line[j] != line[p]
  {
    if IsQuote(line[p]) then
      match StrChr(line, p + 1, line[p])
      case None => None
      case Some(e) => Some((p + 1, e))
    else Some((p, CSpan(line, p, DELIMS)))
  }

  const START := Scan([], None, None, NORMAL)

  /**
   * `parseline`. NULL is -1; a line of `MAXLINE` characters or more
   * leaves the local copy without its NUL, so `strlen` runs off it
   * (`Fault`). Otherwise the scan runs; a redirection still waiting for
   * its file name is -1; no arguments is a blank line; otherwise
   * `argv[0]` picks the builtin and a last argument starting with `&` is
   * dropped and makes the job a background one.
   */
  function ParseLine(cmdline: Option<string>): (r: Outcome<Parse>)
    ensures cmdline.None? ==> r == Done(Error)
    ensures r.Fault? <==> cmdline.Some? && |cmdline.value| >= MAXLINE
    ensures r.Done? && r.value.Parsed? ==>
      var (tok, bg) := (r.value.tok, r.value.bg);
      && |tok.argv| + (if bg then 1 else 0) <= MAXARGS - 1
      && (tok.argv != [] ==> tok.builtins == BuiltinOf(tok.argv[0]))
      && (!bg ==> tok.argv != [] && (tok.argv[|tok.argv| - 1] == [] || tok.argv[|tok.argv| - 1][0] != '&'))
  {
    match cmdline
    case None => Done(Error)
    case Some(line) =>
      if |line| >= MAXLINE then Fault
      else
        match ScanFrom(line, 0, START)
        case None => Done(Error)
        case Some(s) => Done(Finish(s))
  }

  /** The tail of `parseline`, after the loop. */
  function Finish(s: Scan): (p: Parse)
    requires |s.argv| <= MAXARGS - 1
    ensures p.Error? <==> s.pending != NORMAL
    ensures p.Blank? <==> s.pending == NORMAL && s.argv == []
    ensures p.Parsed? ==>
      && p.tok.infile == s.infile && p.tok.outfile == s.outfile
      && p.tok.builtins == BuiltinOf(s.argv[0])
      && (p.bg <==> s.argv[|s.argv| - 1] != [] && s.argv[|s.argv| - 1][0] == '&')
      && p.tok.argv == if p.bg then s.argv[..|s.argv| - 1] else s.argv
  {
    if s.pending != NORMAL then Error
    else if s.argv == [] then Blank
    else
      var b := BuiltinOf(s.argv[0]);
      var last := s.argv[|s.argv| - 1];
      if last != [] && last[0] == '&' then Parsed(Tokens(s.argv[..|s.argv| - 1], s.infile, s.outfile, b), true)
      else Parsed(Tokens(s.argv, s.infile, s.outfile, b), false)
  }

  /** A plain word: not empty, no delimiter, not opening with a quote or a redirection. */
  predicate Word(w: string)
  {
    && w != []
    && (forall j :: 0 <= j < |w| ==> w[j] !in DELIMS)
    && !IsQuote(w[0]) && w[0] != '<' && w[0] != '>'
  }

  /** Words separated by single blanks. */
  function Join(ws: seq<string>): string
    requires ws != []
  {
    if |ws| == 1 then ws[0] else ws[0] + " " + Join(ws[1..])
  }

  lemma SliceParts(line: string, pos: nat, w: string, rest: string)
    requires pos + |w + " " + rest| <= |line| && line[pos..pos + |w + " " + rest|] == w + " " + rest
    ensures line[pos..pos + |w|] == w && line[pos + |w|] == ' '
    ensures line[pos + |w| + 1..pos + |w| + 1 + |rest|] == rest
  {
    var j := w + " " + rest;
    assert forall k :: 0 <= k < |j| ==> line[pos + k] == line[pos..pos + |j|][k] == j[k];
    assert line[pos + |w|] == j[|w|];
    assert forall k :: 0 <= k < |w| ==> line[pos..pos + |w|][k] == j[k] == w[k];
    assert forall k :: 0 <= k < |rest| ==> line[pos + |w| + 1..pos + |w| + 1 + |rest|][k] == j[|w| + 1 + k] == rest[k];
  }

  lemma ConsArgs(a: seq<string>, ws: seq<string>)
    requires ws != []
    ensures a + [ws[0]] + ws[1..] == a + ws
  {
  }

  /** Nothing but delimiters from `pos` on: the scan ends where it stands. */
  lemma ScanBlank(line: string, pos: nat, s: Scan)
    requires pos <= |line| + 1 && |s.argv| < MAXARGS - 1 && Waiting(s)
    requires forall j :: pos <= j < |line| ==> line[j] in DELIMS
    ensures ScanFrom(line, pos, s) == Some(s)
  {
    if pos < |line| {
      assert Span(line, pos, DELIMS) == |line|;
    }
  }

  /** One plain word at `pos`, followed by a delimiter or the end. */
  lemma ScanWord(line: string, pos: nat, s: Scan, w: string)
    requires pos + |w| <= |line| && line[pos..pos + |w|] == w && Word(w)
    requires pos + |w| < |line| ==> line[pos + |w|] in DELIMS
    requires |s.argv| < MAXARGS - 1 && s.pending != Pending(true, true) && Waiting(s)
    ensures var s' := Record(s, w).value;
      ScanFrom(line, pos, s) ==
        if |s'.argv| >= MAXARGS - 1 then Some(s') else ScanFrom(line, pos + |w| + 1, s')
  {
    assert line[pos] == w[0];
    assert Span(line, pos, DELIMS) == pos;
    assert forall j :: pos <= j < pos + |w| ==> line[j] == w[j - pos];
    assert CSpan(line, pos, DELIMS) == pos + |w|;
  }

  /** A delimiter at `pos` is skipped. */
  lemma ScanDelim(line: string, pos: nat, s: Scan)
    requires pos < |line| && line[pos] in DELIMS && |s.argv| < MAXARGS - 1 && Waiting(s)
    ensures ScanFrom(line, pos, s) == ScanFrom(line, pos + 1, s)
  {
    assert Span(line, pos, DELIMS) == Span(line, pos + 1, DELIMS);
  }

  /**
   * Blank-separated plain words, followed by a delimiter or the end, all
   * become arguments in their order.
   */
  lemma {:induction false} ScanJoin(line: string, pos: nat, s: Scan, ws: seq<string>)
    requires ws != [] && forall i :: 0 <= i < |ws| ==> Word(ws[i])
    requires pos + |Join(ws)| <= |line| && line[pos..pos + |Join(ws)|] == Join(ws)
    requires pos + |Join(ws)| < |line| ==> line[pos + |Join(ws)|] in DELIMS
    requires s.pending == NORMAL && |s.argv| + |ws| < MAXARGS - 1
    ensures Waiting(s)
    ensures ScanFrom(line, pos, s) == ScanFrom(line, pos + |Join(ws)| + 1, s.(argv := s.argv + ws))
    decreases |ws|, 1
  {
    if |ws| == 1 {
      JoinOne(line, pos, s, ws);
    } else {
      JoinMany(line, pos, s, ws);
    }
  }

  /** A single word is one scan step. */
  lemma JoinOne(line: string, pos: nat, s: Scan, ws: seq<string>)
    requires |ws| == 1 && Word(ws[0])
    requires pos + |Join(ws)| <= |line| && line[pos..pos + |Join(ws)|] == Join(ws)
    requires pos + |Join(ws)| < |line| ==> line[pos + |Join(ws)|] in DELIMS
    requires s.pending == NORMAL && |s.argv| + 1 < MAXARGS - 1
    ensures ScanFrom(line, pos, s) == ScanFrom(line, pos + |Join(ws)| + 1, s.(argv := s.argv + ws))
  {
    assert Join(ws) == ws[0];
    ScanWord(line, pos, s, ws[0]);
    assert s.argv + [ws[0]] == s.argv + ws;
  }

  /** Several words: the first is one scan step, the rest follow by induction. */
  lemma {:induction false} JoinMany(line: string, pos: nat, s: Scan, ws: seq<string>)
    requires |ws| > 1 && forall i :: 0 <= i < |ws| ==> Word(ws[i])
    requires pos + |Join(ws)| <= |line| && line[pos..pos + |Join(ws)|] == Join(ws)
    requires pos + |Join(ws)| < |line| ==> line[pos + |Join(ws)|] in DELIMS
    requires s.pending == NORMAL && |s.argv| + |ws| < MAXARGS - 1
    ensures ScanFrom(line, pos, s) == ScanFrom(line, pos + |Join(ws)| + 1, s.(argv := s.argv + ws))
    decreases |ws|, 0
  {
    var q := pos + |ws[0]| + 1;
    var s' := s.(argv := s.argv + [ws[0]]);
    JoinStep(line, pos, s, ws);
    assert forall i :: 0 <= i < |ws[1..]| ==> Word(ws[1..][i]);
    ScanJoin(line, q, s', ws[1..]);
    ConsArgs(s.argv, ws);
  }

  /** The first of several joined words is scanned, and the rest of the words follows it. */
  lemma JoinStep(line: string, pos: nat, s: Scan, ws: seq<string>)
    requires |ws| > 1 && Word(ws[0])
    requires pos + |Join(ws)| <= |line| && line[pos..pos + |Join(ws)|] == Join(ws)
    requires s.pending == NORMAL && |s.argv| + 1 < MAXARGS - 1
    ensures var q := pos + |ws[0]| + 1;
      && q + |Join(ws[1..])| == pos + |Join(ws)|
      && line[q..q + |Join(ws[1..])|] == Join(ws[1..])
      && ScanFrom(line, pos, s) == ScanFrom(line, q, s.(argv := s.argv + [ws[0]]))
  {
    var w, rest := ws[0], Join(ws[1..]);
    assert Join(ws) == w + " " + rest;
    SliceParts(line, pos, w, rest);
    ScanWord(line, pos, s, w);
  }

  /**
   * A line of blank-separated plain words, with delimiters after it (the
   * newline `fgets` keeps, say), parses into those words; a last word
   * opening with `&` is dropped and makes the job a background one.
   */
  lemma WordsParse(ws: seq<string>, tail: string)
    requires ws != [] && |ws| < MAXARGS - 1 && forall i :: 0 <= i < |ws| ==> Word(ws[i])
    requires Word(ws[|ws| - 1]) && forall j :: 0 <= j < |tail| ==> tail[j] in DELIMS
    requires |Join(ws) + tail| < MAXLINE
    ensures var last := ws[|ws| - 1];
      var bg := last[0] == '&';
      ParseLine(Some(Join(ws) + tail)) ==
        Done(Parsed(Tokens(if bg then ws[..|ws| - 1] else ws, None, None, BuiltinOf(ws[0])), bg))
  {
    var line := Join(ws) + tail;
    WordsScan(ws, tail);
    ParseOf(line, START.(argv := ws));
  }

  /** Text followed by delimiters: the text is the prefix, and only delimiters come after it. */
  lemma DelimTail(j: string, tail: string)
    requires forall k :: 0 <= k < |tail| ==> tail[k] in DELIMS
    ensures (j + tail)[0..|j|] == j
    ensures forall k :: |j| <= k < |j + tail| ==> (j + tail)[k] in DELIMS
  {
    forall k | |j| <= k < |j + tail| ensures (j + tail)[k] in DELIMS {
      assert (j + tail)[k] == tail[k - |j|];
    }
  }

  /** The scan of a line of plain words collects exactly those words. */
  lemma WordsScan(ws: seq<string>, tail: string)
    requires ws != [] && |ws| < MAXARGS - 1 && forall i :: 0 <= i < |ws| ==> Word(ws[i])
    requires forall j :: 0 <= j < |tail| ==> tail[j] in DELIMS
    ensures ScanFrom(Join(ws) + tail, 0, START) == Some(START.(argv := ws))
  {
    DelimTail(Join(ws), tail);
    WordsScanAt(Join(ws) + tail, ws);
  }

  /** The same, for a line given as a whole: the words, then only delimiters. */
  lemma WordsScanAt(line: string, ws: seq<string>)
    requires ws != [] && |ws| < MAXARGS - 1 && forall i :: 0 <= i < |ws| ==> Word(ws[i])
    requires |Join(ws)| <= |line| && line[0..|Join(ws)|] == Join(ws)
    requires forall k :: |Join(ws)| <= k < |line| ==> line[k] in DELIMS
    ensures ScanFrom(line, 0, START) == Some(START.(argv := ws))
  {
    var n := |Join(ws)|;
    ScanJoin(line, 0, START, ws);
    var s1 := START.(argv := ws);
    assert START.(argv := START.argv + ws) == s1;
    ScanBlank(line, n + 1, s1);
  }

  /** A line short enough to copy parses to what its scan built. */
  lemma ParseOf(line: string, s: Scan)
    requires |line| < MAXLINE && ScanFrom(line, 0, START) == Some(s)
    ensures ParseLine(Some(line)) == Done(Finish(s))
  {
  }

  /** A `<` or `>` at `pos`: -1 when its file is set already, else the redirection waits for a name. */
  lemma ScanRedirect(line: string, pos: nat, s: Scan)
    requires pos < |line| && (line[pos] == '<' || line[pos] == '>') && |s.argv| < MAXARGS - 1 && Waiting(s)
    ensures line[pos] == '<' ==>
      ScanFrom(line, pos, s) == if s.infile.Some? then None else ScanFrom(line, pos + 1, s.(pending := s.pending.(input := true)))
    ensures line[pos] == '>' ==>
      ScanFrom(line, pos, s) == if s.outfile.Some? then None else ScanFrom(line, pos + 1, s.(pending := s.pending.(output := true)))
  {
    assert Span(line, pos, DELIMS) == pos;
  }

  /**
   * `< name` or `> name` at `pos`, with one blank between and a delimiter
   * or the end after: the name becomes that file.
   */
  lemma ScanRedirectFile(line: string, pos: nat, s: Scan, name: string)
    requires pos + 2 + |name| <= |line| && line[pos + 1] == ' ' && line[pos + 2..pos + 2 + |name|] == name
    requires line[pos] == '<' || line[pos] == '>'
    requires pos + 2 + |name| < |line| ==> line[pos + 2 + |name|] in DELIMS
    requires Word(name) && s.pending == NORMAL && |s.argv| < MAXARGS - 1
    requires line[pos] == '<' ==> s.infile.None?
    requires line[pos] == '>' ==> s.outfile.None?
    ensures line[pos] == '<' ==> ScanFrom(line, pos, s) == ScanFrom(line, pos + 3 + |name|, s.(infile := Some(name)))
    ensures line[pos] == '>' ==> ScanFrom(line, pos, s) == ScanFrom(line, pos + 3 + |name|, s.(outfile := Some(name)))
  {
    var s' := if line[pos] == '<' then s.(pending := Pending(true, false)) else s.(pending := Pending(false, true));
    ScanRedirect(line, pos, s);
    ScanDelim(line, pos + 1, s');
    ScanWord(line, pos + 2, s', name);
  }

  /** The words at the start of a line, with a delimiter or the end after them. */
  lemma ScanJoinPrefix(line: string, ws: seq<string>, rest: string)
    requires ws != [] && |ws| < MAXARGS - 1 && forall i :: 0 <= i < |ws| ==> Word(ws[i])
    requires rest == [] || rest[0] in DELIMS
    requires line == Join(ws) + rest
    ensures ScanFrom(line, 0, START) == ScanFrom(line, |Join(ws)| + 1, START.(argv := ws))
  {
    assert line[0..|Join(ws)|] == Join(ws);
    assert |Join(ws)| < |line| ==> line[|Join(ws)|] == rest[0];
    ScanJoin(line, 0, START, ws);
    assert START.(argv := START.argv + ws) == START.(argv := ws);
  }

  /** `pre`, then `< name` or `> name`, then a delimiter or the end. */
  lemma ScanRedirectIn(line: string, pre: string, c: char, name: string, rest: string, s: Scan)
    requires c == '<' || c == '>'
    requires rest == [] || rest[0] in DELIMS
    requires Word(name) && s.pending == NORMAL && |s.argv| < MAXARGS - 1
    requires c == '<' ==> s.infile.None?
    requires c == '>' ==> s.outfile.None?
    requires line == pre + [c, ' '] + name + rest
    ensures ScanFrom(line, |pre|, s) ==
      ScanFrom(line, |pre| + 3 + |name|, if c == '<' then s.(infile := Some(name)) else s.(outfile := Some(name)))
  {
    var pos := |pre|;
    assert line[pos] == c && line[pos + 1] == ' ';
    assert line[pos + 2..pos + 2 + |name|] == name;
    assert pos + 2 + |name| < |line| ==> line[pos + 2 + |name|] == rest[0];
    ScanRedirectFile(line, pos, s, name);
  }

  /** `words < in > out` sets both files and keeps the words as arguments. */
  lemma RedirectParse(ws: seq<string>, input: string, output: string)
    requires ws != [] && |ws| < MAXARGS - 1 && forall i :: 0 <= i < |ws| ==> Word(ws[i])
    requires Word(input) && Word(output) && Word(ws[|ws| - 1]) && ws[|ws| - 1][0] != '&'
    requires |Join(ws) + " < " + input + " > " + output| < MAXLINE
    ensures ParseLine(Some(Join(ws) + " < " + input + " > " + output)) ==
      Done(Parsed(Tokens(ws, Some(input), Some(output), BuiltinOf(ws[0])), false))
  {
    RedirectScan(ws, input, output);
    ParseOf(Join(ws) + " < " + input + " > " + output, Scan(ws, Some(input), Some(output), NORMAL));
  }

  lemma RedirectScan(ws: seq<string>, input: string, output: string)
    requires ws != [] && |ws| < MAXARGS - 1 && forall i :: 0 <= i < |ws| ==> Word(ws[i])
    requires Word(input) && Word(output)
    ensures ScanFrom(Join(ws) + " < " + input + " > " + output, 0, START) == Some(Scan(ws, Some(input), Some(output), NORMAL))
  {
    WordsThenInput(Join(ws) + " < " + input + " > " + output, ws, input, " > " + output);
    RedirectOutput(ws, input, output);
  }

  /** Words, then `< input`: the words are the arguments and `input` the input file. */
  lemma WordsThenInput(line: string, ws: seq<string>, input: string, rest: string)
    requires ws != [] && |ws| < MAXARGS - 1 && forall i :: 0 <= i < |ws| ==> Word(ws[i])
    requires Word(input) && (rest == [] || rest[0] in DELIMS)
    requires line == Join(ws) + " < " + input + rest
    ensures ScanFrom(line, 0, START) ==
      ScanFrom(line, |Join(ws)| + 4 + |input|, START.(argv := ws, infile := Some(input)))
  {
    ScanJoinPrefix(line, ws, " < " + input + rest);
    InputAfterWords(line, ws, input, rest);
  }

  lemma InputAfterWords(line: string, ws: seq<string>, input: string, rest: string)
    requires ws != [] && |ws| < MAXARGS - 1 && Word(input) && (rest == [] || rest[0] in DELIMS)
    requires line == Join(ws) + " < " + input + rest
    ensures ScanFrom(line, |Join(ws)| + 1, START.(argv := ws)) ==
      ScanFrom(line, |Join(ws)| + 4 + |input|, START.(argv := ws, infile := Some(input)))
  {
    var pre := Join(ws) + " ";
    assert line == pre + ['<', ' '] + input + rest;
    ScanRedirectIn(line, pre, '<', input, rest, START.(argv := ws));
  }

  lemma RedirectOutput(ws: seq<string>, input: string, output: string)
    requires ws != [] && |ws| < MAXARGS - 1 && forall i :: 0 <= i < |ws| ==> Word(ws[i])
    requires Word(input) && Word(output)
    ensures ScanFrom(Join(ws) + " < " + input + " > " + output, |Join(ws)| + 4 + |input|, START.(argv := ws, infile := Some(input))) ==
      Some(Scan(ws, Some(input), Some(output), NORMAL))
  {
    var line := Join(ws) + " < " + input + " > " + output;
    var pre := Join(ws) + " < " + input + " ";
    assert line == pre + ['>', ' '] + output + "";
    ScanRedirectIn(line, pre, '>', output, "", START.(argv := ws, infile := Some(input)));
  }

  /** Text between matching quotes is one argument, without the quotes. */
  lemma QuotedParse(q: char, text: string)
    requires IsQuote(q) && (forall j :: 0 <= j < |text| ==> text[j] != q)
    requires (text == [] || text[0] != '&') && |text| + 2 < MAXLINE
    ensures ParseLine(Some([q] + text + [q])) == Done(Parsed(Tokens([text], None, None, BuiltinOf(text)), false))
  {
    var line := [q] + text + [q];
    var e: nat := |text| + 1;
    assert forall j :: 1 <= j < e ==> line[j] == text[j - 1];
    assert line[e] == q && forall j :: 1 <= j < e ==> line[j] != q;
    assert StrChr(line, 1, q) == Some(e);
    assert TokenAt(line, 0) == Some((1 as nat, e));
    assert line[1..e] == text;
    var s1 := START.(argv := [text]);
    assert START.argv + [text] == [text];
    assert Record(START, text) == Some(s1);
    assert Span(line, 0, DELIMS) == 0;
    assert ScanFrom(line, 0, START) == ScanAt(line, 0, START) == ScanFrom(line, e + 1, s1) == Some(s1);
    ParseOf(line, s1);
  }

  /** An opening quote with no partner is -1. */
  lemma UnmatchedQuote(q: char, text: string)
    requires IsQuote(q) && (forall j :: 0 <= j < |text| ==> text[j] != q) && |text| + 1 < MAXLINE
    ensures ParseLine(Some([q] + text)) == Done(Error)
  {
    var line := [q] + text;
    assert forall j :: 1 <= j < |line| ==> line[j] == text[j - 1];
    assert TokenAt(line, 0) == None;
    assert Span(line, 0, DELIMS) == 0;
    assert ScanFrom(line, 0, START) == ScanAt(line, 0, START) == None;
  }

  /** A redirection with no file name after it is -1. */
  lemma MissingFileName(ws: seq<string>)
    requires ws != [] && |ws| < MAXARGS - 1 && forall i :: 0 <= i < |ws| ==> Word(ws[i])
    requires |Join(ws) + " <"| < MAXLINE
    ensures ParseLine(Some(Join(ws) + " <")) == Done(Error)
  {
    var j := Join(ws);
    var line := j + " <";
    var n := |j|;
    assert line[0..n] == j && line[n] == ' ' && line[n + 1] == '<';
    ScanJoin(line, 0, START, ws);
    var s1 := START.(argv := ws);
    assert START.(argv := START.argv + ws) == s1;
    ScanRedirect(line, n + 1, s1);
    var s2 := s1.(pending := Pending(true, false));
    assert ScanFrom(line, n + 2, s2) == Some(s2);
    ParseOf(line, s2);
  }

  /** A second `<` once the input file is set is -1, whatever follows it. */
  lemma RepeatedInput(ws: seq<string>, input: string, more: string)
    requires ws != [] && |ws| < MAXARGS - 1 && forall i :: 0 <= i < |ws| ==> Word(ws[i])
    requires Word(input) && |Join(ws) + " < " + input + " <" + more| < MAXLINE
    ensures ParseLine(Some(Join(ws) + " < " + input + " <" + more)) == Done(Error)
  {
    var line := Join(ws) + " < " + input + " <" + more;
    var p := |Join(ws)| + 4 + |input|;
    var s := START.(argv := ws, infile := Some(input));
    assert line == Join(ws) + " < " + input + (" <" + more);
    WordsThenInput(line, ws, input, " <" + more);
    assert line[p] == '<' by {
      var head := Join(ws) + " < " + input;
      assert line == head + (" <" + more) && |head| + 1 == p;
    }
    ScanRedirect(line, p, s);
  }

  /** A word read while both redirections wait for their file is -1. */
  lemma BothPending(ws: seq<string>, w: string)
    requires ws != [] && |ws| < MAXARGS - 1 && forall i :: 0 <= i < |ws| ==> Word(ws[i])
    requires Word(w) && |Join(ws) + " < > " + w| < MAXLINE
    ensures ParseLine(Some(Join(ws) + " < > " + w)) == Done(Error)
  {
    var line := Join(ws) + " < > " + w;
    assert line == Join(ws) + (" < > " + w);
    ScanJoinPrefix(line, ws, " < > " + w);
    BothPendingAt(line, Join(ws), w, START.(argv := ws));
  }

  /** After `pre`, `< > w` leaves both redirections waiting when the word comes. */
  lemma BothPendingAt(line: string, pre: string, w: string, s: Scan)
    requires line == pre + " < > " + w && Word(w)
    requires s.pending == NORMAL && s.infile.None? && s.outfile.None? && |s.argv| < MAXARGS - 1
    ensures ScanFrom(line, |pre| + 1, s) == None
  {
    var p := |pre| + 1;
    var s2 := s.(pending := Pending(true, false));
    var s3 := s.(pending := Pending(true, true));
    BothPendingChars(line, pre, w);
    assert ScanFrom(line, p, s) == ScanFrom(line, p + 4, s3) by {
      ScanRedirect(line, p, s);
      ScanDelim(line, p + 1, s2);
      ScanRedirect(line, p + 2, s2);
      ScanDelim(line, p + 3, s3);
    }
    ScanWordBlocked(line, p + 4, s3, w);
  }

  lemma BothPendingChars(line: string, pre: string, w: string)
    requires line == pre + " < > " + w
    ensures var p := |pre| + 1;
      && line[p] == '<' && line[p + 1] == ' ' && line[p + 2] == '>' && line[p + 3] == ' '
      && p + 4 + |w| == |line| && line[p + 4..] == w
  {
  }

  lemma ScanWordBlocked(line: string, pos: nat, s: Scan, w: string)
    requires pos + |w| <= |line| && line[pos..pos + |w|] == w && Word(w)
    requires |s.argv| < MAXARGS - 1 && s.pending == Pending(true, true) && Waiting(s)
    ensures ScanFrom(line, pos, s) == None
  {
    assert line[pos] == w[0];
    assert Span(line, pos, DELIMS) == pos;
  }
}
