/**
 The line tokenizer of the shell (parseLine in main.c). readLine hands over a
 buffer whose end is marked by a '#' sentinel rather than a NUL; the scan
 splits it into arguments at runs of spaces, lets a double quote switch a
 "path" mode in which spaces are kept, drops the quotes themselves, and
 afterwards turns a final "&" argument into the background flag.
 */
module Tokenizer {

  /** Size of the buffer parseLine mallocs for each argument, terminator included. */
  const ARG_MAX := 128
  /** Number of slots of the argument vector parseLine mallocs. */
  const ARGS_MAX := 512
  /** The end-of-line marker readLine writes. */
  const SENTINEL := '#'

  /** The part of a buffer that the scan looks at: everything before the first sentinel. */
  function Content(line: string): (c: string)
    ensures |c| <= |line| && c == line[..|c|]
    ensures SENTINEL !in c
    ensures SENTINEL in line ==> |c| < |line| && line[|c|] == SENTINEL
    ensures SENTINEL !in line ==> c == line
  {
    if line == [] || line[0] == SENTINEL then [] else [line[0]] + Content(line[1..])
  }

  /** Below its first sentinel a line reads as its content; the sentinel itself ends it. */
  lemma ContentAt(line: string, i: nat)
    requires SENTINEL in line && i <= |Content(line)|
    ensures line[i] == SENTINEL <==> i == |Content(line)|
    ensures i < |Content(line)| ==> line[i] == Content(line)[i]
  {
  }

  /** The index of the first non-space at or after i (or |c|). */
  function SkipFrom(c: string, i: nat): (k: nat)
    requires i <= |c|
    ensures i <= k <= |c|
    ensures k == |c| || c[k] != ' '
    decreases |c| - i
  {
    if i < |c| && c[i] == ' ' then SkipFrom(c, i + 1) else i
  }

  /**
   Reads one argument starting at index i in quoted mode `quoted`: characters
   are taken up to the first space met outside quoted mode; each '"' flips the
   mode and is not copied. Returns the argument and the index where it ended.
   */
  function ScanFrom(c: string, i: nat, quoted: bool): (r: (string, nat))
    requires i <= |c|
    ensures i <= r.1 <= |c| && |r.0| <= r.1 - i
    ensures r.1 < |c| ==> c[r.1] == ' '
    ensures i < |c| && (quoted || c[i] != ' ') ==> r.1 > i
    ensures '"' !in r.0
    decreases |c| - i
  {
    if i == |c| || (c[i] == ' ' && !quoted) then ([], i)
    else if c[i] == '"' then ScanFrom(c, i + 1, !quoted)
    else
      var r := ScanFrom(c, i + 1, quoted);
      ([c[i]] + r.0, r.1)
  }

  /**
   The arguments the scan produces from index i on: skip spaces, read one
   argument, skip spaces, and repeat while text remains. A text of spaces only
   therefore still yields one (empty) argument.
   */
  function SplitFrom(c: string, i: nat): (argv: seq<string>)
    requires i <= |c|
    ensures i == |c| <==> argv == []
    decreases |c| - i
  {
    if i == |c| then []
    else
      var word := ScanFrom(c, SkipFrom(c, i), false);
      [word.0] + SplitFrom(c, SkipFrom(c, word.1))
  }

  /**
   One round of the scan: if `done` are the arguments read before index i,
   the argument read from i follows them in the full vector.
   */
  lemma SplitAdvance(c: string, i: nat, done: seq<string>)
    requires i < |c| && done + SplitFrom(c, i) == SplitFrom(c, 0)
    ensures var word := ScanFrom(c, SkipFrom(c, i), false);
            && |done| < |SplitFrom(c, 0)| && SplitFrom(c, 0)[|done|] == word.0
            && (done + [word.0]) + SplitFrom(c, SkipFrom(c, word.1)) == SplitFrom(c, 0)
  {
    var word := ScanFrom(c, SkipFrom(c, i), false);
    assert SplitFrom(c, i) == [word.0] + SplitFrom(c, SkipFrom(c, word.1));
    assert done + SplitFrom(c, i) == (done + [word.0]) + SplitFrom(c, SkipFrom(c, word.1));
  }

  /**
   One step of the copy loop: the character at k is dropped if a quote (which
   flips the mode) and appended to the copied prefix otherwise; the argument
   being built and the index where it ends stay the same.
   */
  lemma ScanStep(c: string, k: nat, quoted: bool, copied: string, w: string, end: nat)
      returns (quoted': bool, copied': string)
    requires k < |c| && (c[k] != ' ' || quoted)
    requires w == copied + ScanFrom(c, k, quoted).0 && end == ScanFrom(c, k, quoted).1
    ensures quoted' == (if c[k] == '"' then !quoted else quoted)
    ensures copied' == if c[k] == '"' then copied else copied + [c[k]]
    ensures w == copied' + ScanFrom(c, k + 1, quoted').0 && end == ScanFrom(c, k + 1, quoted').1
  {
    quoted' := if c[k] == '"' then !quoted else quoted;
    copied' := if c[k] == '"' then copied else copied + [c[k]];
  }

  /** What parseLine's scan makes of a sentinel-terminated line. */
  function Tokens(line: string): (argv: seq<string>)
    ensures argv == [] <==> Content(line) == []
  {
    SplitFrom(Content(line), 0)
  }

  /** The vector fits parseLine's fixed buffers (neither bound is checked by the source). */
  predicate Fits(argv: seq<string>)
  {
    |argv| <= ARGS_MAX && forall k :: 0 <= k < |argv| ==> |argv[k]| < ARG_MAX
  }

  /** Advances past a run of spaces, never beyond the sentinel (main.c:174-176, 197-199). */
  method SkipBlanks(line: string, i: nat) returns (k: nat)
    requires SENTINEL in line && i <= |Content(line)|
    ensures k == SkipFrom(Content(line), i)
  {
    ghost var c := Content(line);
    k := i;
    ContentAt(line, k);
    while line[k] != SENTINEL && line[k] == ' '
      invariant i <= k <= |c| && (line[k] == SENTINEL <==> k == |c|)
      invariant k < |c| ==> line[k] == c[k]
      invariant SkipFrom(c, k) == SkipFrom(c, i)
      decreases |c| - k
    {
      k := k + 1;
      ContentAt(line, k);
    }
  }

  /**
   Copies one argument into the buffer arg (main.c:178-192): characters up to a
   space outside path mode or the sentinel, quotes flipping the mode and not
   copied, then the terminating NUL. Path mode is off whenever an argument
   starts, since the scan can only stop in path mode at the sentinel.
   */
  method CopyArgument(line: string, i: nat, arg: array<char>) returns (k: nat, len: nat)
    requires SENTINEL in line && i <= |Content(line)|
    requires |ScanFrom(Content(line), i, false).0| < arg.Length
    modifies arg
    ensures len < arg.Length && arg[..len] == ScanFrom(Content(line), i, false).0
    ensures arg[len] == '\0'
    ensures k == ScanFrom(Content(line), i, false).1
  {
    ghost var c := Content(line);
    ghost var w := ScanFrom(c, i, false).0;
    ghost var end := ScanFrom(c, i, false).1;
    ghost var copied: string := [];
    var path := false;
    var j := 0;
    k := i;
    ContentAt(line, k);
    while line[k] != SENTINEL && (line[k] != ' ' || path)
      modifies arg
      invariant i <= k <= |c| && w == copied + ScanFrom(c, k, path).0
      invariant j == |copied| && arg[..j] == copied
      invariant end == ScanFrom(c, k, path).1
      invariant line[k] == SENTINEL <==> k == |c|
      invariant k < |c| ==> line[k] == c[k]
      decreases |c| - k
    {
      ghost var path', copied' := ScanStep(c, k, path, copied, w, end);
      if line[k] != '"' {
        arg[j] := line[k];
        j := j + 1;
      } else {
        path := !path;
      }
      copied := copied';
      k := k + 1;
      ContentAt(line, k);
    }
    arg[j] := '\0';
    assert arg[..j] == copied;
    len := j;
  }

  /**
   The character scan of parseLine (main.c:153-201): reads the line only up to
   its first sentinel and collects the arguments, each copied into a fresh
   ARG_MAX-character buffer. The vector is collected as a sequence; that it
   stays within parseLine's ARGS_MAX slots is asserted at each store.
   */
  method Tokenize(line: string) returns (argv: seq<string>)
    requires SENTINEL in line
    requires Fits(Tokens(line))
    ensures argv == Tokens(line)
  {
    ghost var c := Content(line);
    argv := [];
    var i := 0;
    ContentAt(line, i);
    while line[i] != SENTINEL
      invariant 0 <= i <= |c| && (line[i] == SENTINEL <==> i == |c|)
      invariant argv + SplitFrom(c, i) == SplitFrom(c, 0)
      decreases |c| - i
    {
      var arg := new char[ARG_MAX];
      SplitAdvance(c, i, argv);
      i := SkipBlanks(line, i);
      var len;
      i, len := CopyArgument(line, i, arg);
      // argv[argc] = arg
      assert |argv| < ARGS_MAX;
      argv := argv + [arg[..len]];
      i := SkipBlanks(line, i);
      ContentAt(line, i);
    }
  }

  /** The vector after the background marker is handled (main.c:204-209). */
  datatype Command = Command(args: seq<string>, background: bool)

  /**
   A final argument that is exactly "&" is removed and sets the background
   flag; any other vector is left as it is. The source reads argv[argc-1], so
   the vector must not be empty.
   */
  function StripBackground(argv: seq<string>): (r: Command)
    requires |argv| >= 1
    ensures r.background <==> argv[|argv| - 1] == "&"
    ensures r.background ==> r.args + ["&"] == argv
    ensures !r.background ==> r.args == argv
  {
    if argv[|argv| - 1] == "&" then Command(argv[..|argv| - 1], true) else Command(argv, false)
  }

  /** What parseLine hands to the dispatcher for a line. */
  function Request(line: string): (r: Command)
    requires SENTINEL in line && Content(line) != []
    ensures Tokens(line) != [] && (r.background <==> Tokens(line)[|Tokens(line)| - 1] == "&")
    ensures r.args == Tokens(line)[..|Tokens(line)| - (if r.background then 1 else 0)]
  {
    StripBackground(Tokens(line))
  }

  /**
   parseLine up to the dispatch (main.c:153-209): the scan, then the
   background marker. A line with nothing before its sentinel gives argc == 0
   and the source then reads argv[-1], so that line is excluded.
   */
  method ParseLine(line: string) returns (argv: seq<string>, background: bool)
    requires SENTINEL in line && Content(line) != []
    requires Fits(Tokens(line))
    ensures Command(argv, background) == Request(line)
  {
    argv := Tokenize(line);
    background := false;
    if argv[|argv| - 1] == "&" {
      argv := argv[..|argv| - 1];
      background := true;
    }
  }

  // ---------------------------------------------------------------------------
  // Where the scan stops reading

  /** Text after the first sentinel is never looked at. */
  lemma {:induction false} ContentStopsAtSentinel(line: string, t: string)
    requires SENTINEL in line
    ensures Content(line + t) == Content(line)
  {
    if line[0] != SENTINEL {
      assert (line + t)[1..] == line[1..] + t;
      ContentStopsAtSentinel(line[1..], t);
    }
  }

  /** Appending anything after a sentinel leaves the arguments unchanged. */
  lemma TokensStopAtSentinel(line: string, t: string)
    requires SENTINEL in line
    ensures Tokens(line + t) == Tokens(line)
  {
    ContentStopsAtSentinel(line, t);
  }

  /** A text without a sentinel, once terminated, is read in full. */
  lemma ContentOfTerminated(p: string)
    requires SENTINEL !in p
    ensures Content(p + [SENTINEL]) == p
  {
  }

  /** An empty line yields no arguments at all: argc is 0 (main.c:167). */
  lemma EmptyLineNoArguments(t: string)
    ensures Tokens([SENTINEL] + t) == []
  {
  }

  /** A line of spaces only yields one empty argument (main.c:167-194). */
  lemma BlankLineOneEmptyArgument(n: nat, t: string)
    requires n >= 1
    ensures Tokens(Spaces(n) + [SENTINEL] + t) == [""]
  {
    ContentStopsAtSentinel(Spaces(n) + [SENTINEL], t);
    ContentOfTerminated(Spaces(n));
    SkipOver(Spaces(n), 0, n);
  }

  // ---------------------------------------------------------------------------
  // What the arguments may contain

  /** A character absent from the text is absent from an argument scanned from it. */
  lemma {:induction false} ScanAvoids(c: string, i: nat, quoted: bool, ch: char)
    requires i <= |c| && ch !in c
    ensures ch !in ScanFrom(c, i, quoted).0
    decreases |c| - i
  {
    if i == |c| || (c[i] == ' ' && !quoted) {
    } else if c[i] == '"' {
      ScanAvoids(c, i + 1, !quoted, ch);
    } else {
      ScanAvoids(c, i + 1, quoted, ch);
    }
  }

  /** Outside quoted mode, and with no quote ahead, no space is ever copied. */
  lemma {:induction false} ScanNoSpace(c: string, i: nat)
    requires i <= |c| && '"' !in c
    ensures ' ' !in ScanFrom(c, i, false).0
    decreases |c| - i
  {
    if i < |c| && c[i] != ' ' {
      ScanNoSpace(c, i + 1);
    }
  }

  /**
   No argument holds a quote or a character the text avoids; without quotes
   in the text, no argument holds a space.
   */
  lemma {:induction false} SplitAvoids(c: string, i: nat, ch: char)
    requires i <= |c| && ch !in c
    ensures forall k :: 0 <= k < |SplitFrom(c, i)| ==> '"' !in SplitFrom(c, i)[k] && ch !in SplitFrom(c, i)[k]
    ensures '"' !in c ==> forall k :: 0 <= k < |SplitFrom(c, i)| ==> ' ' !in SplitFrom(c, i)[k]
    decreases |c| - i
  {
    if i < |c| {
      var word := ScanFrom(c, SkipFrom(c, i), false);
      var rest := SplitFrom(c, SkipFrom(c, word.1));
      SplitUnfold(c, i);
      ScanAvoids(c, SkipFrom(c, i), false, ch);
      if '"' !in c {
        ScanNoSpace(c, SkipFrom(c, i));
      }
      SplitAvoids(c, SkipFrom(c, word.1), ch);
      assert forall k :: 0 < k < |SplitFrom(c, i)| ==> SplitFrom(c, i)[k] == rest[k - 1];
    }
  }

  /**
   No argument contains a quote or the sentinel, and a line without quotes
   gives arguments without spaces (main.c:180-189).
   */
  lemma TokensClean(line: string)
    ensures forall k :: 0 <= k < |Tokens(line)| ==> '"' !in Tokens(line)[k] && SENTINEL !in Tokens(line)[k]
    ensures '"' !in Content(line) ==> forall k :: 0 <= k < |Tokens(line)| ==> ' ' !in Tokens(line)[k]
  {
    SplitAvoids(Content(line), 0, SENTINEL);
  }

  // ---------------------------------------------------------------------------
  // Reading back a line laid out from words

  /** n spaces. */
  function Spaces(n: nat): (s: string)
    ensures |s| == n && forall k :: 0 <= k < n ==> s[k] == ' '
  {
    seq(n, _ => ' ')
  }

  /** A word the scan reads back as itself: non-empty, no space, quote or sentinel. */
  predicate PlainWord(w: string)
  {
    w != [] && ' ' !in w && '"' !in w && SENTINEL !in w
  }

  /** A word that can be written on a line at all: no quote and no sentinel. */
  predicate Writable(w: string)
  {
    '"' !in w && SENTINEL !in w
  }

  /** How a word is written on a line: a plain word as it is, any other inside quotes. */
  function Render(w: string): string
  {
    if PlainWord(w) then w else "\"" + w + "\""
  }

  /** Each word rendered. */
  function Rendered(ws: seq<string>): (rs: seq<string>)
    ensures |rs| == |ws| && forall k :: 0 <= k < |ws| ==> rs[k] == Render(ws[k])
  {
    seq(|ws|, k requires 0 <= k < |ws| => Render(ws[k]))
  }

  /** The texts, each followed by its gap of spaces. */
  function Spread(rs: seq<string>, gaps: seq<nat>): string
    requires |gaps| == |rs|
  {
    if rs == [] then [] else rs[0] + Spaces(gaps[0]) + Spread(rs[1..], gaps[1..])
  }

  /** Every gap between two words holds at least one space (the last may be empty). */
  predicate Separated(ws: seq<string>, gaps: seq<nat>)
  {
    |gaps| == |ws| && forall k :: 0 <= k < |gaps| - 1 ==> gaps[k] >= 1
  }

  /** The words joined by single spaces, as the jobs listing prints a vector. */
  function Unwords(ws: seq<string>): string
  {
    if ws == [] then [] else if |ws| == 1 then ws[0] else ws[0] + " " + Unwords(ws[1..])
  }

  /** One space after every word but the last. */
  function SingleGaps(n: nat): seq<nat>
  {
    seq(n, k => if k < n - 1 then 1 else 0)
  }

  /** Joining by single spaces is a separated layout. */
  lemma {:induction false} UnwordsSpread(ws: seq<string>)
    ensures Separated(ws, SingleGaps(|ws|)) && Unwords(ws) == Spread(ws, SingleGaps(|ws|))
    decreases |ws|
  {
    if ws != [] {
      var n := |ws|;
      assert SingleGaps(n)[1..] == SingleGaps(n - 1);
      UnwordsSpread(ws[1..]);
      if n == 1 {
        assert Spread(ws, SingleGaps(n)) == ws[0] + Spaces(0) + [];
      } else {
        assert Spaces(1) == " ";
      }
    }
  }

  /** A skip over a run of n spaces ending before a non-space ends after the run. */
  lemma {:induction false} SkipOver(c: string, i: nat, n: nat)
    requires i + n <= |c| && forall m :: i <= m < i + n ==> c[m] == ' '
    requires i + n == |c| || c[i + n] != ' '
    ensures SkipFrom(c, i) == i + n
    decreases n
  {
    if n > 0 {
      SkipOver(c, i + 1, n - 1);
    }
  }

  /** A word without spaces or quotes, followed by a space or the end, is read as itself. */
  lemma {:induction false} ScanWord(c: string, i: nat, w: string)
    requires i + |w| <= |c| && c[i..i + |w|] == w
    requires ' ' !in w && '"' !in w
    requires i + |w| == |c| || c[i + |w|] == ' '
    ensures ScanFrom(c, i, false) == (w, i + |w|)
    decreases |w|
  {
    if w != [] {
      assert c[i] == w[0] && w[0] in w;
      assert c[i + 1..i + 1 + |w[1..]|] == w[1..];
      ScanWord(c, i + 1, w[1..]);
      assert [w[0]] + w[1..] == w;
    }
  }

  /** In quoted mode a text without quotes is copied whole, spaces included. */
  lemma {:induction false} ScanQuotedText(c: string, i: nat, w: string)
    requires i + |w| <= |c| && c[i..i + |w|] == w && '"' !in w
    ensures ScanFrom(c, i, true).0 == w + ScanFrom(c, i + |w|, true).0
    ensures ScanFrom(c, i, true).1 == ScanFrom(c, i + |w|, true).1
    decreases |w|
  {
    if w != [] {
      assert c[i] == w[0] && w[0] in w;
      assert c[i + 1..i + 1 + |w[1..]|] == w[1..];
      ScanQuotedText(c, i + 1, w[1..]);
      assert [w[0]] + (w[1..] + ScanFrom(c, i + |w|, true).0) == w + ScanFrom(c, i + |w|, true).0;
    }
  }

  /** A quoted text followed by a space or the end is read back without its quotes. */
  lemma ScanQuoted(c: string, i: nat, w: string)
    requires '"' !in w && i + |w| + 2 <= |c| && c[i] == '"' && c[i + 1..i + 1 + |w|] == w && c[i + 1 + |w|] == '"'
    requires i + |w| + 2 == |c| || c[i + |w| + 2] == ' '
    ensures ScanFrom(c, i, false) == (w, i + |w| + 2)
  {
    var e := i + 1 + |w|;
    ScanQuotedText(c, i + 1, w);
    assert ScanFrom(c, e, true) == ([], e + 1);
    assert w + [] == w;
  }

  /** A rendered word followed by a space or the end is read back as the word. */
  lemma ScanRendered(c: string, i: nat, w: string)
    requires Writable(w) && i + |Render(w)| <= |c| && c[i..i + |Render(w)|] == Render(w)
    requires i + |Render(w)| == |c| || c[i + |Render(w)|] == ' '
    ensures ScanFrom(c, i, false) == (w, i + |Render(w)|)
  {
    var r := Render(w);
    if PlainWord(w) {
      ScanWord(c, i, w);
    } else {
      assert r == "\"" + w + "\"" && r[1..1 + |w|] == w;
      SliceInside(c, i, r, 1, 1 + |w|);
      assert c[i] == r[0] && c[i + 1 + |w|] == r[|r| - 1];
      ScanQuoted(c, i, w);
    }
  }

  /** A slice of a text found at i is found at the shifted place. */
  lemma SliceInside(c: string, i: nat, r: string, a: nat, b: nat)
    requires i + |r| <= |c| && c[i..i + |r|] == r && a <= b <= |r|
    ensures c[i + a..i + b] == r[a..b]
  {
    forall k | a <= k < b
      ensures c[k + i] == r[k]
    {
      assert r[k] == c[i..i + |r|][k];
    }
  }

  /** A rendered word starts with a character other than a space. */
  lemma RenderStart(w: string)
    requires Writable(w)
    ensures Render(w) != [] && Render(w)[0] != ' '
  {
    if PlainWord(w) {
      assert w[0] in w;
    }
  }

  /** One round of the scan, from a position before the end. */
  lemma SplitUnfold(c: string, i: nat)
    requires i < |c|
    ensures var word := ScanFrom(c, SkipFrom(c, i), false);
            SplitFrom(c, i) == [word.0] + SplitFrom(c, SkipFrom(c, word.1))
  {
  }

  /**
   A rendered word at i, followed by g spaces and then by a non-space or the
   end, is read as one argument; the scan resumes after the spaces.
   */
  lemma SplitWordAt(c: string, i: nat, w: string, g: nat, rest: seq<string>)
    requires Writable(w) && i + |Render(w)| + g <= |c| && c[i..i + |Render(w)|] == Render(w)
    requires forall m :: i + |Render(w)| <= m < i + |Render(w)| + g ==> c[m] == ' '
    requires i + |Render(w)| + g == |c| || c[i + |Render(w)| + g] != ' '
    requires g >= 1 || i + |Render(w)| == |c|
    requires SplitFrom(c, i + |Render(w)| + g) == rest
    ensures SplitFrom(c, i) == [w] + rest
  {
    RenderStart(w);
    assert c[i] == Render(w)[0];
    ScanRendered(c, i, w);
    SkipOver(c, i, 0);
    SkipOver(c, i + |Render(w)|, g);
    SplitUnfold(c, i);
  }

  /** From index i on, c holds the texts rs, each followed by its gap of spaces. */
  predicate LaidOut(c: string, i: nat, rs: seq<string>, gaps: seq<nat>)
    decreases |rs|
  {
    i <= |c| && |gaps| == |rs| &&
    if rs == [] then i == |c|
    else
      var e := i + |rs[0]|;
      e + gaps[0] <= |c| && c[i..e] == rs[0] &&
      (forall m :: e <= m < e + gaps[0] ==> c[m] == ' ') &&
      LaidOut(c, e + gaps[0], rs[1..], gaps[1..])
  }

  /** A prefix followed by a spread of texts lays the texts out after the prefix. */
  lemma {:induction false} SpreadLaidOut(p: string, rs: seq<string>, gaps: seq<nat>)
    requires |gaps| == |rs|
    ensures LaidOut(p + Spread(rs, gaps), |p|, rs, gaps)
    decreases |rs|
  {
    if rs != [] {
      var p' := p + rs[0] + Spaces(gaps[0]);
      var rest := Spread(rs[1..], gaps[1..]);
      assert p + Spread(rs, gaps) == p' + rest;
      SpreadLaidOut(p', rs[1..], gaps[1..]);
      var c := p' + rest;
      var e := |p| + |rs[0]|;
      assert c[|p|..e] == rs[0];
      assert forall m :: e <= m < e + gaps[0] ==> c[m] == Spaces(gaps[0])[m - e];
    }
  }

  /** Separated writable words, rendered and laid out from index i, are read back exactly. */
  lemma {:induction false} SplitLaidOut(c: string, i: nat, ws: seq<string>, gaps: seq<nat>)
    requires LaidOut(c, i, Rendered(ws), gaps) && Separated(ws, gaps)
    requires forall k :: 0 <= k < |ws| ==> Writable(ws[k])
    ensures SplitFrom(c, i) == ws
    decreases |ws|
  {
    if ws != [] {
      var w, g := ws[0], gaps[0];
      var e := i + |Render(w)|;
      assert Rendered(ws)[1..] == Rendered(ws[1..]);
      assert Separated(ws[1..], gaps[1..]);
      assert Writable(w);
      if ws[1..] != [] {
        assert Writable(ws[1]);
        RenderStart(ws[1]);
        assert c[e + g] == Render(ws[1])[0];
      }
      SplitLaidOut(c, e + g, ws[1..], gaps[1..]);
      SplitWordAt(c, i, w, g, ws[1..]);
      assert ws == [w] + ws[1..];
    }
  }

  /** A rendered line holds no sentinel. */
  lemma {:induction false} SpreadNoSentinel(ws: seq<string>, gaps: seq<nat>)
    requires |gaps| == |ws| && forall k :: 0 <= k < |ws| ==> Writable(ws[k])
    ensures SENTINEL !in Spread(Rendered(ws), gaps)
    decreases |ws|
  {
    if ws != [] {
      assert Rendered(ws)[1..] == Rendered(ws[1..]);
      assert Writable(ws[0]);
      SpreadNoSentinel(ws[1..], gaps[1..]);
    }
  }

  /**
   Tokenizer round trip (main.c:173-200): writable words, rendered (quoted
   unless plain), separated by one or more spaces, after any number of leading
   spaces and terminated by the sentinel, are read back as exactly those words.
   */
  lemma TokensOfLayout(lead: nat, ws: seq<string>, gaps: seq<nat>)
    requires ws != [] && Separated(ws, gaps) && forall k :: 0 <= k < |ws| ==> Writable(ws[k])
    ensures Tokens(Spaces(lead) + Spread(Rendered(ws), gaps) + [SENTINEL]) == ws
  {
    var c := Spaces(lead) + Spread(Rendered(ws), gaps);
    SpreadNoSentinel(ws, gaps);
    assert SENTINEL !in c;
    ContentOfTerminated(c);
    SpreadLaidOut(Spaces(lead), Rendered(ws), gaps);
    assert Writable(ws[0]);
    RenderStart(ws[0]);
    assert c[lead] == Render(ws[0])[0];
    SkipOver(c, 0, lead);
    SkipOver(c, lead, 0);
    SplitUnfold(c, 0);
    SplitUnfold(c, lead);
    SplitLaidOut(c, lead, ws, gaps);
  }

  /** Plain words render as themselves. */
  lemma PlainRendered(ws: seq<string>)
    requires forall k :: 0 <= k < |ws| ==> PlainWord(ws[k])
    ensures Rendered(ws) == ws
  {
  }

  /**
   The plain round trip: non-empty words without space, quote or sentinel,
   joined by one or more spaces with any leading and trailing spaces, read
   back as exactly those words.
   */
  lemma TokensOfPlainLayout(lead: nat, ws: seq<string>, gaps: seq<nat>)
    requires ws != [] && Separated(ws, gaps) && forall k :: 0 <= k < |ws| ==> PlainWord(ws[k])
    ensures Tokens(Spaces(lead) + Spread(ws, gaps) + [SENTINEL]) == ws
  {
    PlainRendered(ws);
    TokensOfLayout(lead, ws, gaps);
  }

  /**
   Quoting round trip: any non-empty list of writable words, rendered and
   joined by single spaces, is read back exactly; a quoted span keeps its
   spaces and loses its quotes (main.c:180-189).
   */
  lemma QuotingRoundTrip(ws: seq<string>)
    requires ws != [] && forall k :: 0 <= k < |ws| ==> Writable(ws[k])
    ensures Tokens(Unwords(Rendered(ws)) + [SENTINEL]) == ws
  {
    UnwordsSpread(Rendered(ws));
    assert Spaces(0) + Unwords(Rendered(ws)) == Unwords(Rendered(ws));
    TokensOfLayout(0, ws, SingleGaps(|ws|));
  }

  /** `echo "a b" c` gives ["echo", "a b", "c"]. */
  lemma QuotedSpanExample()
    ensures Tokens("echo \"a b\" c#") == ["echo", "a b", "c"]
  {
    var ws := ["echo", "a b", "c"];
    assert "echo"[0] == 'e' && "c"[0] == 'c' && "a b"[1] == ' ';
    assert Render("echo") == "echo" && Render("a b") == "\"a b\"" && Render("c") == "c";
    assert Rendered(ws) == ["echo", "\"a b\"", "c"];
    assert Unwords(["c"]) == "c";
    assert ["\"a b\"", "c"][1..] == ["c"];
    assert Unwords(["\"a b\"", "c"]) == "\"a b\" c";
    assert ["echo", "\"a b\"", "c"][1..] == ["\"a b\"", "c"];
    assert Unwords(Rendered(ws)) + [SENTINEL] == "echo \"a b\" c#";
    QuotingRoundTrip(ws);
  }

  /** A line of plain words is read back as those words; not ending in "&", it runs in the foreground. */
  lemma ForegroundLine(ws: seq<string>)
    requires ws != [] && forall k :: 0 <= k < |ws| ==> PlainWord(ws[k])
    ensures Tokens(Unwords(ws) + [SENTINEL]) == ws
    ensures ws[|ws| - 1] != "&" ==> Request(Unwords(ws) + [SENTINEL]) == Command(ws, false)
  {
    PlainRendered(ws);
    QuotingRoundTrip(ws);
  }

  /**
   The background marker (main.c:204-209): plain words followed by a
   standalone "&" run in the background, without the marker.
   */
  lemma BackgroundMarker(ws: seq<string>)
    requires ws != [] && forall k :: 0 <= k < |ws| ==> PlainWord(ws[k])
    ensures Tokens(Unwords(ws + ["&"]) + [SENTINEL]) == ws + ["&"]
    ensures Request(Unwords(ws + ["&"]) + [SENTINEL]) == Command(ws, true)
  {
    var ws' := ws + ["&"];
    assert PlainWord("&") by {
      assert "&"[0] == '&';
    }
    assert forall k :: 0 <= k < |ws'| ==> PlainWord(ws'[k]);
    ForegroundLine(ws');
    StripMarker(ws);
  }

  /** Stripping a vector that ends in the marker gives back the rest, in the background. */
  lemma StripMarker(ws: seq<string>)
    ensures StripBackground(ws + ["&"]) == Command(ws, true)
  {
    assert (ws + ["&"])[..|ws|] == ws;
  }

  /** `sleep 5 &` runs ["sleep", "5"] in the background; `sleep 5` in the foreground. */
  lemma BackgroundExample()
    ensures Request("sleep 5 &#") == Command(["sleep", "5"], true)
    ensures Request("sleep 5#") == Command(["sleep", "5"], false)
  {
    SleepBackground();
    SleepForeground();
  }

  /** The words of the example are plain. */
  lemma SleepPlain()
    ensures forall k :: 0 <= k < |["sleep", "5"]| ==> PlainWord(["sleep", "5"][k])
  {
    assert "sleep"[0] == 's' && "5"[0] == '5';
    assert PlainWord("sleep") && PlainWord("5");
  }

  /** `sleep 5 &` runs in the background. */
  lemma SleepBackground()
    ensures Request("sleep 5 &#") == Command(["sleep", "5"], true)
  {
    var ws := ["sleep", "5"];
    SleepPlain();
    assert (ws + ["&"])[1..] == ["5", "&"] && ["5", "&"][1..] == ["&"];
    assert Unwords(["5", "&"]) == "5 &";
    assert Unwords(ws + ["&"]) + [SENTINEL] == "sleep 5 &#";
    BackgroundMarker(ws);
  }

  /** `sleep 5` runs in the foreground. */
  lemma SleepForeground()
    ensures Request("sleep 5#") == Command(["sleep", "5"], false)
  {
    var ws := ["sleep", "5"];
    SleepPlain();
    assert ws[1..] == ["5"] && Unwords(["5"]) == "5";
    assert Unwords(ws) + [SENTINEL] == "sleep 5#";
    ForegroundLine(ws);
  }
}
