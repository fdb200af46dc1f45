/** The output filter of the terminal server: every chunk a shell session
    prints goes through three passes before it is sent to the browser. Each
    pass that is triggered splits the chunk on line feeds, rewrites each line
    and joins the lines again:
      1. javac errors: `error:` lines red, caret lines yellow, `N errors`
         summaries bold red;
      2. every `WARNING:` token bold yellow;
      3. Java exceptions: headers bold red, stack frames and `Caused by:`
         lines gray. */
module Highlight {
  import opened Strings
  import opened Sgr

  const WarningMark: string := "WARNING:"

  /** `\x1b[1;33mWARNING:\x1b[0m`. */
  const WarningHighlight: string := Wrap(BoldYellow, WarningMark)

  /** `s.split('\n').map(f).join('\n')`. With a line rule that adds no line
      feed, the result splits into exactly the rewritten lines; a rule that
      leaves every line alone gives back the chunk. */
  function Rewrite(f: string -> string, s: string): (r: string)
    ensures (forall x :: '\n' !in x ==> '\n' !in f(x)) ==> Split(r, '\n') == Map(f, Split(s, '\n'))
    ensures (forall i :: 0 <= i < |Split(s, '\n')| ==> f(Split(s, '\n')[i]) == Split(s, '\n')[i]) ==> r == s
  {
    RewriteLines(f, s);
    RewriteUnchanged(f, s);
    Join(Map(f, Split(s, '\n')), '\n')
  }

  // ---------------------------------------------------------------------
  // Pass 1: javac errors

  predicate IsDigit(c: char) {
    '0' <= c <= '9'
  }

  /** The number of leading decimal digits of `s`. */
  function DigitRun(s: string): (n: nat)
    ensures n <= |s|
    ensures forall i :: 0 <= i < n ==> IsDigit(s[i])
    ensures n < |s| ==> !IsDigit(s[n])
    decreases |s|
  {
    if s != [] && IsDigit(s[0]) then 1 + DigitRun(s[1..]) else 0
  }

  /** A non-empty run of decimal digits, the `\d+` of the summary pattern. */
  predicate IsCount(d: string) {
    |d| >= 1 && forall i :: 0 <= i < |d| ==> IsDigit(d[i])
  }

  /** `/^\d+ errors?$/.test(line)`. The greedy digit run is the only one
      that can be followed by a space. */
  predicate MatchesSummary(line: string) {
    var d := DigitRun(line);
    d >= 1 && (line[d..] == " error" || line[d..] == " errors")
  }

  /** `line.trim().startsWith('^')`: the marker line under a javac error. */
  predicate IsCaretLine(line: string) {
    StartsWith(Trim(line), "^")
  }

  /** `line.includes('errors') && line.match(/^\d+ errors?$/)`. */
  predicate IsSummaryLine(line: string) {
    Contains(line, "errors") && MatchesSummary(line)
  }

  /** The line rule of pass 1; the first matching case wins. */
  function ErrorLine(line: string): (r: string)
    ensures Contains(line, "error:") <==> r == Wrap(Red, line)
    ensures r == Wrap(Yellow, line) <==> !Contains(line, "error:") && IsCaretLine(line)
    ensures r == Wrap(BoldRed, line) <==>
      !Contains(line, "error:") && !IsCaretLine(line) && IsSummaryLine(line)
    ensures r == line <==>
      !Contains(line, "error:") && !IsCaretLine(line) && !IsSummaryLine(line)
    ensures '\n' !in line ==> '\n' !in r
  {
    DistinctCodes(line);
    if Contains(line, "error:") then Wrap(Red, line)
    else if IsCaretLine(line) then Wrap(Yellow, line)
    else if IsSummaryLine(line) then Wrap(BoldRed, line)
    else line
  }

  /** Pass 1 runs when the chunk holds `error:` or `errors`. */
  predicate ErrorTriggered(s: string) {
    Contains(s, "error:") || Contains(s, "errors")
  }

  /** Pass 1 keeps the number of lines; a triggered pass rewrites every line
      by the pass-1 rule, an untriggered one returns the chunk; a chunk whose
      lines all match no rule comes out unchanged. */
  function ErrorPass(s: string): (r: string)
    ensures |Split(r, '\n')| == |Split(s, '\n')|
    ensures forall i :: 0 <= i < |Split(s, '\n')| ==>
      Split(r, '\n')[i] == if ErrorTriggered(s) then ErrorLine(Split(s, '\n')[i]) else Split(s, '\n')[i]
    ensures (forall i :: 0 <= i < |Split(s, '\n')| ==> ErrorLine(Split(s, '\n')[i]) == Split(s, '\n')[i])
      ==> r == s
  {
    if ErrorTriggered(s) then Rewrite(ErrorLine, s) else s
  }

  // ---------------------------------------------------------------------
  // Pass 2: warnings

  /** The line rule of pass 2: `line.replace(/WARNING:/g, ...)` on lines that
      hold the token. */
  function WarningLine(line: string): (r: string)
    ensures r == line <==> !Contains(line, WarningMark)
    ensures Esc !in line ==> ReplaceAll(r, WarningHighlight, WarningMark) == line
    ensures '\n' !in line ==> '\n' !in r
  {
    ReplacedWarnings(line);
    if Contains(line, WarningMark) then ReplaceAll(line, WarningMark, WarningHighlight) else line
  }

  /** Highlighting the tokens of a line that holds one changes it, can be
      undone on a line without escapes, and adds no line feed. */
  lemma ReplacedWarnings(line: string)
    ensures Contains(line, WarningMark) ==> ReplaceAll(line, WarningMark, WarningHighlight) != line
    ensures Esc !in line ==>
      ReplaceAll(ReplaceAll(line, WarningMark, WarningHighlight), WarningHighlight, WarningMark) == line
    ensures '\n' !in line ==> '\n' !in ReplaceAll(line, WarningMark, WarningHighlight)
  {
    WarningHighlightChars();
    ReplaceAllGrows(line, WarningMark, WarningHighlight);
    if Esc !in line {
      ReplaceAllUndo(line, WarningMark, WarningHighlight);
    }
  }

  /** Every `WARNING:` of a line is highlighted, not only the first: an
      occurrence between any two texts becomes the highlighted token, and
      the texts on either side are highlighted in turn. */
  lemma WarningLineEvery(a: string, b: string)
    ensures WarningLine(a + WarningMark + b) ==
      ReplaceAll(a, WarningMark, WarningHighlight) + WarningHighlight + ReplaceAll(b, WarningMark, WarningHighlight)
  {
    assert forall i :: 0 < i < |WarningMark| ==> WarningMark[i] != WarningMark[0];
    ReplaceAllAround(a, WarningMark, WarningHighlight, b);
    var line := a + WarningMark + b;
    assert line[|a|..|a| + |WarningMark|] == WarningMark;
    ContainsAt(line, WarningMark, |a|);
  }

  /** Pass 2 runs when the chunk holds `WARNING:`. */
  predicate WarningTriggered(s: string) {
    Contains(s, WarningMark)
  }

  /** Pass 2 keeps the number of lines, rewrites each line by the pass-2 rule
      when triggered, and returns a chunk whose lines it leaves alone unchanged. */
  function WarningPass(s: string): (r: string)
    ensures |Split(r, '\n')| == |Split(s, '\n')|
    ensures forall i :: 0 <= i < |Split(s, '\n')| ==>
      Split(r, '\n')[i] == if WarningTriggered(s) then WarningLine(Split(s, '\n')[i]) else Split(s, '\n')[i]
    ensures (forall i :: 0 <= i < |Split(s, '\n')| ==> WarningLine(Split(s, '\n')[i]) == Split(s, '\n')[i])
      ==> r == s
  {
    if WarningTriggered(s) then Rewrite(WarningLine, s) else s
  }

  // ---------------------------------------------------------------------
  // Pass 3: exceptions and stack traces

  /** `line.includes('Exception in thread') || line.includes('Exception:')`. */
  predicate IsExceptionHeader(line: string) {
    Contains(line, "Exception in thread") || Contains(line, "Exception:")
  }

  /** `line.trim().startsWith('at ') || line.includes('Caused by:')`. */
  predicate IsTraceLine(line: string) {
    StartsWith(Trim(line), "at ") || Contains(line, "Caused by:")
  }

  /** The line rule of pass 3; headers win over trace lines. */
  function ExceptionLine(line: string): (r: string)
    ensures IsExceptionHeader(line) <==> r == Wrap(BoldRed, line)
    ensures r == Wrap(Gray, line) <==> !IsExceptionHeader(line) && IsTraceLine(line)
    ensures r == line <==> !IsExceptionHeader(line) && !IsTraceLine(line)
    ensures '\n' !in line ==> '\n' !in r
  {
    DistinctCodes(line);
    if IsExceptionHeader(line) then Wrap(BoldRed, line)
    else if IsTraceLine(line) then Wrap(Gray, line)
    else line
  }

  /** Pass 3 runs when the chunk holds `Exception`, a tab followed by `at `,
      or `Caused by:`. */
  predicate ExceptionTriggered(s: string) {
    Contains(s, "Exception") || Contains(s, "\tat ") || Contains(s, "Caused by:")
  }

  /** Pass 3 keeps the number of lines, rewrites each line by the pass-3 rule
      when triggered, and returns a chunk whose lines match no rule unchanged. */
  function ExceptionPass(s: string): (r: string)
    ensures |Split(r, '\n')| == |Split(s, '\n')|
    ensures forall i :: 0 <= i < |Split(s, '\n')| ==>
      Split(r, '\n')[i] == if ExceptionTriggered(s) then ExceptionLine(Split(s, '\n')[i]) else Split(s, '\n')[i]
    ensures (forall i :: 0 <= i < |Split(s, '\n')| ==> ExceptionLine(Split(s, '\n')[i]) == Split(s, '\n')[i])
      ==> r == s
  {
    if ExceptionTriggered(s) then Rewrite(ExceptionLine, s) else s
  }

  /** The whole filter applied to one chunk of session output, the passes in
      the order the server runs them. It keeps the number of lines of every
      chunk. */
  function Highlight(s: string): (r: string)
    ensures |Split(r, '\n')| == |Split(s, '\n')|
  {
    ExceptionPass(WarningPass(ErrorPass(s)))
  }

  // ---------------------------------------------------------------------
  // Facts about the codes

  /** The four colours a line can get are told apart by the result, and a
      wrapped line is never the line itself. */
  lemma DistinctCodes(line: string)
    ensures Wrap(Red, line) != Wrap(Yellow, line) && Wrap(Red, line) != Wrap(BoldRed, line)
    ensures Wrap(Yellow, line) != Wrap(BoldRed, line) && Wrap(BoldRed, line) != Wrap(Gray, line)
    ensures Wrap(Red, line) != Wrap(Gray, line) && Wrap(Yellow, line) != Wrap(Gray, line)
    ensures Wrap(Red, line) != line && Wrap(Yellow, line) != line
    ensures Wrap(BoldRed, line) != line && Wrap(Gray, line) != line
    ensures '\n' !in line ==>
      '\n' !in Wrap(Red, line) && '\n' !in Wrap(Yellow, line) &&
      '\n' !in Wrap(BoldRed, line) && '\n' !in Wrap(Gray, line)
  {
    assert Red[3] != Yellow[3] && Red[2] != Gray[2] && Yellow[2] != Gray[2];
    assert |Red| != |BoldRed| && |Yellow| != |BoldRed| && |BoldRed| != |Gray|;
    if Wrap(Red, line) == Wrap(Yellow, line) { WrapDeterminesCode(Red, Yellow, line); }
    if Wrap(Red, line) == Wrap(BoldRed, line) { WrapDeterminesCode(Red, BoldRed, line); }
    if Wrap(Yellow, line) == Wrap(BoldRed, line) { WrapDeterminesCode(Yellow, BoldRed, line); }
    if Wrap(BoldRed, line) == Wrap(Gray, line) { WrapDeterminesCode(BoldRed, Gray, line); }
    if Wrap(Red, line) == Wrap(Gray, line) { WrapDeterminesCode(Red, Gray, line); }
    if Wrap(Yellow, line) == Wrap(Gray, line) { WrapDeterminesCode(Yellow, Gray, line); }
    CodesAreSgr();
    CodesArePlain();
  }

  lemma WarningHighlightFacts()
    ensures |WarningHighlight| > |WarningMark| && WarningHighlight[0] == Esc
    ensures '\n' !in WarningHighlight && Esc !in WarningMark && 'W' == WarningMark[0]
    ensures Clean(WarningHighlight) && Visible(WarningHighlight) == WarningMark
  {
    WarningHighlightChars();
    WarningHighlightShows();
  }

  lemma WarningHighlightChars()
    ensures |WarningHighlight| > |WarningMark| && WarningHighlight[0] == Esc
    ensures '\n' !in WarningHighlight && Esc !in WarningMark && 'W' == WarningMark[0]
  {
    assert '\n' !in BoldYellow by { CodeChars("1;33"); }
    assert '\n' !in Reset by { CodeChars("0"); }
    assert BoldYellow[0] == Esc;
    assert WarningHighlight == BoldYellow + (WarningMark + Reset);
    assert Esc !in WarningMark;
  }

  /** The highlighted token is still shown as `WARNING:`. */
  lemma WarningHighlightShows()
    ensures Clean(WarningHighlight) && Visible(WarningHighlight) == WarningMark
  {
    CodesAreSgr();
    CodesArePlain();
    PlainText(WarningMark);
    WrapKeepsText(BoldYellow, WarningMark);
  }

  /** A replacement longer than its pattern lengthens every text that holds
      the pattern. */
  lemma {:induction false} ReplaceAllGrows(s: string, pat: string, rep: string)
    requires pat != [] && |rep| > |pat|
    ensures |ReplaceAll(s, pat, rep)| >= |s|
    ensures Contains(s, pat) ==> |ReplaceAll(s, pat, rep)| > |s|
    decreases |s|
  {
    if s != [] {
      if StartsWith(s, pat) {
        ReplaceAllGrows(s[|pat|..], pat, rep);
      } else {
        ReplaceAllGrows(s[1..], pat, rep);
      }
    }
  }

  // ---------------------------------------------------------------------
  // Line structure of the passes

  /** Joining lines rewritten by a rule that adds no line feed and splitting
      again yields exactly the rewritten lines. */
  lemma RewriteLines(f: string -> string, s: string)
    ensures (forall x :: '\n' !in x ==> '\n' !in f(x)) ==>
      Split(Join(Map(f, Split(s, '\n')), '\n'), '\n') == Map(f, Split(s, '\n'))
  {
    if forall x :: '\n' !in x ==> '\n' !in f(x) {
      SplitJoin(Map(f, Split(s, '\n')), '\n');
    }
  }

  /** A rule that leaves every line as it is gives back the chunk. */
  lemma RewriteUnchanged(f: string -> string, s: string)
    ensures (forall i :: 0 <= i < |Split(s, '\n')| ==> f(Split(s, '\n')[i]) == Split(s, '\n')[i]) ==>
      Join(Map(f, Split(s, '\n')), '\n') == s
  {
    if forall i :: 0 <= i < |Split(s, '\n')| ==> f(Split(s, '\n')[i]) == Split(s, '\n')[i] {
      assert Map(f, Split(s, '\n')) == Split(s, '\n');
      JoinSplit(s, '\n');
    }
  }

  /** A chunk holding none of the six trigger strings is sent unchanged. */
  lemma HighlightQuiet(s: string)
    requires !Contains(s, "error:") && !Contains(s, "errors") && !Contains(s, WarningMark)
    requires !Contains(s, "Exception") && !Contains(s, "\tat ") && !Contains(s, "Caused by:")
    ensures Highlight(s) == s
  {
  }

  // ---------------------------------------------------------------------
  // The filter only adds colour

  /** Pass 1 changes nothing a reader sees on a clean line. */
  lemma ErrorLineKeepsText(line: string)
    requires Clean(line)
    ensures Clean(ErrorLine(line)) && Visible(ErrorLine(line)) == Visible(line)
  {
    CodesAreSgr();
    CodesArePlain();
    if ErrorLine(line) != line {
      WrapKeepsText(Red, line);
      WrapKeepsText(Yellow, line);
      WrapKeepsText(BoldRed, line);
    }
  }

  /** Pass 3 changes nothing a reader sees on a clean line. */
  lemma ExceptionLineKeepsText(line: string)
    requires Clean(line)
    ensures Clean(ExceptionLine(line)) && Visible(ExceptionLine(line)) == Visible(line)
  {
    CodesAreSgr();
    CodesArePlain();
    if ExceptionLine(line) != line {
      WrapKeepsText(BoldRed, line);
      WrapKeepsText(Gray, line);
    }
  }

  /** Pass 2 changes nothing a reader sees on a clean line: every complete
      SGR sequence of the line is skipped by the replacement, and every
      replaced `WARNING:` is still shown as `WARNING:`. */
  lemma {:induction false} ReplaceWarningKeepsText(x: string)
    requires Clean(x)
    ensures Clean(ReplaceAll(x, WarningMark, WarningHighlight))
    ensures Visible(ReplaceAll(x, WarningMark, WarningHighlight)) == Visible(x)
    decreases |x|
  {
    if x == [] {
    } else if SgrAt(x) > 0 {
      ReplaceWarningKeepsText(x[SgrAt(x)..]);
      WarningSkipsSgr(x);
    } else if StartsWith(x, WarningMark) {
      WarningMarkShown(x);
      ReplaceWarningKeepsText(x[|WarningMark|..]);
      WarningMarkReplaced(x);
    } else {
      ReplaceWarningKeepsText(x[1..]);
      WarningPlainChar(x);
    }
  }

  /** Pass 2 on a clean line that opens with an SGR sequence. */
  lemma WarningSkipsSgr(x: string)
    requires Clean(x) && SgrAt(x) > 0
    requires var t := x[SgrAt(x)..];
      Clean(ReplaceAll(t, WarningMark, WarningHighlight)) &&
      Visible(ReplaceAll(t, WarningMark, WarningHighlight)) == Visible(t)
    ensures Clean(ReplaceAll(x, WarningMark, WarningHighlight))
    ensures Visible(ReplaceAll(x, WarningMark, WarningHighlight)) == Visible(x)
  {
    var k := SgrAt(x);
    var e, t := x[..k], x[k..];
    SgrHead(x);
    SgrCharacters(e);
    assert WarningMark[0] == 'W';
    CutAt(x, k);
    ReplaceAllSkips(e, t, WarningMark, WarningHighlight);
    CodeInFront(e, ReplaceAll(t, WarningMark, WarningHighlight));
    assert Visible(x) == Visible(t);
  }

  /** A clean line that opens with `WARNING:` shows it, then the rest. */
  lemma WarningMarkShown(x: string)
    requires Clean(x) && StartsWith(x, WarningMark)
    ensures Clean(x[|WarningMark|..])
    ensures Visible(x) == WarningMark + Visible(x[|WarningMark|..])
  {
    WarningHighlightFacts();
    var rest := x[|WarningMark|..];
    assert WarningMark + rest == x;
    PlainPrefix(WarningMark, rest);
  }

  /** Pass 2 on a clean line that opens with `WARNING:`. */
  lemma WarningMarkReplaced(x: string)
    requires Clean(x) && StartsWith(x, WarningMark)
    requires var t := x[|WarningMark|..];
      Clean(ReplaceAll(t, WarningMark, WarningHighlight)) &&
      Visible(ReplaceAll(t, WarningMark, WarningHighlight)) == Visible(t)
    ensures Clean(ReplaceAll(x, WarningMark, WarningHighlight))
    ensures Visible(ReplaceAll(x, WarningMark, WarningHighlight)) == Visible(x)
  {
    WarningHighlightFacts();
    WarningMarkShown(x);
    CleanConcat(WarningHighlight, ReplaceAll(x[|WarningMark|..], WarningMark, WarningHighlight));
  }

  /** Pass 2 on a clean line that opens with a character kept as it is. */
  lemma WarningPlainChar(x: string)
    requires Clean(x) && x != [] && SgrAt(x) == 0 && !StartsWith(x, WarningMark)
    requires var t := x[1..];
      Clean(ReplaceAll(t, WarningMark, WarningHighlight)) &&
      Visible(ReplaceAll(t, WarningMark, WarningHighlight)) == Visible(t)
    ensures Clean(ReplaceAll(x, WarningMark, WarningHighlight))
    ensures Visible(ReplaceAll(x, WarningMark, WarningHighlight)) == Visible(x)
  {
    var c := [x[0]];
    assert Esc !in c;
    PlainText(c);
    CleanConcat(c, ReplaceAll(x[1..], WarningMark, WarningHighlight));
  }

  /** The characters of a complete SGR sequence: the escape, the bracket,
      parameter characters and the final `m`. None of them is a `W`. */
  lemma SgrCharacters(e: string)
    requires IsSgr(e)
    ensures 'W' !in e
  {
    var n := ParamRun(e[2..]);
    forall i | 0 <= i < |e|
      ensures e[i] != 'W'
    {
      if 2 <= i < 2 + n {
        assert e[2..][i - 2] == e[i];
      }
    }
  }

  lemma WarningLineKeepsText(line: string)
    requires Clean(line)
    ensures Clean(WarningLine(line)) && Visible(WarningLine(line)) == Visible(line)
  {
    ReplaceWarningKeepsText(line);
  }

  /** Line `i` of `t` is clean and shows line `i` of `s`, for every line. */
  ghost predicate Shows(t: string, s: string) {
    var out := Split(t, '\n');
    var src := Split(s, '\n');
    |out| == |src| && forall i :: 0 <= i < |out| ==> Clean(out[i]) && Visible(out[i]) == src[i]
  }

  lemma ErrorPassShows(t: string, s: string)
    requires Shows(t, s)
    ensures Shows(ErrorPass(t), s)
  {
    if ErrorTriggered(t) {
      forall i | 0 <= i < |Split(t, '\n')|
        ensures Clean(ErrorLine(Split(t, '\n')[i]))
        ensures Visible(ErrorLine(Split(t, '\n')[i])) == Visible(Split(t, '\n')[i])
      {
        ErrorLineKeepsText(Split(t, '\n')[i]);
      }
    }
  }

  lemma WarningPassShows(t: string, s: string)
    requires Shows(t, s)
    ensures Shows(WarningPass(t), s)
  {
    if WarningTriggered(t) {
      forall i | 0 <= i < |Split(t, '\n')|
        ensures Clean(WarningLine(Split(t, '\n')[i]))
        ensures Visible(WarningLine(Split(t, '\n')[i])) == Visible(Split(t, '\n')[i])
      {
        WarningLineKeepsText(Split(t, '\n')[i]);
      }
    }
  }

  lemma ExceptionPassShows(t: string, s: string)
    requires Shows(t, s)
    ensures Shows(ExceptionPass(t), s)
  {
    if ExceptionTriggered(t) {
      forall i | 0 <= i < |Split(t, '\n')|
        ensures Clean(ExceptionLine(Split(t, '\n')[i]))
        ensures Visible(ExceptionLine(Split(t, '\n')[i])) == Visible(Split(t, '\n')[i])
      {
        ExceptionLineKeepsText(Split(t, '\n')[i]);
      }
    }
  }

  /** The colours added by the filter are the only change a reader of the
      terminal can see: on a chunk without escape characters, removing the
      SGR sequences from the filtered chunk gives back the chunk. */
  lemma HighlightShowsSameText(s: string)
    requires Esc !in s
    ensures Visible(Highlight(s)) == s
  {
    var src := Split(s, '\n');
    forall i | 0 <= i < |src|
      ensures Clean(src[i]) && Visible(src[i]) == src[i]
    {
      PlainText(src[i]);
    }
    assert Shows(s, s);
    ErrorPassShows(s, s);
    WarningPassShows(ErrorPass(s), s);
    ExceptionPassShows(WarningPass(ErrorPass(s)), s);
    var out := Split(Highlight(s), '\n');
    JoinSplit(Highlight(s), '\n');
    VisibleJoin(out);
    assert VisibleLines(out) == src;
    JoinSplit(s, '\n');
  }

  // ---------------------------------------------------------------------
  // The summary rule

  lemma {:induction false} DigitRunOf(d: string, rest: string)
    requires forall i :: 0 <= i < |d| ==> IsDigit(d[i])
    requires rest != [] && !IsDigit(rest[0])
    ensures DigitRun(d + rest) == |d|
    decreases |d|
  {
    if d == [] {
      assert d + rest == rest;
    } else {
      assert (d + rest)[1..] == d[1..] + rest;
      DigitRunOf(d[1..], rest);
    }
  }

  /** A line starting with a character other than whitespace and `^` is not
      a caret line. */
  lemma NotCaretLine(line: string)
    requires line != [] && !IsSpace(line[0]) && line[0] != '^'
    ensures !IsCaretLine(line)
  {
    assert TrimStart(line) == line;
  }

  /** A summary line is bolded exactly when it is a count followed by
      ` errors`: the `includes('errors')` guard leaves the optional `s` of
      the pattern no room. */
  lemma SummaryLineIff(line: string)
    ensures IsSummaryLine(line) <==> exists d :: IsCount(d) && line == d + " errors"
  {
    if IsSummaryLine(line) {
      SummaryLineIsCount(line);
    }
    if exists d :: IsCount(d) && line == d + " errors" {
      var d :| IsCount(d) && line == d + " errors";
      CountIsSummaryLine(d);
    }
  }

  lemma SummaryLineIsCount(line: string)
    requires IsSummaryLine(line)
    ensures IsCount(line[..DigitRun(line)]) && line == line[..DigitRun(line)] + " errors"
  {
    var n := DigitRun(line);
    var d := line[..n];
    assert line == d + line[n..];
    if line[n..] == " error" {
      CountHasNo(d, " error", 's');
      MissingChar(line, "errors", 's');
    }
  }

  lemma CountIsSummaryLine(d: string)
    requires IsCount(d)
    ensures IsSummaryLine(d + " errors")
  {
    var line := d + " errors";
    DigitRunOf(d, " errors");
    assert line[|d|..] == " errors";
    assert line[|d| + 1..|d| + 1 + 6] == "errors";
    ContainsAt(line, "errors", |d| + 1);
  }

  /** A text lacking one of the characters of `t` does not contain `t`. */
  lemma MissingChar(s: string, t: string, c: char)
    requires c in t && c !in s
    ensures !Contains(s, t)
  {
    if Contains(s, t) {
      ContainsChars(s, t);
    }
  }

  /** A count followed by `rest` holds only digits and the characters of `rest`. */
  lemma CountHasNo(d: string, rest: string, c: char)
    requires IsCount(d) && !IsDigit(c) && c !in rest
    ensures c !in d + rest
  {
  }

  /** A singular summary such as `1 error` is never coloured. */
  lemma SingularSummaryUntouched(d: string)
    requires IsCount(d)
    ensures ErrorLine(d + " error") == d + " error"
  {
    var line := d + " error";
    CountHasNo(d, " error", ':');
    MissingChar(line, "error:", ':');
    CountHasNo(d, " error", 's');
    MissingChar(line, "errors", 's');
    NotCaretLine(line);
  }

  /** A summary that ends in a carriage return, as lines do when a terminal
      translates line feeds, is not bolded and passes pass 1 unchanged: the
      pattern's `$` does not match before `\r`. */
  lemma CarriageReturnSummaryUntouched(d: string)
    requires IsCount(d)
    ensures ErrorLine(d + " errors\r") == d + " errors\r"
  {
    var line := d + " errors\r";
    CountHasNo(d, " errors\r", ':');
    MissingChar(line, "error:", ':');
    NotCaretLine(line);
    DigitRunOf(d, " errors\r");
    assert line[|d|..] == " errors\r";
  }

  /** A bolded summary: a count followed by ` errors`. */
  lemma PluralSummaryBold(d: string)
    requires IsCount(d)
    ensures ErrorLine(d + " errors") == Wrap(BoldRed, d + " errors")
  {
    var line := d + " errors";
    SummaryLineIff(line);
    CountHasNo(d, " errors", ':');
    MissingChar(line, "error:", ':');
    NotCaretLine(line);
  }
}
