/** ANSI "select graphic rendition" (SGR) escape sequences, `ESC [ params m`,
    the colour codes the output filter inserts, and the text a terminal
    shows once every complete SGR sequence is taken out. */
module Sgr {
  import opened Strings

  const Esc: char := '\U{1B}'

  /** `\x1b[${params}m`. */
  function Code(params: string): string {
    [Esc, '['] + params + "m"
  }

  /** The codes written by the output filter. */
  const Reset: string := Code("0")
  const Red: string := Code("31")
  const Yellow: string := Code("33")
  const BoldRed: string := Code("1;31")
  const BoldYellow: string := Code("1;33")
  const Gray: string := Code("90")

  /** `${code}${line}\x1b[0m`: a line shown in a colour, then the colour reset. */
  function Wrap(code: string, line: string): string {
    code + line + Reset
  }

  predicate IsParamChar(c: char) {
    '0' <= c <= '9' || c == ';'
  }

  /** The number of leading parameter characters of `s`. */
  function ParamRun(s: string): (n: nat)
    ensures n <= |s|
    ensures forall i :: 0 <= i < n ==> IsParamChar(s[i])
    ensures n < |s| ==> !IsParamChar(s[n])
    decreases |s|
  {
    if s != [] && IsParamChar(s[0]) then 1 + ParamRun(s[1..]) else 0
  }

  /** The length of the complete SGR sequence at the head of `s`, or 0 when
      `s` does not start with one. */
  function SgrAt(s: string): (n: nat)
    ensures n == 0 || (3 <= n <= |s| && s[0] == Esc && s[n - 1] == 'm')
  {
    if 2 <= |s| && s[0] == Esc && s[1] == '[' then
      var k := 2 + ParamRun(s[2..]);
      if k < |s| && s[k] == 'm' then k + 1 else 0
    else 0
  }

  /** The text a terminal shows: every complete SGR sequence removed, every
      other character kept. */
  function Visible(s: string): string
    decreases |s|
  {
    if s == [] then []
    else if SgrAt(s) > 0 then Visible(s[SgrAt(s)..])
    else [s[0]] + Visible(s[1..])
  }

  /** Every escape character of `s` starts a complete SGR sequence. */
  predicate Clean(s: string)
    decreases |s|
  {
    s == [] || (if SgrAt(s) > 0 then Clean(s[SgrAt(s)..]) else s[0] != Esc && Clean(s[1..]))
  }

  /** `e` is exactly one complete SGR sequence. */
  predicate IsSgr(e: string) {
    |e| > 0 && SgrAt(e) == |e|
  }

  lemma {:induction false} ParamRunAppend(a: string, b: string)
    requires ParamRun(a) < |a|
    ensures ParamRun(a + b) == ParamRun(a)
    decreases |a|
  {
    if IsParamChar(a[0]) {
      assert (a + b)[1..] == a[1..] + b;
      ParamRunAppend(a[1..], b);
    }
  }

  lemma {:induction false} ParamRunOf(params: string, rest: string)
    requires forall i :: 0 <= i < |params| ==> IsParamChar(params[i])
    requires rest != [] && !IsParamChar(rest[0])
    ensures ParamRun(params + rest) == |params|
    decreases |params|
  {
    if params == [] {
      assert params + rest == rest;
    } else {
      assert (params + rest)[1..] == params[1..] + rest;
      ParamRunOf(params[1..], rest);
    }
  }

  /** A code built from parameter characters is one complete SGR sequence. */
  lemma CodeIsSgr(params: string)
    requires forall i :: 0 <= i < |params| ==> IsParamChar(params[i])
    ensures IsSgr(Code(params))
  {
    var e := Code(params);
    assert e[2..] == params + "m";
    ParamRunOf(params, "m");
  }

  /** A complete SGR sequence stays complete whatever follows it. */
  lemma SgrPrefix(e: string, t: string)
    requires IsSgr(e)
    ensures SgrAt(e + t) == |e|
  {
    ParamRunAppend(e[2..], t);
    assert (e + t)[2..] == e[2..] + t;
  }

  /** The SGR sequence found at the head of a text is complete on its own. */
  lemma SgrHead(a: string)
    requires SgrAt(a) > 0
    ensures IsSgr(a[..SgrAt(a)])
  {
    var k := SgrAt(a);
    var e := a[..k];
    assert e[2..] + a[k..] == a[2..];
    assert ParamRun(a[2..]) == k - 3;
    ParamRunAppend(e[2..], a[k..]);
  }

  /** The filter's codes are complete SGR sequences. */
  lemma CodesAreSgr()
    ensures IsSgr(Reset) && IsSgr(Red) && IsSgr(Yellow)
    ensures IsSgr(BoldRed) && IsSgr(BoldYellow) && IsSgr(Gray)
  {
    ResetIsSgr();
    RedIsSgr();
    YellowIsSgr();
    BoldRedIsSgr();
    BoldYellowIsSgr();
    GrayIsSgr();
  }

  lemma ResetIsSgr() ensures IsSgr(Reset) { CodeIsSgr("0"); }
  lemma RedIsSgr() ensures IsSgr(Red) { CodeIsSgr("31"); }
  lemma YellowIsSgr() ensures IsSgr(Yellow) { CodeIsSgr("33"); }
  lemma BoldRedIsSgr() ensures IsSgr(BoldRed) { CodeIsSgr("1;31"); }
  lemma BoldYellowIsSgr() ensures IsSgr(BoldYellow) { CodeIsSgr("1;33"); }
  lemma GrayIsSgr() ensures IsSgr(Gray) { CodeIsSgr("90"); }

  /** No code of the filter holds a line feed or the first letter of `WARNING:`. */
  lemma CodesArePlain()
    ensures '\n' !in Reset && '\n' !in Red && '\n' !in Yellow
    ensures '\n' !in BoldRed && '\n' !in BoldYellow && '\n' !in Gray
    ensures 'W' !in Reset && 'W' !in Red && 'W' !in Yellow
    ensures 'W' !in BoldRed && 'W' !in BoldYellow && 'W' !in Gray
  {
    assert '\n' !in Reset && 'W' !in Reset by { CodeChars("0"); }
    assert '\n' !in Red && 'W' !in Red by { CodeChars("31"); }
    assert '\n' !in Yellow && 'W' !in Yellow by { CodeChars("33"); }
    assert '\n' !in BoldRed && 'W' !in BoldRed by { CodeChars("1;31"); }
    assert '\n' !in BoldYellow && 'W' !in BoldYellow by { CodeChars("1;33"); }
    assert '\n' !in Gray && 'W' !in Gray by { CodeChars("90"); }
  }

  /** A code built from parameter characters holds no line feed and no letter but `m`. */
  lemma CodeChars(params: string)
    requires forall i :: 0 <= i < |params| ==> IsParamChar(params[i])
    ensures '\n' !in Code(params) && 'W' !in Code(params)
  {
    assert forall c :: c in params ==> IsParamChar(c);
  }

  /** Visible text and cleanliness split at the end of a clean piece. */
  lemma {:induction false} CleanConcat(a: string, b: string)
    requires Clean(a)
    ensures Visible(a + b) == Visible(a) + Visible(b)
    ensures Clean(b) ==> Clean(a + b)
    decreases |a|
  {
    if a == [] {
      assert a + b == b;
    } else if SgrAt(a) > 0 {
      var k := SgrAt(a);
      SgrHead(a);
      SgrPrefix(a[..k], a[k..] + b);
      AppendAt(a, b, k);
      CleanConcat(a[k..], b);
    } else {
      CleanConcatChar(a, b);
      CleanConcat(a[1..], b);
    }
  }

  /** A character other than the escape is shown as it is, in front of
      whatever follows it. */
  lemma CleanConcatChar(a: string, b: string)
    requires a != [] && a[0] != Esc
    ensures SgrAt(a + b) == 0 && (a + b)[0] == a[0] && (a + b)[1..] == a[1..] + b
    ensures Visible(a + b) == [a[0]] + Visible(a[1..] + b)
    ensures Clean(a + b) <==> Clean(a[1..] + b)
  {
    AppendAt(a, b, 1);
    assert (a + b)[0] == a[0];
  }

  /** Text without escape characters is clean and shown as it is. */
  lemma {:induction false} PlainText(s: string)
    requires Esc !in s
    ensures Clean(s) && Visible(s) == s
    decreases |s|
  {
    if s != [] {
      assert SgrAt(s) == 0;
      PlainText(s[1..]);
      assert [s[0]] + s[1..] == s;
    }
  }

  /** Characters without escapes in front of a clean text stay visible as they are. */
  lemma {:induction false} PlainPrefix(a: string, b: string)
    requires Esc !in a && Clean(a + b)
    ensures Clean(b) && Visible(a + b) == a + Visible(b)
    decreases |a|
  {
    if a == [] {
      assert a + b == b;
    } else {
      CleanConcatChar(a, b);
      var t := a[1..];
      assert Esc !in t;
      PlainPrefix(t, b);
      AppendAssoc([a[0]], t, Visible(b));
      assert [a[0]] + t == a;
    }
  }

  /** A code in front of clean text adds nothing to what is shown. */
  lemma CodeInFront(e: string, t: string)
    requires IsSgr(e) && Clean(t)
    ensures Clean(e + t) && Visible(e + t) == Visible(t)
  {
    SgrPrefix(e, t);
    assert (e + t)[|e|..] == t;
  }

  /** Showing a line in a colour changes nothing a reader of the terminal
      sees, and keeps the line clean. */
  lemma WrapKeepsText(code: string, line: string)
    requires IsSgr(code) && Clean(line)
    ensures Clean(Wrap(code, line)) && Visible(Wrap(code, line)) == Visible(line)
  {
    ResetShowsNothing();
    Enclose(code, line, Reset);
  }

  /** A code in front and a clean, invisible text behind leave what a clean
      line shows as it is. */
  lemma Enclose(code: string, line: string, after: string)
    requires IsSgr(code) && Clean(line) && Clean(after) && Visible(after) == []
    ensures Clean(code + line + after) && Visible(code + line + after) == Visible(line)
  {
    CodeInFront(code, line);
    CleanConcat(code + line, after);
    assert Visible(line) + [] == Visible(line);
  }

  /** The reset code is clean and shows nothing. */
  lemma ResetShowsNothing()
    ensures Clean(Reset) && Visible(Reset) == []
  {
    CodeIsSgr("0");
    CodeInFront(Reset, []);
    assert Reset + [] == Reset;
  }

  /** The colour code of a wrapped line is determined by the result. */
  lemma WrapDeterminesCode(c1: string, c2: string, line: string)
    requires Wrap(c1, line) == Wrap(c2, line)
    ensures c1 == c2
  {
    assert |c1| == |c2|;
    assert c1 == Wrap(c1, line)[..|c1|];
    assert c2 == Wrap(c2, line)[..|c2|];
  }
  /** What a reader sees of each line of a list. */
  function VisibleLines(lines: seq<string>): (shown: seq<string>)
    ensures |shown| == |lines|
    ensures forall i :: 0 <= i < |lines| ==> shown[i] == Visible(lines[i])
    decreases |lines|
  {
    if lines == [] then [] else [Visible(lines[0])] + VisibleLines(lines[1..])
  }

  /** What a reader sees of clean lines joined by line feeds is what they
      see of each line, joined. */
  lemma {:induction false} VisibleJoin(lines: seq<string>)
    requires forall i :: 0 <= i < |lines| ==> Clean(lines[i])
    ensures Visible(Join(lines, '\n')) == Join(VisibleLines(lines), '\n')
    decreases |lines|
  {
    if |lines| >= 2 {
      var rest := Join(lines[1..], '\n');
      VisibleJoin(lines[1..]);
      var shown := VisibleLines(lines);
      assert shown[1..] == VisibleLines(lines[1..]);
      AppendAssoc(shown[0], ['\n'], Join(shown[1..], '\n'));
      AppendAssoc(lines[0], ['\n'], rest);
      VisibleAfterLine(lines[0], rest);
    }
  }

  /** A clean line followed by a line feed shows as the line and the feed. */
  lemma VisibleAfterLine(line: string, rest: string)
    requires Clean(line)
    ensures Visible(line + (['\n'] + rest)) == Visible(line) + (['\n'] + Visible(rest))
  {
    CleanConcat(line, ['\n'] + rest);
    VisibleLineFeed(rest);
  }

  lemma VisibleLineFeed(rest: string)
    ensures Visible(['\n'] + rest) == ['\n'] + Visible(rest)
  {
    var a := ['\n'];
    CleanConcatChar(a, rest);
    assert a[1..] + rest == rest;
  }
}
