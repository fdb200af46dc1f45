/** The script allow-list and the command lines the terminal server types
    into a session. Path resolution is outside the model: the allow-list
    receives the already-resolved path and the resolved allowed directories. */
module Commands {
  import opened Wrappers
  import opened Strings

  /** The working directory of `java-run` and of `execute-direct` with files. */
  const SlidesTmpDir: string := "/tmp/slides"

  /** `path.join(slidesTmpDir, 'Main.java')`. */
  const MainJavaPath: string := "/tmp/slides/Main.java"

  /** `isScriptAllowed`: `ALLOWED_DIRS.some(dir => resolved.startsWith(dir))`. */
  function IsScriptAllowed(resolved: string, allowedDirs: seq<string>): (r: bool)
    ensures r <==> exists i :: 0 <= i < |allowedDirs| && StartsWith(resolved, allowedDirs[i])
    decreases |allowedDirs|
  {
    |allowedDirs| > 0 &&
    (StartsWith(resolved, allowedDirs[0]) || IsScriptAllowed(resolved, allowedDirs[1..]))
  }

  /** The test compares characters, not path components: anything that
      extends an allowed directory's text is allowed, a sibling directory
      whose name extends it included. */
  lemma AllowedByTextualPrefix(dir: string, rest: string, allowedDirs: seq<string>)
    requires dir in allowedDirs
    ensures IsScriptAllowed(dir + rest, allowedDirs)
  {
    var i :| 0 <= i < |allowedDirs| && allowedDirs[i] == dir;
    assert (dir + rest)[..|dir|] == dir;
  }

  /** `/root/x2` passes when `/root/x` is the allowed directory. */
  lemma SiblingDirectoryAllowed()
    ensures IsScriptAllowed("/root/x2", ["/root/x"])
    ensures !IsScriptAllowed("/root/y", ["/root/x"])
  {
    AllowedByTextualPrefix("/root/x", "2", ["/root/x"]);
    assert "/root/x" + "2" == "/root/x2";
    assert "/root/y"[..7][6] != "/root/x"[6];
  }

  /** `s` is one line as a shell reads it: a line feed at the end and
      nowhere else. */
  predicate SingleLine(s: string) {
    |s| > 0 && s[|s| - 1] == '\n' && '\n' !in s[..|s| - 1]
  }

  /** The `execute` command: `chmod +x "<path>" && "<path>"` and a line feed. */
  function ExecuteCommand(scriptPath: string): (command: string)
    ensures EndsWith(command, "\n")
    ensures SingleLine(command) <==> '\n' !in scriptPath
  {
    var line := "chmod +x \"" + scriptPath + "\" && \"" + scriptPath + "\"";
    assert (line + "\n")[..|line|] == line;
    line + "\n"
  }

  /** The fixed text of an `execute` command: before the first copy of
      the path, between the two copies, and after the second. */
  const ChmodHead: string := "chmod +x \""
  const ChmodMiddle: string := "\" && \""
  const ChmodTail: string := "\"\n"

  /** Where the path starts, and how much text the fixed pieces add
      between and around the two copies of the path. */
  const HeadLen: nat := |ChmodHead|
  const MiddleLen: nat := |ChmodMiddle|
  const FixedLen: nat := |ChmodHead| + |ChmodMiddle| + |ChmodTail|

  /** The `execute` command is the fixed text around two copies of the path. */
  lemma ExecuteCommandPieces(scriptPath: string)
    ensures ExecuteCommand(scriptPath) == ChmodHead + scriptPath + ChmodMiddle + scriptPath + ChmodTail
  {
    var front := ChmodHead + scriptPath + ChmodMiddle + scriptPath;
    AppendAssoc(front, "\"", "\n");
  }

  /** `command` has the fixed pieces of an `execute` command around two
      equal copies of a path of length `n`. */
  predicate ChmodShaped(command: string, n: nat)
    requires |command| == FixedLen + 2 * n
  {
    var second := HeadLen + n + MiddleLen;
    && command[..HeadLen] == ChmodHead
    && command[HeadLen + n..second] == ChmodMiddle
    && command[second..second + n] == command[HeadLen..HeadLen + n]
    && command[second + n..] == ChmodTail
  }

  /** The script an `execute` command runs, read back from the command: the
      text after `chmod +x "`, as long as the command has room for two equal
      copies of it between the fixed pieces, which must all be present. */
  function ScriptOfCommand(command: string): (p: Option<string>)
    ensures p.Some? ==> ExecuteCommand(p.value) == command
  {
    if |command| >= FixedLen && (|command| - FixedLen) % 2 == 0 then
      var n := (|command| - FixedLen) / 2;
      if ChmodShaped(command, n) then
        ReadBack(command, n);
        Some(command[HeadLen..HeadLen + n])
      else None
    else None
  }

  /** A command of that shape is the `execute` command of its path. */
  lemma ReadBack(command: string, n: nat)
    requires |command| == FixedLen + 2 * n && ChmodShaped(command, n)
    ensures ExecuteCommand(command[HeadLen..HeadLen + n]) == command
  {
    var second := HeadLen + n + MiddleLen;
    Pieces(command, HeadLen, HeadLen + n, second, second + n);
    ExecuteCommandPieces(command[HeadLen..HeadLen + n]);
  }

  /** A text is its five consecutive slices. */
  lemma Pieces(c: string, i: nat, j: nat, k: nat, l: nat)
    requires i <= j <= k <= l <= |c|
    ensures c == c[..i] + c[i..j] + c[j..k] + c[k..l] + c[l..]
  {
  }

  /** The five slices of a concatenation of five texts. */
  lemma SlicesOf(a: string, b: string, c: string, d: string, e: string)
    ensures var x, i, j, k, l := a + b + c + d + e, |a|, |a| + |b|, |a| + |b| + |c|, |a| + |b| + |c| + |d|;
      && |x| == l + |e|
      && x[..i] == a && x[i..j] == b && x[j..k] == c && x[k..l] == d && x[l..] == e
  {
  }

  /** The command names the script that passed the allow-list, twice and
      nothing else: the path can be read back from it. */
  lemma ExecuteCommandRoundTrip(scriptPath: string)
    ensures ScriptOfCommand(ExecuteCommand(scriptPath)) == Some(scriptPath)
  {
    ExecuteCommandPieces(scriptPath);
    PiecesShaped(scriptPath);
    ReadShaped(ExecuteCommand(scriptPath), |scriptPath|);
  }

  /** The reader accepts every command of that shape. */
  lemma ReadShaped(command: string, n: nat)
    requires |command| == FixedLen + 2 * n && ChmodShaped(command, n)
    ensures ScriptOfCommand(command) == Some(command[HeadLen..HeadLen + n])
  {
    assert (|command| - FixedLen) / 2 == n && (|command| - FixedLen) % 2 == 0;
  }

  /** The fixed pieces around two copies of a path have the shape the
      reader looks for. */
  lemma PiecesShaped(p: string)
    ensures var x := ChmodHead + p + ChmodMiddle + p + ChmodTail;
      |x| == FixedLen + 2 * |p| && ChmodShaped(x, |p|) && x[HeadLen..HeadLen + |p|] == p
  {
    SlicesOf(ChmodHead, p, ChmodMiddle, p, ChmodTail);
  }

  /** Reading back is exact: a command names a script iff it is that
      script's `execute` command. */
  lemma ScriptOfCommandIff(command: string, scriptPath: string)
    ensures ScriptOfCommand(command) == Some(scriptPath) <==> ExecuteCommand(scriptPath) == command
  {
    if ExecuteCommand(scriptPath) == command {
      ExecuteCommandRoundTrip(scriptPath);
    }
  }

  /** `cd "<dir>" && ` when a directory is given, else nothing. */
  function CdPrefix(dir: Option<string>): string {
    if dir.Some? then "cd \"" + dir.value + "\" && " else ""
  }

  /** `(stty -echo; [cd "<dir>" && ]<cmd>; stty echo)` and a line feed: the
      command runs in a subshell with the terminal's echo off, and echo is
      switched back on after it. */
  function SubshellCommand(dir: Option<string>, cmd: string): (command: string)
    ensures StartsWith(command, "(stty -echo; ") && EndsWith(command, "; stty echo)\n")
    ensures dir.Some? ==> StartsWith(command, "(stty -echo; cd \"" + dir.value + "\" && ")
    ensures SingleLine(command) <==> '\n' !in cmd && (dir.None? || '\n' !in dir.value)
  {
    SubshellFacts(dir, cmd);
    "(stty -echo; " + CdPrefix(dir) + cmd + "; stty echo)\n"
  }

  lemma SubshellFacts(dir: Option<string>, cmd: string)
    ensures var command := "(stty -echo; " + CdPrefix(dir) + cmd + "; stty echo)\n";
      && StartsWith(command, "(stty -echo; ") && EndsWith(command, "; stty echo)\n")
      && (dir.Some? ==> StartsWith(command, "(stty -echo; cd \"" + dir.value + "\" && "))
      && (SingleLine(command) <==> '\n' !in cmd && (dir.None? || '\n' !in dir.value))
  {
    SubshellShape("(stty -echo; ", CdPrefix(dir), cmd, "; stty echo)\n");
    if dir.Some? {
      assert "(stty -echo; " + CdPrefix(dir) == "(stty -echo; cd \"" + dir.value + "\" && ";
    }
    SubshellOneLine(dir, cmd);
  }

  lemma SubshellOneLine(dir: Option<string>, cmd: string)
    ensures SingleLine("(stty -echo; " + CdPrefix(dir) + cmd + "; stty echo)\n")
      <==> '\n' !in cmd && (dir.None? || '\n' !in dir.value)
  {
    var body := "(stty -echo; " + CdPrefix(dir) + cmd;
    AppendAssoc(body, "; stty echo)", "\n");
    assert "; stty echo)" + "\n" == "; stty echo)\n";
    SingleLineOf(body + "; stty echo)");
    assert '\n' !in "(stty -echo; " && '\n' !in "; stty echo)";
    assert '\n' in CdPrefix(dir) <==> dir.Some? && '\n' in dir.value;
  }

  /** A text followed by a line feed is one line iff the text holds none. */
  lemma SingleLineOf(body: string)
    ensures SingleLine(body + "\n") <==> '\n' !in body
  {
    assert (body + "\n")[..|body|] == body;
  }

  lemma SubshellShape(open: string, cd: string, cmd: string, close: string)
    ensures StartsWith(open + cd + cmd + close, open)
    ensures StartsWith(open + cd + cmd + close, open + cd)
    ensures EndsWith(open + cd + cmd + close, close)
  {
    var c := open + cd + cmd + close;
    assert c == (open + cd) + (cmd + close);
    assert c[..|open + cd|] == open + cd;
    assert c[..|open|] == open;
    assert c == (open + cd + cmd) + close;
    assert c[|c| - |close|..] == close;
  }

  /** The user's command inside a subshell command for `dir`, read back
      from between the opening (with its `cd`) and the closing. */
  function InnerCommand(dir: Option<string>, command: string): (cmd: Option<string>)
    ensures cmd.Some? ==> SubshellCommand(dir, cmd.value) == command
  {
    var head := "(stty -echo; " + CdPrefix(dir);
    var tail := "; stty echo)\n";
    if |head| + |tail| <= |command| && StartsWith(command, head) && EndsWith(command, tail) then
      var cmd := command[|head|..|command| - |tail|];
      Reassemble(command, |head|, |command| - |tail|);
      Some(cmd)
    else None
  }

  /** The text around `c[i..j]`. */
  lemma Reassemble(c: string, i: nat, j: nat)
    requires i <= j <= |c|
    ensures c == c[..i] + c[i..j] + c[j..]
  {
  }

  /** The middle of a concatenation of three. */
  lemma Middle(a: string, m: string, b: string)
    ensures (a + m + b)[|a|..|a + m + b| - |b|] == m
  {
  }

  /** The subshell command carries the user's command verbatim: it is read
      back from it. */
  lemma SubshellCommandRoundTrip(dir: Option<string>, cmd: string)
    ensures InnerCommand(dir, SubshellCommand(dir, cmd)) == Some(cmd)
  {
    var head := "(stty -echo; " + CdPrefix(dir);
    var tail := "; stty echo)\n";
    var command := SubshellCommand(dir, cmd);
    SubshellShape("(stty -echo; ", CdPrefix(dir), cmd, tail);
    assert command == head + cmd + tail;
    Middle(head, cmd, tail);
  }

  /** `java[ --enable-preview] Main.java`: the preview flag only when asked
      for, and never a line feed. */
  function JavaCommand(enablePreview: bool): (cmd: string)
    ensures enablePreview ==> cmd == "java --enable-preview Main.java"
    ensures !enablePreview ==> cmd == "java Main.java"
    ensures '\n' !in cmd
  {
    var cmd := "java" + (if enablePreview then " --enable-preview" else "") + " Main.java";
    JavaCommandText(enablePreview);
    cmd
  }

  lemma JavaCommandText(enablePreview: bool)
    ensures var cmd := "java" + (if enablePreview then " --enable-preview" else "") + " Main.java";
      && (enablePreview ==> cmd == "java --enable-preview Main.java")
      && (!enablePreview ==> cmd == "java Main.java")
      && '\n' !in cmd
  {
    if enablePreview {
      assert "java" + " --enable-preview" + " Main.java" == "java --enable-preview Main.java";
    } else {
      assert "java" + "" + " Main.java" == "java Main.java";
    }
  }

  /** The `java-run` command: run `Main.java` in `/tmp/slides`, typed as
      exactly one line. */
  function JavaRunCommand(enablePreview: bool): (command: string)
    ensures command == "(stty -echo; cd \"/tmp/slides\" && " + JavaCommand(enablePreview) + "; stty echo)\n"
    ensures SingleLine(command)
  {
    assert "(stty -echo; " + CdPrefix(Some(SlidesTmpDir)) == "(stty -echo; cd \"/tmp/slides\" && ";
    assert '\n' !in SlidesTmpDir;
    SubshellCommand(Some(SlidesTmpDir), JavaCommand(enablePreview))
  }

  /** The `execute-direct` command without extra files: `cd` into the
      requested directory when one is given, else run in place. */
  function DirectCommand(cwd: string, cmd: string): (command: string)
    ensures cwd != "" ==> command == SubshellCommand(Some(cwd), cmd)
    ensures cwd == "" ==> command == SubshellCommand(None, cmd)
  {
    if cwd != "" then SubshellCommand(Some(cwd), cmd) else SubshellCommand(None, cmd)
  }
}
