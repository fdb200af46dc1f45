# Terminal server for presentation slides — a Dafny model

The repository ships a small Node.js terminal server (`misc/terminal-server/server.js`)
that slides use to run shell commands, scripts and Java programs in a
pseudo-terminal and to stream the output back over a WebSocket. This project
models the logic of that server that can be stated precisely:

- **Output highlighting** (`Highlight`): every chunk of session output passes
  through three filters, each splitting the chunk on line feeds, rewriting
  each line with ANSI colour codes and joining the lines again: javac errors
  (red `error:` lines, yellow caret lines, bold red `N errors` summaries),
  `WARNING:` tokens (bold yellow) and Java exceptions (bold red headers, gray
  stack frames). The model proves that each pass keeps the number of lines,
  rewrites every line by its rule and nothing else, that a chunk without any
  trigger is sent unchanged, that the first matching case of a line wins, and
  that for text without escape characters the highlighted chunk shows exactly
  the original text once the colour codes are taken out.
- **ANSI colour codes** (`Sgr`): the codes the filter writes, what a terminal
  shows of a text (every complete `ESC [ params m` removed), and the facts
  about both the filter proofs need.
- **JavaScript string built-ins** (`Strings`): `startsWith`, `includes`,
  `split`/`join` on one character, `trim` and a global literal `replace`,
  with `join(split(s)) == s` for every text and `split(join(lines)) == lines`
  for every non-empty list of lines without the separator.
- **Log-level gate** (`Logging`): `shouldLog` and the configured level.
- **Script allow-list and command lines** (`Commands`): the prefix test on
  resolved script paths and the exact command strings typed into a session
  for `execute`, `java-run` and `execute-direct`.
- **Shell choice** (`Shell`): the first existing shell among `$SHELL` and a
  fixed list, or `sh`; the existence test on disk is a parameter.
- **Per-connection state** (`Connection`): a class holding the session, the
  session timer, the once-only cleanup flag, the active script and a log of
  effects (messages to the browser, text written to the session, resizes,
  kills, descriptor closes, timers, socket close). Each message handler and
  each session or socket callback is a method whose contract gives the whole
  new state; the class invariant says that a connection kills at most one
  session and closes at most one descriptor, none before cleanup.

Everything outside the process is an input: the result of spawning a shell,
the outcome of file-system calls, timer identities, resolved paths and the
existence of files on disk.

## Model

| member | source | states |
|---|---|---|
| Strings.ContainsIff | misc/terminal-server/server.js:239-278 | `includes` holds iff the pattern occurs at some index of the text |
| Strings.TrimStart | misc/terminal-server/server.js:247 | the whitespace removed from the front is all whitespace, and what is left is a suffix that does not start with whitespace |
| Strings.TrimEnd | misc/terminal-server/server.js:247 | the whitespace removed from the back is all whitespace, and what is left is a prefix that does not end with whitespace |
| Strings.Trim | misc/terminal-server/server.js:247 | `trim()` is the slice of the line between its leading and trailing whitespace, and it neither starts nor ends with whitespace |
| Strings.Map | misc/terminal-server/server.js:241 | `map` keeps the number of lines and puts the rule's result for line i at position i |
| Strings.Split | misc/terminal-server/server.js:240 | `split('\n')` yields at least one piece, no piece holds the separator, and every character of a piece comes from the text |
| Strings.JoinSplit | misc/terminal-server/server.js:240-256 | joining the pieces of a split with the separator gives back the chunk |
| Strings.SplitJoin | misc/terminal-server/server.js:240-256 | splitting a join of separator-free lines gives back the lines |
| Strings.ReplaceAll | misc/terminal-server/server.js:264 | a global replace of a pattern the text lacks returns the text; the result holds only characters of the text or of the replacement |
| Strings.ReplaceAllAround | misc/terminal-server/server.js:264 | the `/g` flag: for a pattern that cannot overlap itself, an occurrence between any two texts becomes the replacement and the texts on both sides are replaced in turn |
| Strings.ReplaceAllUndo | misc/terminal-server/server.js:264 | replacing back undoes the replacement when the replacement starts with a character the text lacks |
| Sgr.CodesAreSgr | misc/terminal-server/server.js:244-279 | each colour code the filter writes (`0`, `31`, `33`, `1;31`, `1;33`, `90`) is one complete SGR sequence |
| Sgr.CodesArePlain | misc/terminal-server/server.js:244-279 | no colour code the filter writes holds a line feed or a `W` |
| Sgr.WrapKeepsText | misc/terminal-server/server.js:244-279 | wrapping a line in a colour and the reset shows the same text as the line |
| Sgr.VisibleJoin | misc/terminal-server/server.js:256 | what a terminal shows of joined clean lines is what it shows of each line, joined |
| Highlight.ErrorLine | misc/terminal-server/server.js:242-255 | a line is red iff it holds `error:`; yellow iff not and its trimmed form starts with `^`; bold red iff neither and it holds `errors` and matches `^\d+ errors?$`; unchanged iff none of these |
| Highlight.WarningLine | misc/terminal-server/server.js:262-267 | a line is changed iff it holds `WARNING:`; for escape-free lines replacing the highlight back gives the line |
| Highlight.WarningLineEvery | misc/terminal-server/server.js:263-264 | every `WARNING:` of a line is highlighted: an occurrence between any two texts becomes the highlighted token, with the texts on both sides highlighted in turn |
| Highlight.ExceptionLine | misc/terminal-server/server.js:274-282 | a line is bold red iff it holds `Exception in thread` or `Exception:`; gray iff not and it starts with `at ` after trimming or holds `Caused by:`; unchanged otherwise |
| Highlight.Rewrite | misc/terminal-server/server.js:240-256 | `split`, `map`, `join`: with a rule that adds no line feed, the result splits into exactly the rewritten lines; a rule that leaves every line alone gives back the chunk |
| Highlight.ErrorPass | misc/terminal-server/server.js:239-257 | pass 1 keeps the line count, rewrites line i by the pass-1 rule when triggered, and returns the chunk when no line changes |
| Highlight.WarningPass | misc/terminal-server/server.js:260-269 | pass 2 keeps the line count, rewrites line i by the pass-2 rule when triggered, and returns the chunk when no line changes |
| Highlight.ExceptionPass | misc/terminal-server/server.js:272-284 | pass 3 keeps the line count, rewrites line i by the pass-3 rule when triggered, and returns the chunk when no line changes |
| Highlight.Highlight | misc/terminal-server/server.js:233-284 | the three passes in the server's order keep the number of lines of every chunk |
| Highlight.HighlightQuiet | misc/terminal-server/server.js:239-284 | a chunk holding none of `error:`, `errors`, `WARNING:`, `Exception`, `\tat `, `Caused by:` is sent unchanged |
| Highlight.HighlightShowsSameText | misc/terminal-server/server.js:233-284 | for a chunk without escape characters, the highlighted chunk shows exactly the chunk once the colour codes are removed |
| Highlight.ErrorLineKeepsText | misc/terminal-server/server.js:243-254 | the pass-1 rule keeps a clean line clean and shows the same text |
| Highlight.WarningLineKeepsText | misc/terminal-server/server.js:263-264 | the pass-2 rule keeps a clean line clean and shows the same text |
| Highlight.ReplaceWarningKeepsText | misc/terminal-server/server.js:264 | replacing every `WARNING:` by its highlighted form keeps a clean line clean and shows the same text |
| Highlight.ExceptionLineKeepsText | misc/terminal-server/server.js:275-281 | the pass-3 rule keeps a clean line clean and shows the same text |
| Highlight.DistinctCodes | misc/terminal-server/server.js:244-279 | the four colourings of a line (red, yellow, bold red, gray) differ pairwise and from the line, so the result tells which case fired |
| Highlight.SummaryLineIff | misc/terminal-server/server.js:251 | the summary test holds iff the line is a non-empty digit run followed by ` errors` |
| Highlight.PluralSummaryBold | misc/terminal-server/server.js:251-253 | `N errors` is bolded red |
| Highlight.SingularSummaryUntouched | misc/terminal-server/server.js:251-253 | `N error` is never coloured, because the `includes('errors')` guard fails |
| Highlight.CarriageReturnSummaryUntouched | misc/terminal-server/server.js:251-253 | `N errors` followed by a carriage return is never coloured, because `$` does not match before `\r` |
| Logging.LowerChar | misc/terminal-server/server.js:11 | an ASCII capital becomes its small letter, every other character is kept |
| Logging.ConfiguredLevel | misc/terminal-server/server.js:11 | an unset or empty variable gives `info`; otherwise each character of the value lower-cased, at the same position |
| Logging.ConfiguredLevelIdempotent | misc/terminal-server/server.js:11 | lower-casing the configured level again changes nothing |
| Logging.ConfiguredLevelUpperCase | misc/terminal-server/server.js:11 | `DEBUG` configures `debug`, `Constructor` configures `constructor` |
| Logging.Threshold | misc/terminal-server/server.js:14-19 | `LOG_LEVELS[LOG_LEVEL] ?? LOG_LEVELS.info`: the configured rank, `info`'s rank for a level the object lacks, and no number for a property every object inherits |
| Logging.ShouldLog | misc/terminal-server/server.js:14-19 | a message is logged iff its level is in `LOG_LEVELS` and its rank is at most the threshold; an unknown configured level counts as `info`; a configured inherited property such as `constructor` logs nothing; otherwise `error` is always logged |
| Logging.ConstructorSilencesAll | misc/terminal-server/server.js:11-19 | a variable set to `Constructor` or `__proto__` silences every level, `error` included |
| Logging.ShouldLogMonotone | misc/terminal-server/server.js:14-19 | raising the configured level never silences a message |
| Commands.IsScriptAllowed | misc/terminal-server/server.js:135-138 | a resolved path is allowed iff some allowed directory is a string prefix of it |
| Commands.AllowedByTextualPrefix | misc/terminal-server/server.js:135-138 | any text extending an allowed directory is allowed, whether or not it continues with a path separator |
| Commands.SiblingDirectoryAllowed | misc/terminal-server/server.js:135-138 | `/root/x2` is allowed when `/root/x` is the allowed directory, `/root/y` is not |
| Commands.ExecuteCommand | misc/terminal-server/server.js:371 | the `execute` command ends in a line feed and is a single line iff the script path holds no line feed |
| Commands.ExecuteCommandPieces | misc/terminal-server/server.js:371 | the `execute` command is `chmod +x "`, the path, `" && "`, the path again, and `"` with a line feed |
| Commands.ScriptOfCommand | misc/terminal-server/server.js:371 | a path sliced from after `chmod +x "` and checked against the fixed pieces is sound: the command is that path's `execute` command |
| Commands.ScriptOfCommandIff | misc/terminal-server/server.js:371 | a command is read back as a path iff it is that path's `execute` command |
| Commands.ExecuteCommandRoundTrip | misc/terminal-server/server.js:371 | the script path is read back from its `execute` command |
| Commands.SubshellCommand | misc/terminal-server/server.js:463 | the command opens with `(stty -echo; `, then `cd "<dir>" && ` when a directory is given, and closes with `; stty echo)` and a line feed; it is a single line iff the command and directory hold no line feed |
| Commands.InnerCommand | misc/terminal-server/server.js:463 | a command read back from between the opening (with its `cd`) and the closing rebuilds the very subshell command |
| Commands.SubshellCommandRoundTrip | misc/terminal-server/server.js:463 | the user's command is carried verbatim: it is read back from the subshell command |
| Commands.JavaCommand | misc/terminal-server/server.js:455-459 | `java --enable-preview Main.java` when preview is asked for, else `java Main.java`; no line feed |
| Commands.JavaRunCommand | misc/terminal-server/server.js:455-463 | the `java-run` command is `(stty -echo; cd "/tmp/slides" && <java command>; stty echo)` and a line feed, typed as exactly one line |
| Commands.DirectCommand | misc/terminal-server/server.js:561 | the `execute-direct` command changes into the directory iff it is non-empty |
| Shell.Candidates | misc/terminal-server/server.js:595-602 | `$SHELL` first when set and non-empty, then `/bin/bash`, `/usr/bin/bash`, `/bin/zsh`, `/usr/bin/zsh`, `/bin/sh`; no candidate is empty |
| Shell.ResolveShell | misc/terminal-server/server.js:593-613 | the result is the first candidate that exists, or `sh` when none does |
| Shell.ResolvedUnique | misc/terminal-server/server.js:593-613 | the resolution rule determines the shell |
| Shell.EnvShellWins | misc/terminal-server/server.js:595-609 | an existing `$SHELL` is always the shell chosen |
| Connection.CleanupEffects | misc/terminal-server/server.js:152-190 | cleanup does nothing once done; otherwise it clears the timer iff one is set, kills the session iff there is one and closes its descriptor iff it has one, and does nothing else |
| Connection.DirectCwd | misc/terminal-server/server.js:485 | the directory is the one sent, or the root when none is sent |
| Connection.DirectCommandAlwaysChangesDirectory | misc/terminal-server/server.js:485-561 | with a non-empty root the `execute-direct` command without files always changes directory first |
| Connection.ConnectionState.constructor | misc/terminal-server/server.js:146-150 | a new connection has no session, no timer, cleanup not done, no active script |
| Connection.ConnectionState.Cleanup | misc/terminal-server/server.js:152-190 | `cleanupPty` sets the flag and clears the timer the first time and changes nothing after; its effects are those of `CleanupEffects`; the session stays recorded |
| Connection.ConnectionState.Start | misc/terminal-server/server.js:201-323 | the shell is the one `resolveShell` picks from `$SHELL` and the files on disk; a failed spawn reports the error naming that shell and keeps the state; a successful one replaces the session, clears an old timer, sets a ten-minute timer and reports `started`, without stopping a previous session |
| Connection.ConnectionState.Output | misc/terminal-server/server.js:230-286 | session output is sent as the highlighted chunk |
| Connection.ConnectionState.Exited | misc/terminal-server/server.js:299-303 | an exit is reported with its code, then cleanup runs (its timer cleared, if this is the first cleanup); the session is kept |
| Connection.ConnectionState.TimedOut | misc/terminal-server/server.js:308-321 | a timeout is reported, cleanup runs (its timer cleared, if this is the first cleanup); the session is kept, and the socket is closed with code 1000 |
| Connection.ConnectionState.SocketClosed | misc/terminal-server/server.js:577-589 | closing or failing the socket runs cleanup (its timer cleared, if this is the first cleanup); the session is kept |
| Connection.ConnectionState.Data | misc/terminal-server/server.js:325-333 | input is written to the session when there is one, and nothing happens otherwise |
| Connection.ConnectionState.ResizeTerminal | misc/terminal-server/server.js:335-344 | a resize reaches the session only when it has a PTY |
| Connection.ConnectionState.Stop | misc/terminal-server/server.js:346-349 | `stop` reports exit code 0, then cleanup runs (its timer cleared, if this is the first cleanup); the session is kept |
| Connection.ConnectionState.Execute | misc/terminal-server/server.js:351-375 | a disallowed script gives the error `Script not in allowed directories` and nothing else; an allowed one with a session becomes the active script and its command is written to the session |
| Connection.ConnectionState.JavaRun | misc/terminal-server/server.js:376-478 | empty code, a failed `mkdir` and a failed write of `Main.java` each give their error; otherwise, with a session, `Main.java` becomes the active script and the `java-run` command is written |
| Connection.ConnectionState.ExecuteDirect | misc/terminal-server/server.js:479-564 | an empty command and a failed `mkdir` give their errors; with files the command runs in `/tmp/slides`, which becomes the active script; without files it runs in the requested directory or the root |

## Left out

- HTTP server, CORS headers, the health endpoint and the port retry on `EADDRINUSE`: network I/O.
- The WebSocket library, JSON parsing of messages and the dispatch on `message.type`: each branch is a method of `ConnectionState`; a message of unknown type does nothing, and an exception thrown while handling a message (reported as an `error` reply) is not modelled.
- Spawning the PTY or child process, the fallback to `/bin/sh` and to a pipe-based child process, and the session wrappers: foreign calls; the spawn outcome is an input to `Start`, and the wrapper's descriptor and resize ability are fields of `Session`.
- `path.resolve` and `path.join`: resolved paths are inputs, and `/tmp/slides/Main.java` is a constant.
- Writes of additional files and the `Promise.all` that waits for them: their failures are only logged, so only the outcomes of `mkdir` and of writing `Main.java` are inputs.
- Connection.ConnectionState.JavaRun: does not model that the session is looked up when the asynchronous file writes finish, not when the message arrives; the model uses the session at the time of the call.
- Connection.ConnectionState.ExecuteDirect: the same asynchronous look-up of the session is not modelled.
- The active script's `startedAt` timestamp and `tempDir`: only its path is kept; the output preview logged for an active script is left out with the rest of logging.
- The `ptyProcess` variable: it is assigned and never read.
- Log rendering (`JSON.stringify`, timestamps, `console.*`), `LOG_FORMAT` and `LOG_HTTP`: output formatting.
- Logging.ConfiguredLevel: lower-cases ASCII letters only; JavaScript's `toLowerCase` also maps other Unicode letters.
- Strings.ReplaceAll: its own contract does not say that each occurrence is replaced; `Strings.ReplaceAllAround` states that for patterns that cannot overlap themselves, `WARNING:` among them.
- Strings.Trim: removes ASCII whitespace only; JavaScript's `trim` also removes Unicode spaces and line terminators.
- Timers: a timer is an identity given to `Start`; time passing is the `TimedOut` method.
- `applet/HelloApplet.java`: user-interface glue whose only logic is a click counter.
- `setup/shiki.ts`: a configuration literal with no behaviour.
