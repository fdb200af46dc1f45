/** The per-connection state of the terminal server: the running session,
    the session timer, the once-only cleanup flag and the script last
    started, with the message handlers that change them. What the server
    does to the world (messages sent to the browser, text typed into the
    session, kills, closes and timers) is recorded as a list of effects. */
module Connection {
  import opened Wrappers
  import opened Strings
  import Highlight
  import opened Commands
  import Shell

  /** `SESSION_TIMEOUT_MS`: ten minutes. */
  const SessionTimeoutMs: nat := 10 * 60 * 1000

  /** A spawned session: its identity, the PTY master descriptor when there
      is one, and whether it can be resized (a PTY can, the fallback child
      process cannot). */
  datatype Session = Session(id: nat, fd: Option<int>, resizable: bool)

  /** The outcome of spawning a shell. */
  datatype Spawn = Spawned(session: Session) | SpawnFailed(message: string)

  /** The outcome of preparing `/tmp/slides`: creating the directory and,
      where one is written, the main source file. */
  datatype FsOutcome = FsOk | MkdirFailed(message: string) | WriteFailed(message: string)

  /** A message sent to the browser. */
  datatype Reply =
    | Started
    | DataReply(data: string)
    | ExitReply(exitCode: int)
    | ErrorReply(message: string)

  /** What the server does outside its own state. */
  datatype Effect =
    | Send(reply: Reply)
    | Write(target: nat, data: string)
    | Resize(target: nat, cols: int, rows: int)
    | Kill(target: nat)
    | CloseFd(fd: int)
    | SetTimer(timer: nat, delay: nat)
    | ClearTimer(timer: nat)
    | CloseSocket(code: nat, reason: string)

  /** The number of kills among `es`. */
  function Kills(es: seq<Effect>): nat
    decreases |es|
  {
    if es == [] then 0 else (if es[0].Kill? then 1 else 0) + Kills(es[1..])
  }

  /** The number of descriptor closes among `es`. */
  function Closes(es: seq<Effect>): nat
    decreases |es|
  {
    if es == [] then 0 else (if es[0].CloseFd? then 1 else 0) + Closes(es[1..])
  }

  lemma {:induction false} CountsAppend(a: seq<Effect>, b: seq<Effect>)
    ensures Kills(a + b) == Kills(a) + Kills(b)
    ensures Closes(a + b) == Closes(a) + Closes(b)
    decreases |a|
  {
    if a == [] {
      assert a + b == b;
    } else {
      assert (a + b)[1..] == a[1..] + b;
      CountsAppend(a[1..], b);
    }
  }

  /** What `cleanupPty` does, given the state it finds: nothing once it has
      run; otherwise clear the timer if one is set, then kill the session if
      there is one and close its descriptor if it has one. */
  function CleanupEffects(done: bool, timer: Option<nat>, session: Option<Session>): (es: seq<Effect>)
    ensures done ==> es == []
    ensures Kills(es) == (if !done && session.Some? then 1 else 0)
    ensures Closes(es) == (if !done && session.Some? && session.value.fd.Some? then 1 else 0)
    ensures (exists t :: ClearTimer(t) in es) <==> !done && timer.Some?
    ensures forall e :: e in es && e.ClearTimer? ==> timer == Some(e.timer)
    ensures forall e :: e in es && e.Kill? ==> session.Some? && e.target == session.value.id
    ensures forall e :: e in es && e.CloseFd? ==> session.Some? && session.value.fd == Some(e.fd)
    ensures forall e :: e in es ==> e.ClearTimer? || e.Kill? || e.CloseFd?
  {
    if done then []
    else
      var clear := if timer.Some? then [ClearTimer(timer.value)] else [];
      var kill := if session.Some? then [Kill(session.value.id)] else [];
      var close := if session.Some? && session.value.fd.Some? then [CloseFd(session.value.fd.value)] else [];
      CountsAppend(clear, kill);
      CountsAppend(clear + kill, close);
      assert timer.Some? ==> (clear + kill + close)[0] == ClearTimer(timer.value);
      clear + kill + close
  }

  /** `message.cwd || root`: the directory an `execute-direct` command runs in. */
  function DirectCwd(messageCwd: string, root: string): (cwd: string)
    ensures messageCwd != "" ==> cwd == messageCwd
    ensures messageCwd == "" ==> cwd == root
  {
    if messageCwd != "" then messageCwd else root
  }

  /** With a non-empty root the directory is never empty, so the command
      always changes into it first. */
  lemma DirectCommandAlwaysChangesDirectory(messageCwd: string, root: string, cmd: string)
    requires root != ""
    ensures DirectCommand(DirectCwd(messageCwd, root), cmd)
      == SubshellCommand(Some(DirectCwd(messageCwd, root)), cmd)
  {
  }

  class ConnectionState {
    var session: Option<Session>
    var sessionTimeout: Option<nat>
    var cleanupDone: bool
    var activeScript: Option<string>
    var effects: seq<Effect>

    /** At most one session is ever killed and at most one descriptor closed
        on a connection, none before cleanup; a timer runs only beside a
        session. */
    predicate Valid()
      reads this
    {
      && Kills(effects) <= 1 && Closes(effects) <= 1
      && (!cleanupDone ==> Kills(effects) == 0 && Closes(effects) == 0)
      && (sessionTimeout.Some? ==> session.Some?)
    }

    /** A new connection: no session, no timer, cleanup not done. */
    constructor ()
      ensures Valid()
      ensures session.None? && sessionTimeout.None? && !cleanupDone && activeScript.None?
      ensures effects == []
    {
      session := None;
      sessionTimeout := None;
      cleanupDone := false;
      activeScript := None;
      effects := [];
    }

    /** Appends `es`, which kills and closes nothing, to the effects. */
    method Record(es: seq<Effect>)
      requires Kills(es) == 0 && Closes(es) == 0
      modifies this`effects
      ensures effects == old(effects) + es
      ensures Kills(effects) == old(Kills(effects)) && Closes(effects) == old(Closes(effects))
    {
      CountsAppend(effects, es);
      effects := effects + es;
    }

    /** `cleanupPty`: runs its body at most once per connection. */
    method Cleanup()
      requires Valid()
      modifies this
      ensures Valid()
      ensures cleanupDone
      ensures old(cleanupDone) ==> sessionTimeout == old(sessionTimeout) && effects == old(effects)
      ensures !old(cleanupDone) ==> sessionTimeout.None?
      ensures effects == old(effects) + CleanupEffects(old(cleanupDone), old(sessionTimeout), old(session))
      ensures session == old(session) && activeScript == old(activeScript)
    {
      var es := CleanupEffects(cleanupDone, sessionTimeout, session);
      CountsAppend(effects, es);
      if cleanupDone {
        return;
      }
      cleanupDone := true;
      sessionTimeout := None;
      effects := effects + es;
    }

    /** `start`: resolve the shell from `$SHELL` and the files on disk and
        spawn it; `spawn` is the outcome of that spawn. On success replace
        the session, restart the timer and report `started`; on failure
        report the error, naming the resolved shell, and keep the state.
        The previous session, if any, is left running. */
    method Start(envShell: Option<string>, existsOnDisk: string -> bool, spawn: Spawn, timer: nat)
      returns (shell: string)
      requires Valid()
      modifies this
      ensures Valid()
      ensures Shell.IsResolved(Shell.Candidates(envShell), existsOnDisk, shell)
      ensures cleanupDone == old(cleanupDone) && activeScript == old(activeScript)
      ensures spawn.SpawnFailed? ==>
        && session == old(session) && sessionTimeout == old(sessionTimeout)
        && effects == old(effects) + [Send(ErrorReply("Failed to spawn shell (" + shell + "): " + spawn.message))]
      ensures spawn.Spawned? ==>
        && session == Some(spawn.session) && sessionTimeout == Some(timer)
        && effects == old(effects)
             + (if old(sessionTimeout).Some? then [ClearTimer(old(sessionTimeout).value)] else [])
             + [SetTimer(timer, SessionTimeoutMs), Send(Started)]
    {
      shell := Shell.ResolveShell(envShell, existsOnDisk);
      if spawn.SpawnFailed? {
        Record([Send(ErrorReply("Failed to spawn shell (" + shell + "): " + spawn.message))]);
        return;
      }
      session := Some(spawn.session);
      var clear := if sessionTimeout.Some? then [ClearTimer(sessionTimeout.value)] else [];
      Record(clear);
      Record([SetTimer(timer, SessionTimeoutMs)]);
      Record([Send(Started)]);
      assert effects == old(effects) + clear + [SetTimer(timer, SessionTimeoutMs), Send(Started)];
      sessionTimeout := Some(timer);
    }

    /** The session's output: sent to the browser after highlighting. */
    method Output(data: string)
      requires Valid()
      modifies this`effects
      ensures Valid()
      ensures effects == old(effects) + [Send(DataReply(Highlight.Highlight(data)))]
    {
      Record([Send(DataReply(Highlight.Highlight(data)))]);
    }

    /** The session exited: report its exit code and clean up. */
    method Exited(exitCode: int)
      requires Valid()
      modifies this
      ensures Valid() && cleanupDone
      ensures session == old(session) && activeScript == old(activeScript)
      ensures sessionTimeout == if old(cleanupDone) then old(sessionTimeout) else None
      ensures effects == old(effects) + [Send(ExitReply(exitCode))]
        + CleanupEffects(old(cleanupDone), old(sessionTimeout), old(session))
    {
      Record([Send(ExitReply(exitCode))]);
      Cleanup();
    }

    /** The session timer fired: report it, clean up and close the socket. */
    method TimedOut()
      requires Valid()
      modifies this
      ensures Valid() && cleanupDone
      ensures session == old(session) && activeScript == old(activeScript)
      ensures sessionTimeout == if old(cleanupDone) then old(sessionTimeout) else None
      ensures effects == old(effects) + [Send(ErrorReply("Session timeout reached"))]
        + CleanupEffects(old(cleanupDone), old(sessionTimeout), old(session))
        + [CloseSocket(1000, "Session timeout")]
    {
      Record([Send(ErrorReply("Session timeout reached"))]);
      Cleanup();
      Record([CloseSocket(1000, "Session timeout")]);
    }

    /** The socket closed or failed: clean up. */
    method SocketClosed()
      requires Valid()
      modifies this
      ensures Valid() && cleanupDone
      ensures session == old(session) && activeScript == old(activeScript)
      ensures sessionTimeout == if old(cleanupDone) then old(sessionTimeout) else None
      ensures effects == old(effects) + CleanupEffects(old(cleanupDone), old(sessionTimeout), old(session))
    {
      Cleanup();
    }

    /** `data`: forward the input to the session, if there is one. */
    method Data(data: string)
      requires Valid()
      modifies this`effects
      ensures Valid()
      ensures effects == old(effects) + (if session.Some? then [Write(session.value.id, data)] else [])
    {
      if session.Some? {
        Record([Write(session.value.id, data)]);
      } else {
        Record([]);
      }
    }

    /** `resize`: resize the session when it has a PTY. */
    method ResizeTerminal(cols: int, rows: int)
      requires Valid()
      modifies this`effects
      ensures Valid()
      ensures effects == old(effects)
        + (if session.Some? && session.value.resizable then [Resize(session.value.id, cols, rows)] else [])
    {
      if session.Some? && session.value.resizable {
        Record([Resize(session.value.id, cols, rows)]);
      } else {
        Record([]);
      }
    }

    /** `stop`: report exit code 0 and clean up. */
    method Stop()
      requires Valid()
      modifies this
      ensures Valid() && cleanupDone
      ensures session == old(session) && activeScript == old(activeScript)
      ensures sessionTimeout == if old(cleanupDone) then old(sessionTimeout) else None
      ensures effects == old(effects) + [Send(ExitReply(0))]
        + CleanupEffects(old(cleanupDone), old(sessionTimeout), old(session))
    {
      Record([Send(ExitReply(0))]);
      Cleanup();
    }

    /** `execute`: a script outside the allowed directories is refused with
        an error and nothing else; an allowed one becomes the active script
        and its command is typed into the session, if there is one. The
        check is made on the resolved path, the command uses the path as
        sent. */
    method Execute(scriptPath: string, resolved: string, allowedDirs: seq<string>)
      requires Valid()
      modifies this
      ensures Valid()
      ensures session == old(session) && sessionTimeout == old(sessionTimeout) && cleanupDone == old(cleanupDone)
      ensures !IsScriptAllowed(resolved, allowedDirs) ==>
        activeScript == old(activeScript) && effects == old(effects) + [Send(ErrorReply("Script not in allowed directories"))]
      ensures IsScriptAllowed(resolved, allowedDirs) && session.None? ==>
        activeScript == old(activeScript) && effects == old(effects)
      ensures IsScriptAllowed(resolved, allowedDirs) && session.Some? ==>
        activeScript == Some(scriptPath) && effects == old(effects) + [Write(session.value.id, ExecuteCommand(scriptPath))]
    {
      if !IsScriptAllowed(resolved, allowedDirs) {
        Record([Send(ErrorReply("Script not in allowed directories"))]);
        return;
      }
      if session.Some? {
        activeScript := Some(scriptPath);
        Record([Write(session.value.id, ExecuteCommand(scriptPath))]);
      }
    }

    /** `java-run`: refuse empty code; report a failure to create the
        directory or to write `Main.java`; otherwise make `Main.java` the
        active script and type the `java` command into the session, if
        there is one. */
    method JavaRun(code: string, enablePreview: bool, fs: FsOutcome)
      requires Valid()
      modifies this
      ensures Valid()
      ensures session == old(session) && sessionTimeout == old(sessionTimeout) && cleanupDone == old(cleanupDone)
      ensures code == "" ==>
        activeScript == old(activeScript) && effects == old(effects) + [Send(ErrorReply("No Java code provided"))]
      ensures code != "" && fs.MkdirFailed? ==>
        activeScript == old(activeScript)
        && effects == old(effects) + [Send(ErrorReply("Failed to create /tmp/slides directory: " + fs.message))]
      ensures code != "" && fs.WriteFailed? ==>
        activeScript == old(activeScript)
        && effects == old(effects) + [Send(ErrorReply("Failed to write Java file: " + fs.message))]
      ensures code != "" && fs.FsOk? && session.None? ==>
        activeScript == old(activeScript) && effects == old(effects)
      ensures code != "" && fs.FsOk? && session.Some? ==>
        activeScript == Some(MainJavaPath)
        && effects == old(effects) + [Write(session.value.id, JavaRunCommand(enablePreview))]
    {
      if code == "" {
        Record([Send(ErrorReply("No Java code provided"))]);
        return;
      }
      match fs {
        case MkdirFailed(message) =>
          Record([Send(ErrorReply("Failed to create /tmp/slides directory: " + message))]);
        case WriteFailed(message) =>
          Record([Send(ErrorReply("Failed to write Java file: " + message))]);
        case FsOk =>
          if session.Some? {
            activeScript := Some(MainJavaPath);
            Record([Write(session.value.id, JavaRunCommand(enablePreview))]);
          }
      }
    }

    /** `execute-direct`: refuse an empty command. With additional files,
        report a failure to create `/tmp/slides`, or make it the active
        script and run the command there. Without, run the command in
        `message.cwd || root`; the active script is left as it was. */
    method ExecuteDirect(command: string, messageCwd: string, root: string, hasFiles: bool, mkdirError: Option<string>)
      requires Valid()
      modifies this
      ensures Valid()
      ensures session == old(session) && sessionTimeout == old(sessionTimeout) && cleanupDone == old(cleanupDone)
      ensures command == "" ==>
        activeScript == old(activeScript) && effects == old(effects) + [Send(ErrorReply("No command provided"))]
      ensures command != "" && hasFiles && mkdirError.Some? ==>
        activeScript == old(activeScript)
        && effects == old(effects) + [Send(ErrorReply("Failed to create /tmp/slides directory: " + mkdirError.value))]
      ensures command != "" && hasFiles && mkdirError.None? && session.Some? ==>
        activeScript == Some(SlidesTmpDir)
        && effects == old(effects) + [Write(session.value.id, SubshellCommand(Some(SlidesTmpDir), command))]
      ensures command != "" && !hasFiles && session.Some? ==>
        activeScript == old(activeScript)
        && effects == old(effects) + [Write(session.value.id, DirectCommand(DirectCwd(messageCwd, root), command))]
      ensures command != "" && (!hasFiles || mkdirError.None?) && session.None? ==>
        activeScript == old(activeScript) && effects == old(effects)
    {
      if command == "" {
        Record([Send(ErrorReply("No command provided"))]);
        return;
      }
      if hasFiles {
        if mkdirError.Some? {
          Record([Send(ErrorReply("Failed to create /tmp/slides directory: " + mkdirError.value))]);
        } else if session.Some? {
          activeScript := Some(SlidesTmpDir);
          Record([Write(session.value.id, SubshellCommand(Some(SlidesTmpDir), command))]);
        }
      } else if session.Some? {
        Record([Write(session.value.id, DirectCommand(DirectCwd(messageCwd, root), command))]);
      }
    }
  }
}
