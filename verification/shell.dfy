/** Choice of the shell a new session runs. Whether a file exists on disk is
    a parameter of the model. */
module Shell {
  import opened Wrappers

  /** The shells tried after `$SHELL`, in order. */
  const FallbackShells: seq<string> := ["/bin/bash", "/usr/bin/bash", "/bin/zsh", "/usr/bin/zsh", "/bin/sh"]

  /** The shell used when no candidate exists: `sh`, looked up on `PATH`. */
  const LastResort: string := "sh"

  /** The candidate list with falsy entries filtered out: `$SHELL` first
      when it is set and non-empty, then the fixed shells. */
  function Candidates(envShell: Option<string>): (cands: seq<string>)
    ensures envShell.Some? && envShell.value != "" ==> cands == [envShell.value] + FallbackShells
    ensures envShell.None? || envShell.value == "" ==> cands == FallbackShells
    ensures forall i :: 0 <= i < |cands| ==> cands[i] != ""
  {
    if envShell.Some? && envShell.value != "" then [envShell.value] + FallbackShells else FallbackShells
  }

  /** `cands[i]` is the first candidate that exists. */
  predicate FirstExistingAt(cands: seq<string>, existsOnDisk: string -> bool, i: int) {
    0 <= i < |cands| && existsOnDisk(cands[i]) && forall j :: 0 <= j < i ==> !existsOnDisk(cands[j])
  }

  /** `shell` is what resolution picks from `cands`: the first candidate
      that exists, or `sh` when none does. */
  predicate IsResolved(cands: seq<string>, existsOnDisk: string -> bool, shell: string) {
    || (exists i :: 0 <= i < |cands| && FirstExistingAt(cands, existsOnDisk, i) && shell == cands[i])
    || (shell == LastResort && forall j :: 0 <= j < |cands| ==> !existsOnDisk(cands[j]))
  }

  /** `resolveShell`. */
  method ResolveShell(envShell: Option<string>, existsOnDisk: string -> bool) returns (shell: string)
    ensures IsResolved(Candidates(envShell), existsOnDisk, shell)
  {
    var cands := Candidates(envShell);
    for k := 0 to |cands|
      invariant forall j :: 0 <= j < k ==> !existsOnDisk(cands[j])
    {
      if cands[k] != "" && existsOnDisk(cands[k]) {
        return cands[k];
      }
    }
    return LastResort;
  }

  /** The resolution rule leaves no choice: one shell satisfies it. */
  lemma ResolvedUnique(cands: seq<string>, existsOnDisk: string -> bool, s1: string, s2: string)
    requires IsResolved(cands, existsOnDisk, s1) && IsResolved(cands, existsOnDisk, s2)
    ensures s1 == s2
  {
    if exists i :: FirstExistingAt(cands, existsOnDisk, i) {
      var i1 :| FirstExistingAt(cands, existsOnDisk, i1) && s1 == cands[i1];
      var i2 :| FirstExistingAt(cands, existsOnDisk, i2) && s2 == cands[i2];
      assert !(i1 < i2) && !(i2 < i1);
    }
  }

  /** When `$SHELL` names an existing file it is the shell chosen. */
  lemma EnvShellWins(envShell: string, existsOnDisk: string -> bool, shell: string)
    requires envShell != "" && existsOnDisk(envShell)
    requires IsResolved(Candidates(Some(envShell)), existsOnDisk, shell)
    ensures shell == envShell
  {
    var cands := Candidates(Some(envShell));
    assert cands[0] == envShell;
    assert FirstExistingAt(cands, existsOnDisk, 0);
    var i :| FirstExistingAt(cands, existsOnDisk, i) && shell == cands[i];
    assert FirstExistingAt(cands, existsOnDisk, i);
    assert existsOnDisk(cands[0]);
    assert i == 0;
  }
}
