/** The log-level gate of the terminal server: a message is written when
    its level is at most as verbose as the configured level. */
module Logging {
  import opened Wrappers

  /** `LOG_LEVELS`: lower ranks are more severe. */
  const LogLevels: map<string, nat> := map["error" := 0, "warn" := 1, "info" := 2, "debug" := 3]

  /** The properties every plain JavaScript object inherits from
      `Object.prototype`. Looking one of them up in `LOG_LEVELS` finds a
      function or an object, not a rank and not `undefined`. */
  const InheritedKeys: set<string> := {
    "constructor", "__proto__", "hasOwnProperty", "isPrototypeOf",
    "propertyIsEnumerable", "toLocaleString", "toString", "valueOf",
    "__defineGetter__", "__defineSetter__", "__lookupGetter__", "__lookupSetter__"
  }

  /** ASCII `toLowerCase` of one character. */
  function LowerChar(c: char): (r: char)
    ensures !('A' <= r <= 'Z')
    ensures 'A' <= c <= 'Z' ==> r as int == c as int + 32
    ensures !('A' <= c <= 'Z') ==> r == c
  {
    if 'A' <= c <= 'Z' then (c as int + 32) as char else c
  }

  /** `LOG_LEVEL`: `(TERMINAL_SERVER_LOG_LEVEL || 'info').toLowerCase()`, where
      an unset or empty variable counts as absent. */
  function ConfiguredLevel(env: Option<string>): (level: string)
    ensures env.None? || env == Some("") ==> level == "info"
    ensures env.Some? && env.value != "" ==>
      |level| == |env.value| && forall i :: 0 <= i < |level| ==> level[i] == LowerChar(env.value[i])
    ensures forall i :: 0 <= i < |level| ==> !('A' <= level[i] <= 'Z')
  {
    var raw := if env.Some? && env.value != "" then env.value else "info";
    seq(|raw|, i requires 0 <= i < |raw| => LowerChar(raw[i]))
  }

  /** Lower-casing the configured level again changes nothing. */
  lemma ConfiguredLevelIdempotent(env: Option<string>)
    ensures ConfiguredLevel(Some(ConfiguredLevel(env))) == ConfiguredLevel(env)
  {
    var level := ConfiguredLevel(env);
    assert level != "" by {
      if env.None? || env == Some("") { assert level == "info"; }
    }
    var again := ConfiguredLevel(Some(level));
    assert |again| == |level|;
    forall i | 0 <= i < |level|
      ensures again[i] == level[i]
    {
      assert !('A' <= level[i] <= 'Z');
    }
  }

  /** The variable is read case-insensitively: `DEBUG` configures `debug`. */
  lemma ConfiguredLevelUpperCase()
    ensures ConfiguredLevel(Some("DEBUG")) == "debug"
    ensures ConfiguredLevel(Some("Constructor")) == "constructor"
  {
    var d := ConfiguredLevel(Some("DEBUG"));
    assert d[0] == 'd' && d[1] == 'e' && d[2] == 'b' && d[3] == 'u' && d[4] == 'g';
    var c := ConfiguredLevel(Some("Constructor"));
    assert c[0] == 'c';
    assert c[1..] == "Constructor"[1..];
  }

  /** `LOG_LEVELS[LOG_LEVEL] ?? LOG_LEVELS.info`: the configured rank, the
      rank of `info` for a level the object lacks, and no number at all for
      an inherited property, which is neither a rank nor nullish. */
  function Threshold(configured: string): (t: Option<nat>)
    ensures configured in LogLevels ==> t == Some(LogLevels[configured])
    ensures configured !in LogLevels && configured !in InheritedKeys ==> t == Some(LogLevels["info"])
    ensures t.None? <==> configured in InheritedKeys
  {
    if configured in LogLevels then Some(LogLevels[configured])
    else if configured in InheritedKeys then None
    else Some(LogLevels["info"])
  }

  /** `shouldLog(level)`. A level missing from the table ranks `undefined`
      (or, for an inherited property, a function), and comparing either
      with a number is false, so it is never logged. A configured level
      missing from the table falls back to the rank of `info`; a configured
      inherited property makes every comparison false. */
  function ShouldLog(level: string, configured: string): (r: bool)
    ensures r ==> level in LogLevels
    ensures configured in InheritedKeys ==> !r
    ensures level == "error" && configured !in InheritedKeys ==> r
    ensures configured !in LogLevels && configured !in InheritedKeys ==>
      (r <==> level in {"error", "warn", "info"})
    ensures configured in LogLevels && level in LogLevels ==>
      (r <==> LogLevels[level] <= LogLevels[configured])
    ensures configured == "debug" ==> (r <==> level in LogLevels)
  {
    var threshold := Threshold(configured);
    level in LogLevels && threshold.Some? && LogLevels[level] <= threshold.value
  }

  /** Raising the configured verbosity never silences a message. */
  lemma ShouldLogMonotone(level: string, c1: string, c2: string)
    requires c1 in LogLevels && c2 in LogLevels && LogLevels[c1] <= LogLevels[c2]
    requires ShouldLog(level, c1)
    ensures ShouldLog(level, c2)
  {
  }

  /** A configured `constructor`, in any letter case, silences the server
      completely, `error` included. */
  lemma ConstructorSilencesAll(level: string)
    ensures !ShouldLog(level, ConfiguredLevel(Some("Constructor")))
    ensures !ShouldLog(level, ConfiguredLevel(Some("__proto__")))
  {
    ConfiguredLevelUpperCase();
    var p := ConfiguredLevel(Some("__proto__"));
    assert p[..] == "__proto__" by {
      forall i | 0 <= i < |p| ensures p[i] == "__proto__"[i] {
        assert !('A' <= "__proto__"[i] <= 'Z');
      }
    }
  }
}
