/** The JavaScript string operations the terminal server is built from:
    `startsWith`, `includes`, `split` on one character, `join`, `trim` and a
    global `replace` of a literal pattern. Strings are sequences of
    characters; `trim` is restricted to ASCII whitespace. */
module Strings {

  /** `s.startsWith(t)`. */
  predicate StartsWith(s: string, t: string) {
    |t| <= |s| && s[..|t|] == t
  }

  /** `s.endsWith(t)`. */
  predicate EndsWith(s: string, t: string) {
    |t| <= |s| && s[|s| - |t|..] == t
  }

  /** `s.includes(t)`: some position of `s` starts an occurrence of `t`. */
  predicate Contains(s: string, t: string)
    decreases |s|
  {
    StartsWith(s, t) || (|s| > 0 && Contains(s[1..], t))
  }

  /** `t` occurs in `s` starting at index `i`. */
  predicate OccursAt(s: string, t: string, i: int) {
    0 <= i && i + |t| <= |s| && s[i..i + |t|] == t
  }

  /** Contains is the search for an occurrence at some index. */
  lemma {:induction false} ContainsIff(s: string, t: string)
    ensures Contains(s, t) <==> exists i :: OccursAt(s, t, i)
    decreases |s|
  {
    if StartsWith(s, t) {
      assert OccursAt(s, t, 0);
    } else if |s| > 0 {
      ContainsIff(s[1..], t);
      if Contains(s[1..], t) {
        var i :| OccursAt(s[1..], t, i);
        assert s[1..][i..i + |t|] == s[i + 1..i + 1 + |t|];
        assert OccursAt(s, t, i + 1);
      } else {
        forall i | OccursAt(s, t, i)
          ensures false
        {
          if i > 0 {
            assert s[1..][i - 1..i - 1 + |t|] == s[i..i + |t|];
            assert OccursAt(s[1..], t, i - 1);
          }
        }
      }
    }
  }

  /** An occurrence at index `i` makes `s` contain `t`. */
  lemma ContainsAt(s: string, t: string, i: nat)
    requires OccursAt(s, t, i)
    ensures Contains(s, t)
  {
    ContainsIff(s, t);
  }

  /** Every character of an occurrence is a character of the string. */
  lemma ContainsChars(s: string, t: string)
    requires Contains(s, t)
    ensures forall c :: c in t ==> c in s
  {
    ContainsIff(s, t);
    var i :| OccursAt(s, t, i);
    forall c | c in t
      ensures c in s
    {
      var k :| 0 <= k < |t| && t[k] == c;
      assert s[i..i + |t|][k] == c;
    }
  }

  /** Concatenation is associative. */
  lemma AppendAssoc<T>(x: seq<T>, y: seq<T>, z: seq<T>)
    ensures x + (y + z) == (x + y) + z
  {
  }

  /** Cutting a concatenation inside its first part. */
  lemma AppendAt<T>(a: seq<T>, b: seq<T>, k: nat)
    requires k <= |a|
    ensures (a + b)[k..] == a[k..] + b
    ensures a + b == a[..k] + (a[k..] + b)
    ensures (a + b)[..k] == a[..k]
  {
  }

  /** A sequence is its two halves around any cut. */
  lemma CutAt<T>(s: seq<T>, k: nat)
    requires k <= |s|
    ensures s[..k] + s[k..] == s
  {
  }

  /** `s.split(sep)` for a one-character separator: the maximal runs of
      non-separator characters, in order; `"".split(sep)` is `[""]`. */
  function Split(s: string, sep: char): (lines: seq<string>)
    ensures |lines| >= 1
    ensures forall i :: 0 <= i < |lines| ==> sep !in lines[i]
    ensures forall i, c :: 0 <= i < |lines| && c in lines[i] ==> c in s
    decreases |s|
  {
    if s == [] then [[]]
    else
      var rest := Split(s[1..], sep);
      assert forall c :: c in s[1..] ==> c in s;
      if s[0] == sep then [[]] + rest
      else [[s[0]] + rest[0]] + rest[1..]
  }

  /** `lines.join(sep)`. */
  function Join(lines: seq<string>, sep: char): string
    decreases |lines|
  {
    if |lines| == 0 then []
    else if |lines| == 1 then lines[0]
    else lines[0] + [sep] + Join(lines[1..], sep)
  }

  /** `lines.map(f)`. */
  function Map(f: string -> string, lines: seq<string>): (r: seq<string>)
    ensures |r| == |lines|
    ensures forall i :: 0 <= i < |lines| ==> r[i] == f(lines[i])
    decreases |lines|
  {
    if lines == [] then [] else [f(lines[0])] + Map(f, lines[1..])
  }

  /** Joining the pieces of a split gives back the original text. */
  lemma {:induction false} JoinSplit(s: string, sep: char)
    ensures Join(Split(s, sep), sep) == s
    decreases |s|
  {
    if s != [] {
      var rest := Split(s[1..], sep);
      JoinSplit(s[1..], sep);
      if s[0] == sep {
        assert ([[]] + rest)[1..] == rest;
      } else if |rest| == 1 {
        assert [s[0]] + s[1..] == s;
      } else {
        var lines := [[s[0]] + rest[0]] + rest[1..];
        var tail := Join(rest[1..], sep);
        assert lines[1..] == rest[1..];
        assert Join(lines, sep) == ([s[0]] + rest[0]) + [sep] + tail;
        assert Join(rest, sep) == rest[0] + [sep] + tail;
        AppendAssoc([s[0]] + rest[0], [sep], tail);
        AppendAssoc([s[0]], rest[0], [sep] + tail);
        AppendAssoc(rest[0], [sep], tail);
        assert [s[0]] + s[1..] == s;
      }
    }
  }

  /** Splitting a separator-free piece followed by a separator yields that
      piece first; a separator-free text splits into itself alone. */
  lemma {:induction false} SplitPiece(x: string, y: string, sep: char)
    requires sep !in x
    ensures Split(x + [sep] + y, sep) == [x] + Split(y, sep)
    ensures Split(x, sep) == [x]
    decreases |x|
  {
    if x == [] {
      assert [] + [sep] + y == [sep] + y;
      assert ([sep] + y)[1..] == y;
    } else {
      SplitPiece(x[1..], y, sep);
      assert (x + [sep] + y)[1..] == x[1..] + [sep] + y;
      assert [x[0]] + x[1..] == x;
    }
  }

  /** Splitting a join of separator-free lines gives back the lines. */
  lemma {:induction false} SplitJoin(lines: seq<string>, sep: char)
    requires |lines| >= 1
    requires forall i :: 0 <= i < |lines| ==> sep !in lines[i]
    ensures Split(Join(lines, sep), sep) == lines
    decreases |lines|
  {
    if |lines| == 1 {
      SplitPiece(lines[0], [], sep);
    } else {
      SplitJoin(lines[1..], sep);
      SplitPiece(lines[0], Join(lines[1..], sep), sep);
      assert [lines[0]] + lines[1..] == lines;
    }
  }

  /** The whitespace `trim` removes, restricted to ASCII: space, tab, line
      feed, vertical tab, form feed and carriage return. */
  predicate IsSpace(c: char) {
    c == ' ' || c == '\t' || c == '\n' || c == '\U{B}' || c == '\U{C}' || c == '\r'
  }

  /** `s.trimStart()`: the longest suffix of `s` not starting with whitespace. */
  function TrimStart(s: string): (r: string)
    ensures |r| <= |s| && r == s[|s| - |r|..]
    ensures forall i :: 0 <= i < |s| - |r| ==> IsSpace(s[i])
    ensures r == [] || !IsSpace(r[0])
    decreases |s|
  {
    if s != [] && IsSpace(s[0]) then TrimStart(s[1..]) else s
  }

  /** `s.trimEnd()`: the longest prefix of `s` not ending with whitespace. */
  function TrimEnd(s: string): (r: string)
    ensures |r| <= |s| && r == s[..|r|]
    ensures forall i :: |r| <= i < |s| ==> IsSpace(s[i])
    ensures r == [] || !IsSpace(r[|r| - 1])
    decreases |s|
  {
    if s != [] && IsSpace(s[|s| - 1]) then TrimEnd(s[..|s| - 1]) else s
  }

  /** The number of whitespace characters `trimStart` removes. */
  function LeadingSpace(s: string): (k: nat)
    ensures k <= |s|
  {
    |s| - |TrimStart(s)|
  }

  /** `s.trim()`: the slice of `s` left once the whitespace at both ends is
      removed; it neither starts nor ends with whitespace. */
  function Trim(s: string): (r: string)
    ensures LeadingSpace(s) + |r| <= |s| && r == s[LeadingSpace(s)..LeadingSpace(s) + |r|]
    ensures forall i :: 0 <= i < LeadingSpace(s) ==> IsSpace(s[i])
    ensures forall i :: LeadingSpace(s) + |r| <= i < |s| ==> IsSpace(s[i])
    ensures r == [] || (!IsSpace(r[0]) && !IsSpace(r[|r| - 1]))
  {
    var t := TrimStart(s);
    var r := TrimEnd(t);
    TrimSlice(s, t, r);
    TrimTail(s, t, r);
    TrimHead(t, r);
    r
  }

  lemma TrimSlice(s: string, t: string, r: string)
    requires t == TrimStart(s) && r == TrimEnd(t)
    ensures LeadingSpace(s) + |r| <= |s| && r == s[LeadingSpace(s)..LeadingSpace(s) + |r|]
  {
    SliceOfSuffix(s, t, r, LeadingSpace(s));
  }

  /** A prefix of a suffix of `s` is a slice of `s`. */
  lemma SliceOfSuffix(s: string, t: string, r: string, k: nat)
    requires k + |t| == |s| && t == s[k..]
    requires |r| <= |t| && r == t[..|r|]
    ensures k + |r| <= |s| && r == s[k..k + |r|]
  {
    TakeOfDrop(s, k, |r|);
  }

  lemma TrimTail(s: string, t: string, r: string)
    requires t == TrimStart(s) && r == TrimEnd(t)
    ensures forall i :: LeadingSpace(s) + |r| <= i < |s| ==> IsSpace(s[i])
  {
    SpaceAfter(s, t, |r|);
  }

  lemma TrimHead(t: string, r: string)
    requires t == [] || !IsSpace(t[0])
    requires r == TrimEnd(t)
    ensures r == [] || !IsSpace(r[0])
  {
    if r != [] {
      assert r[0] == t[0];
    }
  }

  /** Whitespace at the end of a suffix is whitespace at the end of the text. */
  lemma SpaceAfter(s: string, t: string, m: nat)
    requires |t| <= |s| && t == s[|s| - |t|..] && m <= |t|
    requires forall j :: m <= j < |t| ==> IsSpace(t[j])
    ensures forall i :: |s| - |t| + m <= i < |s| ==> IsSpace(s[i])
  {
    forall i | |s| - |t| + m <= i < |s|
      ensures IsSpace(s[i])
    {
      assert s[i] == t[i - (|s| - |t|)];
    }
  }

  /** A prefix of a suffix is a slice. */
  lemma TakeOfDrop<T>(s: seq<T>, k: nat, m: nat)
    requires k + m <= |s|
    ensures s[k..][..m] == s[k..k + m]
  {
  }

  /** `s.replace(/pat/g, rep)` for a literal pattern: every occurrence of
      `pat`, scanned left to right without overlap, becomes `rep`. */
  function ReplaceAll(s: string, pat: string, rep: string): (r: string)
    requires pat != []
    ensures !Contains(s, pat) ==> r == s
    ensures forall c :: c in r ==> c in s || c in rep
    decreases |s|
  {
    if s == [] then []
    else if StartsWith(s, pat) then rep + ReplaceAll(s[|pat|..], pat, rep)
    else [s[0]] + ReplaceAll(s[1..], pat, rep)
  }

  /** A prefix holding no first character of the pattern is copied unchanged. */
  lemma {:induction false} ReplaceAllSkips(e: string, t: string, pat: string, rep: string)
    requires pat != [] && pat[0] !in e
    ensures ReplaceAll(e + t, pat, rep) == e + ReplaceAll(t, pat, rep)
    decreases |e|
  {
    if e != [] {
      AppendAt(e, t, 1);
      assert (e + t)[0] == e[0] != pat[0];
      assert !StartsWith(e + t, pat);
      ReplaceAllSkips(e[1..], t, pat, rep);
      AppendAssoc([e[0]], e[1..], ReplaceAll(t, pat, rep));
      assert [e[0]] + e[1..] == e;
    } else {
      assert e + t == t;
    }
  }

  /** A pattern whose first character does not recur in it cannot overlap
      itself, so an occurrence between two texts is replaced however the
      texts around it are made: the replacement is global. */
  lemma {:induction false} ReplaceAllAround(a: string, pat: string, rep: string, b: string)
    requires pat != []
    requires forall i :: 0 < i < |pat| ==> pat[i] != pat[0]
    ensures ReplaceAll(a + pat + b, pat, rep) == ReplaceAll(a, pat, rep) + rep + ReplaceAll(b, pat, rep)
    decreases |a|
  {
    var s := a + pat + b;
    AppendAssoc(a, pat, b);
    if a == [] {
      assert s == pat + b;
      AppendAt(pat, b, |pat|);
      assert StartsWith(s, pat);
    } else if StartsWith(a, pat) {
      var t := a[|pat|..];
      AppendAt(a, pat + b, |pat|);
      assert StartsWith(s, pat);
      ReplaceAllAround(t, pat, rep, b);
      AppendAssoc(t, pat, b);
      AppendAssoc(rep, ReplaceAll(t, pat, rep), rep + ReplaceAll(b, pat, rep));
      AppendAssoc(ReplaceAll(t, pat, rep), rep, ReplaceAll(b, pat, rep));
      AppendAssoc(rep + ReplaceAll(t, pat, rep), rep, ReplaceAll(b, pat, rep));
    } else {
      NoPatternAtHead(a, pat, b);
      AppendAt(a, pat + b, 1);
      ReplaceAllAround(a[1..], pat, rep, b);
      AppendAssoc(a[1..], pat, b);
      var ra, rb := ReplaceAll(a[1..], pat, rep), ReplaceAll(b, pat, rep);
      AppendAssoc([a[0]], ra, rep + rb);
      AppendAssoc(ra, rep, rb);
      AppendAssoc([a[0]] + ra, rep, rb);
    }
  }

  /** Before an occurrence of a non-overlapping pattern, a text that does
      not start with the pattern does not make the whole start with it. */
  lemma NoPatternAtHead(a: string, pat: string, b: string)
    requires pat != [] && a != [] && !StartsWith(a, pat)
    requires forall i :: 0 < i < |pat| ==> pat[i] != pat[0]
    ensures !StartsWith(a + (pat + b), pat)
  {
    var s := a + (pat + b);
    if |a| >= |pat| {
      AppendAt(a, pat + b, |pat|);
    } else {
      assert s[|a|] == pat[0] != pat[|a|];
      assert s[..|pat|][|a|] != pat[|a|];
    }
  }

  /** Replacing back undoes a replacement, provided the replacement text
      starts with a character the original text never holds. */
  lemma {:induction false} ReplaceAllUndo(s: string, pat: string, rep: string)
    requires pat != [] && rep != [] && rep[0] !in s
    ensures ReplaceAll(ReplaceAll(s, pat, rep), rep, pat) == s
    decreases |s|
  {
    if s != [] {
      if StartsWith(s, pat) {
        var rest := s[|pat|..];
        ReplaceAllUndo(rest, pat, rep);
        var t := ReplaceAll(rest, pat, rep);
        assert (rep + t)[..|rep|] == rep;
        assert (rep + t)[|rep|..] == t;
        assert s == pat + rest;
      } else {
        ReplaceAllUndo(s[1..], pat, rep);
        var t := ReplaceAll(s[1..], pat, rep);
        assert ([s[0]] + t)[0] == s[0] != rep[0];
        assert ([s[0]] + t)[1..] == t;
        assert [s[0]] + s[1..] == s;
      }
    }
  }
}
