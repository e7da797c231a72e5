/** Route patterns: their normalisation and the static overlap test of
    internal/application/collision.go. */
module Patterns {
  import opened Text

  /** The segments the overlap test and the matcher both work on. */
  function Segments(path: string): (parts: seq<string>)
    ensures |parts| >= 1
    ensures forall i :: 0 <= i < |parts| ==> '/' !in parts[i]
  {
    Split(Trim(path, '/'), '/')
  }

  // ---------- normalizePath ----------

  /** The number of leading characters of s other than stop. */
  function Run(s: string, stop: char): (n: nat)
    ensures n <= |s|
    ensures stop !in s[..n]
    ensures n < |s| ==> s[n] == stop
  {
    if s == "" || s[0] == stop then 0 else 1 + Run(s[1..], stop)
  }

  /** The length of the match of `:[^/]+|\{[^}]+\}` at the start of s; 0 for no match. */
  function ParamMatch(s: string): (n: nat)
    ensures n <= |s|
  {
    if s == "" then 0
    else if s[0] == ':' then
      var run := Run(s[1..], '/');
      if run == 0 then 0 else 1 + run
    else if s[0] == '{' then
      var run := Run(s[1..], '}');
      if run == 0 || 1 + run == |s| then 0 else run + 2
    else 0
  }

  /** normalizePath: every match, scanning from the left, becomes an asterisk. */
  function Normalize(s: string): string
    decreases |s|
  {
    if s == "" then ""
    else
      var n := ParamMatch(s);
      if n > 0 then "*" + Normalize(s[n..]) else [s[0]] + Normalize(s[1..])
  }

  lemma {:induction false} RunUnique(s: string, stop: char, n: nat)
    requires n <= |s| && stop !in s[..n] && (n < |s| ==> s[n] == stop)
    ensures Run(s, stop) == n
  {
    if n > 0 {
      assert s[0] == s[..n][0];
      assert s[1..][..n - 1] == s[..n][1..];
      RunUnique(s[1..], stop, n - 1);
    }
  }

  /** One step of the scan: what replaces the first k characters. */
  lemma NormalizeStep(s: string, tail: string, k: nat) returns (head: string)
    requires s != "" && k == (if ParamMatch(s) > 0 then ParamMatch(s) else 1) && tail == s[k..]
    ensures head == if ParamMatch(s) > 0 then "*" else [s[0]]
    ensures Normalize(s) == head + Normalize(tail)
  {
    head := if ParamMatch(s) > 0 then "*" else [s[0]];
  }

  /** What a scan keeps: emptiness, a leading slash, a leading or absent closing brace. */
  lemma {:induction false} NormalizeKeeps(s: string)
    ensures Normalize(s) == "" <==> s == ""
    ensures s != "" ==> (Normalize(s)[0] == '/' <==> s[0] == '/')
    ensures s != "" ==> (Normalize(s)[0] == '}' <==> s[0] == '}')
    ensures '}' !in s ==> '}' !in Normalize(s)
    decreases |s|
  {
    if s != "" {
      var k := if ParamMatch(s) > 0 then ParamMatch(s) else 1;
      var tail := s[k..];
      NormalizeKeeps(tail);
      var head := NormalizeStep(s, tail, k);
    }
  }

  predicate EndsInSlash(s: string) {
    s != "" && s[|s| - 1] == '/'
  }

  lemma EndOfConcat(a: string, b: string, s: string)
    requires s == a + b
    ensures b != "" ==> (EndsInSlash(s) <==> EndsInSlash(b))
    ensures b == "" ==> s == a
  {
  }

  lemma {:induction false} NormalizeKeepsLast(s: string)
    requires s != "" && !EndsInSlash(s)
    ensures Normalize(s) != "" && !EndsInSlash(Normalize(s))
    decreases |s|
  {
    var k := if ParamMatch(s) > 0 then ParamMatch(s) else 1;
    var tail := s[k..];
    var head := NormalizeStep(s, tail, k);
    EndOfConcat(s[..k], tail, s);
    EndOfConcat(head, Normalize(tail), Normalize(s));
    if tail == "" {
      assert Normalize(tail) == "";
      assert !EndsInSlash(head);
    } else {
      NormalizeKeepsLast(tail);
    }
  }

  /** normalizePath is idempotent, on every string. */
  lemma {:induction false} NormalizeIdempotent(s: string)
    ensures Normalize(Normalize(s)) == Normalize(s)
    decreases |s|
  {
    if s != "" {
      var n := ParamMatch(s);
      var tail := if n > 0 then s[n..] else s[1..];
      NormalizeIdempotent(tail);
      NormalizeKeeps(tail);
      var r := Normalize(s);
      assert r[1..] == Normalize(tail);
      assert ParamMatch(r) == 0 by {
        if n == 0 && s[0] == '{' && '}' !in s[1..] {
          RunUnique(r[1..], '}', |r[1..]|);
        }
      }
    }
  }

  /** A final slash stands for itself. */
  lemma {:induction false} NormalizeFinalSlash(a: string, s: string)
    requires s == a + "/"
    ensures Normalize(s) == Normalize(a) + "/"
    decreases |a|
  {
    if a == "" {
      assert s[1..] == "";
      var head := NormalizeStep(s, "", 1);
    } else {
      var n := ParamMatch(a);
      MatchBeforeFinalSlash(a, s);
      var k := if n > 0 then n else 1;
      assert s[k..] == a[k..] + "/";
      NormalizeFinalSlash(a[k..], s[k..]);
      var head := NormalizeStep(a, a[k..], k);
      var head' := NormalizeStep(s, s[k..], k);
      Reassociate(head, Normalize(a[k..]), "/");
    }
  }

  lemma Reassociate(a: string, b: string, c: string)
    ensures a + (b + c) == (a + b) + c
  {
  }

  lemma MatchBeforeFinalSlash(a: string, s: string)
    requires a != "" && s == a + "/"
    ensures ParamMatch(s) == ParamMatch(a)
  {
    assert s[1..] == a[1..] + "/";
    if a[0] == ':' {
      var n := Run(a[1..], '/');
      assert s[1..][..n] == a[1..][..n];
      RunUnique(s[1..], '/', n);
    } else if a[0] == '{' {
      var n := Run(a[1..], '}');
      if n < |a[1..]| {
        assert s[1..][..n] == a[1..][..n];
        RunUnique(s[1..], '}', n);
      } else {
        assert a[1..][..n] == a[1..];
        assert s[1..][..|s| - 1] == s[1..];
        RunUnique(s[1..], '}', |s| - 1);
      }
    }
  }

  lemma {:induction false} NormalizeTrimLeft(s: string)
    ensures Normalize(TrimLeft(s, '/')) == TrimLeft(Normalize(s), '/')
  {
    if s != "" {
      NormalizeKeeps(s);
      if s[0] == '/' {
        NormalizeTrimLeft(s[1..]);
        assert Normalize(s)[1..] == Normalize(s[1..]);
      }
    }
  }

  lemma {:induction false} NormalizeTrimRight(s: string)
    ensures Normalize(TrimRight(s, '/')) == TrimRight(Normalize(s), '/')
  {
    if s == "" {
    } else if s[|s| - 1] == '/' {
      var t := s[..|s| - 1];
      NormalizeTrimRight(t);
      NormalizeFinalSlash(t, s);
      TrimRightSlash(Normalize(t), Normalize(s));
    } else {
      NormalizeKeepsLast(s);
    }
  }

  lemma TrimRightSlash(r: string, s: string)
    requires s == r + "/"
    ensures TrimRight(s, '/') == TrimRight(r, '/')
  {
    assert s[..|s| - 1] == r;
  }

  /** Trimming slashes commutes with normalising, on every string. */
  lemma NormalizeTrim(s: string)
    ensures Normalize(Trim(s, '/')) == Trim(Normalize(s), '/')
  {
    NormalizeTrimLeft(s);
    NormalizeTrimRight(TrimLeft(s, '/'));
  }

  // ---------- segments ----------

  /** No match that the scan replaces contains a slash. */
  predicate KeepsSlashes(s: string)
    decreases |s|
  {
    if s == "" then true
    else
      var n := ParamMatch(s);
      if n > 0 then '/' !in s[..n] && KeepsSlashes(s[n..]) else KeepsSlashes(s[1..])
  }

  /** The pattern is read segment by segment: no brace group spans a slash. */
  predicate BraceLocal(pattern: string) {
    KeepsSlashes(Trim(pattern, '/'))
  }

  function NormalizeAll(parts: seq<string>): (r: seq<string>)
    ensures |r| == |parts|
    ensures forall i :: 0 <= i < |parts| ==> r[i] == Normalize(parts[i])
  {
    if parts == [] then [] else [Normalize(parts[0])] + NormalizeAll(parts[1..])
  }

  function Slashes(s: string): nat {
    if s == "" then 0 else (if s[0] == '/' then 1 else 0) + Slashes(s[1..])
  }

  lemma {:induction false} SplitLength(s: string)
    ensures |Split(s, '/')| == Slashes(s) + 1
  {
    if s != "" {
      SplitLength(s[1..]);
    }
  }

  lemma {:induction false} SlashesConcat(a: string, b: string, s: string)
    requires s == a + b
    ensures Slashes(s) == Slashes(a) + Slashes(b)
    ensures Slashes(a) == 0 <==> '/' !in a
  {
    if a == "" {
      assert s == b;
    } else {
      assert s[1..] == a[1..] + b;
      SlashesConcat(a[1..], b, s[1..]);
    }
  }

  /** The scan never adds a slash, and loses one exactly when a match contains one. */
  lemma {:induction false} NormalizedSlashes(s: string)
    ensures Slashes(Normalize(s)) <= Slashes(s)
    ensures Slashes(Normalize(s)) == Slashes(s) <==> KeepsSlashes(s)
    decreases |s|
  {
    if s != "" {
      var n := ParamMatch(s);
      var k := if n > 0 then n else 1;
      NormalizedSlashes(s[k..]);
      SlashesConcat(s[..k], s[k..], s);
      var head := NormalizeStep(s, s[k..], k);
      SlashesConcat(head, Normalize(s[k..]), Normalize(s));
      if n == 0 {
        assert s[..1] == [s[0]] == head;
      }
    }
  }

  /** What the scan does at the start of s it does at the start of the first segment alone. */
  lemma MatchInSegment(s: string, k: nat, rest: string, seg: string)
    requires s != "" && s[0] != '/' && k == (if ParamMatch(s) > 0 then ParamMatch(s) else 1) && '/' !in s[..k]
    requires rest == Split(s[k..], '/')[0] && seg == s[..k] + rest
    ensures ParamMatch(seg) == ParamMatch(s)
  {
    var n := ParamMatch(s);
    FirstSegment(s[k..], rest);
    assert seg[1..] == s[1..k] + rest;
    if s[0] == ':' {
      var run := Run(s[1..], '/');
      assert s[1..k] == s[1..][..run];
      assert rest == "";
      RunUnique(seg[1..], '/', run);
    } else if s[0] == '{' && n > 0 {
      var run := Run(s[1..], '}');
      assert seg[1..][..run] == s[1..][..run];
      assert seg[1 + run] == s[1 + run];
      RunUnique(seg[1..], '}', run);
    } else if s[0] == '{' {
      assert s[1..][..|s| - 1] == s[1..];
      if Run(s[1..], '}') > 0 {
        assert '}' !in rest;
        assert seg[1..][..|rest|] == rest;
        RunUnique(seg[1..], '}', |rest|);
      }
    }
  }

  /** The first segment is the part before the first slash. */
  lemma {:induction false} FirstSegment(s: string, first: string)
    requires first == Split(s, '/')[0]
    ensures first == s[..Run(s, '/')]
  {
    if s != "" && s[0] != '/' {
      FirstSegment(s[1..], Split(s[1..], '/')[0]);
      var n := Run(s[1..], '/');
      assert s[..n + 1] == [s[0]] + s[1..][..n];
    }
  }

  /** Splitting a slash-free text in front of s lengthens the first segment. */
  lemma {:induction false} SplitPrefix(a: string, tail: string, s: string)
    requires '/' !in a && s == a + tail
    ensures Split(s, '/') == [a + Split(tail, '/')[0]] + Split(tail, '/')[1..]
  {
    if a == "" {
      assert s == tail;
      assert a + Split(tail, '/')[0] == Split(tail, '/')[0];
    } else {
      assert s[1..] == a[1..] + tail;
      SplitPrefix(a[1..], tail, s[1..]);
      assert [a[0]] + (a[1..] + Split(tail, '/')[0]) == a + Split(tail, '/')[0];
    }
  }

  lemma {:induction false} SplitOfNormalized(s: string)
    requires KeepsSlashes(s)
    ensures Split(Normalize(s), '/') == NormalizeAll(Split(s, '/'))
    decreases |s|
  {
    if s != "" {
      var n := ParamMatch(s);
      var k := if n > 0 then n else 1;
      var tail := s[k..];
      SplitOfNormalized(tail);
      var head := NormalizeStep(s, tail, k);
      var T := Split(tail, '/');
      if s[0] == '/' {
        assert Normalize(s)[1..] == Normalize(tail);
        assert ([""] + T)[1..] == T;
      } else {
        var seg := s[..k] + T[0];
        assert s == s[..k] + tail;
        SplitPrefix(s[..k], tail, s);
        SplitPrefix(head, Normalize(tail), Normalize(s));
        MatchInSegment(s, k, T[0], seg);
        assert seg[k..] == T[0];
        var head' := NormalizeStep(seg, T[0], k);
        assert ([seg] + T[1..])[1..] == T[1..];
      }
    }
  }

  /** Normalising then splitting equals splitting then normalising each segment, exactly for
      the strings in which no match contains a slash; on the others segments are lost. */
  lemma NormalizeSplit(s: string)
    ensures Split(Normalize(s), '/') == NormalizeAll(Split(s, '/')) <==> KeepsSlashes(s)
    ensures !KeepsSlashes(s) ==> |Split(Normalize(s), '/')| < |Split(s, '/')|
  {
    NormalizedSlashes(s);
    SplitLength(s);
    SplitLength(Normalize(s));
    if KeepsSlashes(s) {
      SplitOfNormalized(s);
    }
  }

  /** The same for the segments that the overlap test compares. */
  lemma SegmentsOfNormalized(p: string)
    ensures Segments(Normalize(p)) == NormalizeAll(Segments(p)) <==> BraceLocal(p)
    ensures !BraceLocal(p) ==> |Segments(Normalize(p))| < |Segments(p)|
  {
    NormalizeTrim(p);
    NormalizeSplit(Trim(p, '/'));
  }

  /** The index of the first colon that has a character after it; |s| if there is none. */
  function FirstUsableColon(s: string): (n: nat)
    ensures n <= |s|
  {
    if |s| < 2 then |s| else if s[0] == ':' then 0 else 1 + FirstUsableColon(s[1..])
  }

  /** A brace-free segment is cut at its first usable colon. */
  lemma {:induction false} NormalizeSegment(s: string)
    requires '/' !in s && '{' !in s
    ensures var n := FirstUsableColon(s); Normalize(s) == if n < |s| then s[..n] + "*" else s
  {
    if s != "" {
      if s[0] == ':' && |s| >= 2 {
        assert s[1..][..|s| - 1] == s[1..];
        RunUnique(s[1..], '/', |s| - 1);
        assert Normalize(s) == "*" + Normalize(s[|s|..]);
      } else {
        if s[0] == ':' {
          assert Run(s[1..], '/') == 0;
        }
        NormalizeSegment(s[1..]);
        assert Normalize(s) == [s[0]] + Normalize(s[1..]);
        var n := FirstUsableColon(s);
        if n < |s| {
          assert s[..n] == [s[0]] + s[1..][..n - 1];
        }
      }
    }
  }

  /** A segment that begins with a usable colon is a parameter, whatever follows the colon. */
  lemma NormalizeNamed(s: string)
    requires |s| >= 2 && s[0] == ':' && '/' !in s
    ensures Normalize(s) == "*"
  {
    assert s[1..][..|s| - 1] == s[1..];
    RunUnique(s[1..], '/', |s| - 1);
    assert Normalize(s) == "*" + Normalize(s[|s|..]);
  }

  // ---------- the expression `:[^/]+|\{[^}]+\}`, spelled out ----------

  // These six equations cover every string: they say what becomes of its first match, if one
  // begins there, or of its first character.

  /** A brace group ends at its first closing brace. */
  lemma NormalizeBraceGroup(name: string, rest: string)
    requires name != "" && '}' !in name
    ensures Normalize("{" + name + "}" + rest) == "*" + Normalize(rest)
  {
    var s := "{" + name + "}" + rest;
    assert s[1..][..|name|] == name;
    RunUnique(s[1..], '}', |name|);
    assert s[|name| + 2..] == rest;
  }

  /** A parameter ends at the next slash, braces and further colons included. */
  lemma NormalizeParameter(name: string, rest: string)
    requires name != "" && '/' !in name && (rest == "" || rest[0] == '/')
    ensures Normalize(":" + name + rest) == "*" + Normalize(rest)
  {
    var s := ":" + name + rest;
    assert s[1..][..|name|] == name;
    RunUnique(s[1..], '/', |name|);
    assert s[|name| + 1..] == rest;
  }

  lemma NormalizeEmptyGroup(rest: string)
    ensures Normalize("{}" + rest) == "{}" + Normalize(rest)
  {
    var s := "{}" + rest;
    assert s[1..] == "}" + rest && s[1..][1..] == rest;
    assert ParamMatch(s) == 0 && ParamMatch(s[1..]) == 0;
    assert "{" + ("}" + Normalize(rest)) == "{}" + Normalize(rest);
  }

  lemma NormalizeOpenBrace(rest: string)
    requires '}' !in rest
    ensures Normalize("{" + rest) == "{" + Normalize(rest)
  {
    var s := "{" + rest;
    assert s[1..] == rest && rest[..|rest|] == rest;
    RunUnique(rest, '}', |rest|);
  }

  lemma NormalizeBareColon(rest: string)
    requires rest == "" || rest[0] == '/'
    ensures Normalize(":" + rest) == ":" + Normalize(rest)
  {
    assert (":" + rest)[1..] == rest;
  }

  lemma NormalizeOther(c: char, rest: string)
    requires c != ':' && c != '{'
    ensures Normalize([c] + rest) == [c] + Normalize(rest)
  {
    assert ([c] + rest)[1..] == rest;
  }

  /** In a segment every colon with a character after it begins a parameter. */
  predicate ColonAt(s: string, i: nat) {
    i + 1 < |s| && s[i] == ':'
  }

  /** A nonempty brace group from i to its first closing brace at m. */
  predicate GroupAt(s: string, i: nat, m: nat) {
    i + 1 < m < |s| && s[i] == '{' && s[m] == '}' && '}' !in s[i + 1..m]
  }

  ghost predicate MatchAt(s: string, i: nat) {
    ColonAt(s, i) || exists m: nat :: GroupAt(s, i, m)
  }

  ghost predicate NothingBefore(s: string, n: nat) {
    forall i :: 0 <= i < n ==> !MatchAt(s, i)
  }

  /** Any segment: up to its first match it stays; a parameter takes all the rest, a brace group
      ends at its first closing brace, and what follows it is normalised in turn. */
  lemma NormalizeAnySegment(s: string, n: nat)
    requires '/' !in s && n <= |s| && NothingBefore(s, n)
    ensures n == |s| ==> Normalize(s) == s
    ensures ColonAt(s, n) ==> Normalize(s) == s[..n] + "*"
    ensures forall m: nat :: GroupAt(s, n, m) ==> Normalize(s) == s[..n] + "*" + Normalize(s[m + 1..])
  {
    NormalizeUpTo(s, n);
    FirstMatch(s[n..]);
    forall m: nat | GroupAt(s, n, m) ensures Normalize(s) == s[..n] + "*" + Normalize(s[m + 1..]) {
      GroupInTail(s, n, m);
      Reassociate(s[..n], "*", Normalize(s[m + 1..]));
    }
  }

  lemma GroupInTail(s: string, n: nat, m: nat)
    requires n <= |s| && GroupAt(s, n, m)
    ensures GroupAt(s[n..], 0, m - n) && s[n..][m - n + 1..] == s[m + 1..]
  {
    assert s[n..][1..m - n] == s[n + 1..m];
  }

  lemma {:induction false} NormalizeUpTo(s: string, n: nat)
    requires '/' !in s && n <= |s| && NothingBefore(s, n)
    ensures Normalize(s) == s[..n] + Normalize(s[n..])
    decreases n
  {
    if n == 0 {
      assert s[0..] == s;
    } else {
      NothingLater(s, n);
      NothingAtStart(s);
      NormalizeUpTo(s[1..], n - 1);
      Lengthen(s, n, Normalize(s[n..]));
    }
  }

  lemma Lengthen(s: string, n: nat, rest: string)
    requires 0 < n <= |s|
    ensures s[1..][n - 1..] == s[n..]
    ensures [s[0]] + (s[1..][..n - 1] + rest) == s[..n] + rest
  {
  }

  lemma FirstMatch(s: string)
    requires '/' !in s
    ensures ColonAt(s, 0) ==> Normalize(s) == "*"
    ensures forall m: nat :: GroupAt(s, 0, m) ==> Normalize(s) == "*" + Normalize(s[m + 1..])
  {
    if ColonAt(s, 0) {
      NormalizeNamed(s);
    }
    forall m: nat | GroupAt(s, 0, m) ensures Normalize(s) == "*" + Normalize(s[m + 1..]) {
      assert s == "{" + s[1..m] + "}" + s[m + 1..];
      NormalizeBraceGroup(s[1..m], s[m + 1..]);
    }
  }

  /** Where no match begins, the first character stays. */
  lemma NothingAtStart(s: string)
    requires s != "" && '/' !in s && NothingBefore(s, 1)
    ensures Normalize(s) == [s[0]] + Normalize(s[1..])
  {
    assert !MatchAt(s, 0);
    if s[0] == '{' {
      var run := Run(s[1..], '}');
      if 0 < run && 1 + run < |s| {
        assert s[1..run + 1] == s[1..][..run];
        assert GroupAt(s, 0, run + 1);
      }
    }
  }

  lemma NothingLater(s: string, n: nat)
    requires '/' !in s && 0 < n <= |s| && NothingBefore(s, n)
    ensures '/' !in s[1..] && NothingBefore(s, 1) && NothingBefore(s[1..], n - 1)
  {
    forall i | 0 <= i < n - 1 ensures !MatchAt(s[1..], i) {
      if MatchAt(s[1..], i) {
        MatchLater(s, i);
      }
    }
  }

  lemma MatchLater(s: string, i: nat)
    requires s != "" && MatchAt(s[1..], i)
    ensures MatchAt(s, i + 1)
  {
    if !ColonAt(s[1..], i) {
      var m: nat :| GroupAt(s[1..], i, m);
      GroupLater(s, i, m);
    }
  }

  lemma GroupLater(s: string, i: nat, m: nat)
    requires s != "" && GroupAt(s[1..], i, m)
    ensures GroupAt(s, i + 1, m + 1)
  {
    var t := s[1..];
    assert forall k :: 0 <= k < |t| ==> s[k + 1] == t[k];
    forall k | i + 2 <= k < m + 1 ensures s[k] != '}' {
      assert t[k - 1] in t[i + 1..m];
    }
  }

  // ---------- pathsOverlap ----------

  predicate SegmentsOverlap(a: seq<string>, b: seq<string>) {
    && |a| == |b|
    && forall i :: 0 <= i < |a| ==> a[i] == "*" || b[i] == "*" || a[i] == b[i]
  }

  /** What pathsOverlap decides: equally many segments, and at each place an asterisk or equality. */
  predicate PathsOverlap(path1: string, path2: string) {
    SegmentsOverlap(Segments(path1), Segments(path2))
  }

  /** pathsOverlap, with its shortcut for equal strings and its early-exit loop. */
  method CheckPathsOverlap(path1: string, path2: string) returns (overlap: bool)
    ensures overlap == PathsOverlap(path1, path2)
  {
    if path1 == path2 {
      return true;
    }
    var segments1, segments2 := Segments(path1), Segments(path2);
    if |segments1| != |segments2| {
      return false;
    }
    for i := 0 to |segments1|
      invariant SegmentsOverlap(segments1[..i], segments2[..i])
    {
      var s1, s2 := segments1[i], segments2[i];
      if s1 == "*" || s2 == "*" {
        continue;
      }
      if s1 != s2 {
        return false;
      }
    }
    assert segments1[..|segments1|] == segments1 && segments2[..|segments1|] == segments2;
    return true;
  }
}
