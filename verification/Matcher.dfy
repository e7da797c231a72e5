/** The dynamic matcher of internal/infrastructure/proxy/matcher.go, and its
    relation to the static overlap test. */
module Matcher {
  import opened Text
  import opened Patterns

  type Bindings = map<string, string>

  predicate IsParam(seg: string) {
    seg != "" && seg[0] == ':'
  }

  /** The index of the first catch-all segment; |pattern| if there is none. */
  function FirstStar(pattern: seq<string>): (n: nat)
    ensures n <= |pattern|
    ensures forall i :: 0 <= i < n ==> pattern[i] != "*"
    ensures n < |pattern| ==> pattern[n] == "*"
  {
    if pattern == [] || pattern[0] == "*" then 0 else 1 + FirstStar(pattern[1..])
  }

  /** The length test: equal lengths, or a final catch-all that may also stand for nothing. */
  predicate LengthsFit(pattern: seq<string>, path: seq<string>)
    requires |pattern| >= 1
  {
    |pattern| == |path| || (pattern[|pattern| - 1] == "*" && |path| >= |pattern| - 1)
  }

  /** The paths a pattern serves: the lengths fit, and every segment before the first
      catch-all is a parameter or equal to the path's. */
  predicate Matches(pattern: seq<string>, path: seq<string>)
    requires |pattern| >= 1
  {
    && LengthsFit(pattern, path)
    && forall i :: 0 <= i < FirstStar(pattern) ==> IsParam(pattern[i]) || pattern[i] == path[i]
  }

  predicate Accepts(pattern: string, path: string) {
    Matches(Segments(pattern), Segments(path))
  }

  /** What the first n segments bind; a later parameter of the same name wins. */
  function Bind(pattern: seq<string>, path: seq<string>, n: nat): Bindings
    requires n <= |pattern| && n <= |path|
  {
    if n == 0 then map[]
    else
      var before := Bind(pattern, path, n - 1);
      var seg := pattern[n - 1];
      if IsParam(seg) then before[seg[1..] := path[n - 1]] else before
  }

  /** What a whole pattern binds. */
  function Params(pattern: seq<string>, path: seq<string>): Bindings
    requires |pattern| >= 1 && Matches(pattern, path)
  {
    var n := FirstStar(pattern);
    if n < |pattern| then Bind(pattern, path, n)["*" := Join(path[n..], '/')] else Bind(pattern, path, n)
  }

  /** matchPathWithParams. Its guard for a path shorter than the index is never taken, so
      the loop reads the path without one: the length test already rules that case out. */
  method MatchPathWithParams(pattern: string, path: string) returns (result: Option<Bindings>)
    ensures result.Some? <==> Accepts(pattern, path)
    ensures result.Some? ==> result.value == Params(Segments(pattern), Segments(path))
  {
    var patternSegments, pathSegments := Segments(pattern), Segments(path);
    if |patternSegments| != |pathSegments| {
      if |patternSegments| > 0 && patternSegments[|patternSegments| - 1] == "*" {
        if |pathSegments| < |patternSegments| - 1 {
          return None;
        }
      } else {
        return None;
      }
    }
    var params: Bindings := map[];
    for i := 0 to |patternSegments|
      invariant MatchedSoFar(patternSegments, pathSegments, i, params)
    {
      InsidePath(patternSegments, pathSegments, i);
      var patternSeg := patternSegments[i];
      if patternSeg == "*" {
        var remaining := Join(pathSegments[i..], '/');
        params := params["*" := remaining];
        return Some(params);
      }
      var pathSeg := pathSegments[i];
      OneMoreMatched(patternSegments, pathSegments, i, params);
      if IsParam(patternSeg) {
        var paramName := patternSeg[1..];
        params := params[paramName := pathSeg];
        continue;
      }
      if patternSeg != pathSeg {
        return None;
      }
    }
    return Some(params);
  }

  /** The first i segments match and are bound; none of them is a catch-all. */
  predicate MatchedSoFar(pattern: seq<string>, path: seq<string>, i: nat, params: Bindings) {
    && i <= FirstStar(pattern) && i <= |path|
    && (forall j :: 0 <= j < i ==> IsParam(pattern[j]) || pattern[j] == path[j])
    && params == Bind(pattern, path, i)
  }

  /** The next segment exists, unless it is a catch-all, which ends the match. */
  lemma InsidePath(pattern: seq<string>, path: seq<string>, i: nat)
    requires |pattern| >= 1 && LengthsFit(pattern, path) && i < |pattern| && i <= FirstStar(pattern) && i <= |path|
    ensures if pattern[i] == "*" then FirstStar(pattern) == i else i < |path| && i < FirstStar(pattern)
  {
  }

  /** A parameter is bound, an equal literal passed; another literal is a mismatch. */
  lemma OneMoreMatched(pattern: seq<string>, path: seq<string>, i: nat, params: Bindings)
    requires MatchedSoFar(pattern, path, i, params) && i < FirstStar(pattern) && i < |path|
    ensures IsParam(pattern[i]) ==> MatchedSoFar(pattern, path, i + 1, params[pattern[i][1..] := path[i]])
    ensures !IsParam(pattern[i]) && pattern[i] == path[i] ==> MatchedSoFar(pattern, path, i + 1, params)
    ensures !IsParam(pattern[i]) && pattern[i] != path[i] && |pattern| >= 1 ==> !Matches(pattern, path)
  {
  }

  // ---------- the grammar of patterns ----------

  /** The declarative reading of a pattern: segment by segment, a catch-all ending it. */
  predicate Derives(pattern: seq<string>, path: seq<string>) {
    if pattern == [] then path == []
    else if pattern[0] == "*" then true
    else path != [] && (IsParam(pattern[0]) || pattern[0] == path[0]) && Derives(pattern[1..], path[1..])
  }

  predicate StarOnlyLast(pattern: seq<string>) {
    forall i :: 0 <= i < |pattern| - 1 ==> pattern[i] != "*"
  }

  lemma {:induction false} DerivesSpelledOut(pattern: seq<string>, path: seq<string>)
    ensures Derives(pattern, path) <==>
            && (FirstStar(pattern) == |pattern| ==> |path| == |pattern|)
            && |path| >= FirstStar(pattern)
            && forall i :: 0 <= i < FirstStar(pattern) ==> IsParam(pattern[i]) || pattern[i] == path[i]
  {
    if pattern != [] && pattern[0] != "*" && path != [] {
      DerivesSpelledOut(pattern[1..], path[1..]);
      var n := FirstStar(pattern);
      if |path| >= n && forall i :: 0 <= i < n ==> IsParam(pattern[i]) || pattern[i] == path[i] {
        forall i | 0 <= i < n - 1 ensures IsParam(pattern[1..][i]) || pattern[1..][i] == path[1..][i] {
          assert pattern[1..][i] == pattern[i + 1] && path[1..][i] == path[i + 1];
        }
      }
      if Derives(pattern[1..], path[1..]) {
        forall i | 1 <= i < n ensures IsParam(pattern[i]) || pattern[i] == path[i] {
          assert pattern[1..][i - 1] == pattern[i] && path[1..][i - 1] == path[i];
        }
      }
    }
  }

  /** The matcher decides the declarative reading, cut by its length test; with a
      catch-all at most last, the length test cuts nothing. */
  lemma MatchesIsDerives(pattern: seq<string>, path: seq<string>)
    requires |pattern| >= 1
    ensures Matches(pattern, path) <==>
      && Derives(pattern, path)
      && (|path| == |pattern| || (pattern[|pattern| - 1] == "*" && |path| >= |pattern| - 1))
    ensures StarOnlyLast(pattern) ==> (Matches(pattern, path) <==> Derives(pattern, path))
  {
    DerivesSpelledOut(pattern, path);
  }

  // ---------- matching inverts substitution ----------

  predicate Binds(seg: string) {
    seg == "*" || IsParam(seg)
  }

  function NameOf(seg: string): string
    requires Binds(seg)
  {
    if seg == "*" then "*" else seg[1..]
  }

  predicate DistinctNames(pattern: seq<string>) {
    forall i, j :: 0 <= i < j < |pattern| && Binds(pattern[i]) && Binds(pattern[j]) ==>
      NameOf(pattern[i]) != NameOf(pattern[j])
  }

  predicate CoversNames(pattern: seq<string>, b: Bindings) {
    forall i :: 0 <= i < |pattern| && Binds(pattern[i]) ==> NameOf(pattern[i]) in b
  }

  /** The pattern with its parameters put back. */
  function Fill(pattern: seq<string>, b: Bindings): (parts: seq<string>)
    requires CoversNames(pattern, b)
    ensures |parts| == |pattern|
    ensures forall i :: 0 <= i < |parts| ==>
      parts[i] == if Binds(pattern[i]) then b[NameOf(pattern[i])] else pattern[i]
  {
    seq(|pattern|, i requires 0 <= i < |pattern| =>
      if Binds(pattern[i]) then b[NameOf(pattern[i])] else pattern[i])
  }

  lemma {:induction false} BindLookup(pattern: seq<string>, path: seq<string>, n: nat)
    requires n <= FirstStar(pattern) && n <= |path| && DistinctNames(pattern)
    ensures forall i :: 0 <= i < n && IsParam(pattern[i]) ==>
      pattern[i][1..] in Bind(pattern, path, n) && Bind(pattern, path, n)[pattern[i][1..]] == path[i]
    ensures forall name :: name in Bind(pattern, path, n) ==>
      exists i :: 0 <= i < n && IsParam(pattern[i]) && pattern[i][1..] == name
  {
    if n > 0 {
      BindLookup(pattern, path, n - 1);
      var seg := pattern[n - 1];
      forall i | 0 <= i < n - 1 && IsParam(pattern[i]) && IsParam(seg)
        ensures pattern[i][1..] != seg[1..]
      {
        assert NameOf(pattern[i]) != NameOf(seg);
      }
    }
  }

  /** Names need not be distinct: each is bound to the text at its last parameter. */
  lemma {:induction false} LastOfNameWins(pattern: seq<string>, path: seq<string>, n: nat, name: string)
    requires n <= |pattern| && n <= |path|
    ensures name in Bind(pattern, path, n) <==> exists i :: 0 <= i < n && pattern[i] == ":" + name
    ensures forall i :: 0 <= i < n && pattern[i] == ":" + name ==>
      (forall k :: i < k < n ==> pattern[k] != pattern[i]) ==>
      name in Bind(pattern, path, n) && Bind(pattern, path, n)[name] == path[i]
  {
    if n > 0 {
      LastOfNameWins(pattern, path, n - 1, name);
    }
  }

  /** The catch-all overrides a parameter that is named like it, and no other. */
  lemma CatchAllWins(P: seq<string>, S: seq<string>)
    requires |P| >= 1 && Matches(P, S)
    ensures var n, b := FirstStar(P), Params(P, S);
      && (n < |P| ==> "*" in b && b["*"] == Join(S[n..], '/'))
      && (n == |P| ==> b == Bind(P, S, n))
      && b - {"*"} == Bind(P, S, n) - {"*"}
  {
  }

  lemma {:induction false} JoinTail(parts: seq<string>, k: nat)
    requires k < |parts|
    ensures Join(parts[..k] + [Join(parts[k..], '/')], '/') == Join(parts, '/')
  {
    var folded := parts[..k] + [Join(parts[k..], '/')];
    if k == 0 {
      assert parts[0..] == parts;
    } else {
      JoinTail(parts[1..], k - 1);
      assert parts[1..][k - 1..] == parts[k..];
      assert folded[1..] == parts[1..][..k - 1] + [Join(parts[1..][k - 1..], '/')];
    }
  }

  lemma {:induction false} JoinEmptyTail(parts: seq<string>)
    requires |parts| >= 1
    ensures Join(parts + [""], '/') == Join(parts, '/') + "/"
  {
    if |parts| > 1 {
      JoinEmptyTail(parts[1..]);
      assert (parts + [""])[1..] == parts[1..] + [""];
    } else {
      assert (parts + [""])[1..] == [""];
    }
  }

  lemma ParamsLookup(P: seq<string>, S: seq<string>)
    requires |P| >= 1 && Matches(P, S) && DistinctNames(P)
    ensures var n := FirstStar(P); n < |P| ==> "*" in Params(P, S) && Params(P, S)["*"] == Join(S[n..], '/')
    ensures forall i :: 0 <= i < FirstStar(P) && IsParam(P[i]) ==>
      P[i][1..] in Params(P, S) && Params(P, S)[P[i][1..]] == S[i]
  {
    var n := FirstStar(P);
    BindLookup(P, S, n);
    forall i | 0 <= i < n && IsParam(P[i]) && n < |P| ensures P[i][1..] != "*" {
      assert NameOf(P[i]) != NameOf(P[n]);
    }
  }

  lemma FillSegments(P: seq<string>, S: seq<string>) returns (parts: seq<string>)
    requires |P| >= 1 && Matches(P, S) && StarOnlyLast(P) && DistinctNames(P)
    ensures CoversNames(P, Params(P, S)) && parts == Fill(P, Params(P, S))
    ensures var n := FirstStar(P); parts == if n == |P| then S else S[..n] + [Join(S[n..], '/')]
  {
    ParamsLookup(P, S);
    var n := FirstStar(P);
    var target := if n == |P| then S else S[..n] + [Join(S[n..], '/')];
    forall i | 0 <= i < |P| && Binds(P[i])
      ensures NameOf(P[i]) in Params(P, S) && Params(P, S)[NameOf(P[i])] == target[i]
    {
    }
    parts := Fill(P, Params(P, S));
    assert |parts| == |target|;
    forall i | 0 <= i < |P| ensures parts[i] == target[i] {
    }
  }

  lemma JoinFolded(S: seq<string>, n: nat, parts: seq<string>)
    requires |S| >= 1 && n <= |S| && parts == S[..n] + [Join(S[n..], '/')]
    ensures Join(parts, '/') == if n < |S| then Join(S, '/') else Join(S, '/') + "/"
  {
    if n < |S| {
      JoinTail(S, n);
    } else {
      assert S[..n] == S && S[n..] == [];
      JoinEmptyTail(S);
    }
  }

  /** Putting the returned parameters back into the pattern and trimming slashes gives the trimmed path. */
  lemma FillInvertsMatch(pattern: string, path: string)
    requires Accepts(pattern, path)
    requires StarOnlyLast(Segments(pattern)) && DistinctNames(Segments(pattern))
    ensures var b := Params(Segments(pattern), Segments(path));
            CoversNames(Segments(pattern), b) && Trim(Join(Fill(Segments(pattern), b), '/'), '/') == Trim(path, '/')
  {
    var S, n := Segments(path), FirstStar(Segments(pattern));
    var parts := FillSegments(Segments(pattern), S);
    if n < |Segments(pattern)| {
      JoinFolded(S, n, parts);
    }
    JoinedSegments(path);
  }

  lemma JoinedSegments(path: string)
    ensures var text := Join(Segments(path), '/');
            Trim(text, '/') == Trim(path, '/') && Trim(text + "/", '/') == Trim(path, '/')
  {
    var i, j := TrimIsSlice(path, '/');
    JoinSplit(Trim(path, '/'), '/');
    TrimFixed(Trim(path, '/'), '/');
    TrimSlash(Trim(path, '/'));
  }

  lemma TrimSlash(s: string)
    requires Trimmed(s, '/')
    ensures Trim(s + "/", '/') == s
  {
    if s == "" {
      assert (s + "/")[1..] == "";
      assert TrimLeft(s + "/", '/') == "";
    } else {
      assert TrimLeft(s + "/", '/') == s + "/";
      assert (s + "/")[..|s|] == s;
      TrimFixed(s, '/');
    }
  }

  /** A trimmed path, cut into several segments, begins and ends with a nonempty one. */
  lemma SegmentEnds(path: string)
    ensures var P := Segments(path); |P| > 1 ==> P[0] != "" && P[|P| - 1] != ""
  {
    var P := Segments(path);
    var i, j := TrimIsSlice(path, '/');
    JoinSplit(Trim(path, '/'), '/');
    if |P| > 1 {
      JoinEmptyTail(P[..|P| - 1]);
      assert P == P[..|P| - 1] + [P[|P| - 1]];
    }
  }

  /** A seq of slash-free parts with nonempty ends is the segments of its join. */
  lemma SegmentsOfJoin(parts: seq<string>)
    requires |parts| >= 1 && forall i :: 0 <= i < |parts| ==> '/' !in parts[i]
    requires |parts| > 1 ==> parts[0] != "" && parts[|parts| - 1] != ""
    ensures Segments(Join(parts, '/')) == parts
  {
    if |parts| > 1 {
      assert parts[0][0] in parts[0] && parts[|parts| - 1][|parts[|parts| - 1]| - 1] in parts[|parts| - 1];
      JoinEnds(parts, '/');
    } else if parts[0] != "" {
      assert parts[0][0] in parts[0] && parts[0][|parts[0]| - 1] in parts[0];
    }
    TrimFixed(Join(parts, '/'), '/');
    SplitJoin(parts, '/');
  }

  lemma SegmentsOfRooted(parts: seq<string>, path: string)
    requires |parts| >= 1 && forall i :: 0 <= i < |parts| ==> '/' !in parts[i]
    requires parts[0] != "" && parts[|parts| - 1] != ""
    requires path == "/" + Join(parts, '/')
    ensures Segments(path) == parts
  {
    SegmentsOfJoin(parts);
    assert path[1..] == Join(parts, '/');
  }

  /** Every bound name is the name of a parameter or a catch-all. */
  predicate OnlyNames(pattern: seq<string>, b: Bindings) {
    forall name :: name in b ==> exists i :: 0 <= i < |pattern| && Binds(pattern[i]) && NameOf(pattern[i]) == name
  }

  /** The segments of a filled pattern: what a final catch-all stands for is cut at its
      slashes, and an empty one that follows other segments is trimmed away. */
  function Spelled(pattern: seq<string>, b: Bindings): (parts: seq<string>)
    requires |pattern| >= 1 && StarOnlyLast(pattern) && CoversNames(pattern, b)
    ensures |parts| >= 1
    ensures var n := FirstStar(pattern); |parts| >= n && parts[..n] == Fill(pattern, b)[..n]
  {
    var n := FirstStar(pattern);
    if n == |pattern| then Fill(pattern, b)
    else if b["*"] == "" && n > 0 then Fill(pattern, b)[..n]
    else Fill(pattern, b)[..n] + Split(b["*"], '/')
  }

  /** Named values have no slash, and the filled text has no slash to trim but the one before
      an empty catch-all. */
  predicate Fills(pattern: seq<string>, b: Bindings)
    requires |pattern| >= 1 && StarOnlyLast(pattern) && CoversNames(pattern, b)
  {
    && (forall i :: 0 <= i < FirstStar(pattern) && IsParam(pattern[i]) ==> '/' !in b[pattern[i][1..]])
    && var parts := Spelled(pattern, b);
       (|parts| > 1 || (0 < FirstStar(pattern) < |pattern| && b["*"] == "") ==>
           parts[0] != "" && parts[|parts| - 1] != "")
  }

  lemma SpelledSlashFree(P: seq<string>, b: Bindings)
    requires |P| >= 1 && StarOnlyLast(P) && CoversNames(P, b) && Fills(P, b)
    requires forall i :: 0 <= i < |P| ==> '/' !in P[i]
    ensures forall i :: 0 <= i < |Spelled(P, b)| ==> '/' !in Spelled(P, b)[i]
  {
    var n := FirstStar(P);
    forall i | 0 <= i < n ensures '/' !in Fill(P, b)[i] {
    }
  }

  lemma SegmentsOfFilled(P: seq<string>, b: Bindings)
    requires |P| >= 1 && StarOnlyLast(P) && CoversNames(P, b) && Fills(P, b)
    requires forall i :: 0 <= i < |P| ==> '/' !in P[i]
    ensures Segments(Join(Fill(P, b), '/')) == Spelled(P, b)
  {
    var n, parts := FirstStar(P), Spelled(P, b);
    SpelledSlashFree(P, b);
    SegmentsOfJoin(parts);
    if n < |P| {
      FillSplit(P, b);
      if b["*"] == "" && n > 0 {
        EmptyCatchAll(parts, Fill(P, b));
      } else {
        JoinSplit(b["*"], '/');
        RestFolded(parts, Fill(P, b), n, Split(b["*"], '/'), b["*"]);
      }
    }
  }

  lemma FillSplit(P: seq<string>, b: Bindings)
    requires |P| >= 1 && StarOnlyLast(P) && CoversNames(P, b) && FirstStar(P) < |P|
    ensures "*" in b && Fill(P, b) == Fill(P, b)[..FirstStar(P)] + [b["*"]]
  {
    var n, full := FirstStar(P), Fill(P, b);
    assert n == |full| - 1 && P[n] == "*";
    assert full[n] == b[NameOf("*")];
    SplitLast(full);
  }

  lemma SplitLast(s: seq<string>)
    requires s != []
    ensures s == s[..|s| - 1] + [s[|s| - 1]]
  {
  }

  lemma EmptyCatchAll(parts: seq<string>, full: seq<string>)
    requires |parts| >= 1 && full == parts + [""]
    requires parts[0] != "" && parts[|parts| - 1] != "" && Segments(Join(parts, '/')) == parts
    requires forall i :: 0 <= i < |parts| ==> '/' !in parts[i]
    ensures Segments(Join(full, '/')) == parts
  {
    JoinEmptyTail(parts);
    var last := parts[|parts| - 1];
    assert parts[0][0] in parts[0] && last[|last| - 1] in last;
    JoinEnds(parts, '/');
    TrimSlash(Join(parts, '/'));
    TrimFixed(Join(parts, '/'), '/');
  }

  lemma RestFolded(parts: seq<string>, full: seq<string>, n: nat, rest: seq<string>, text: string)
    requires |rest| >= 1 && text == Join(rest, '/') && |full| == n + 1
    requires parts == full[..n] + rest && full == full[..n] + [text]
    ensures Join(full, '/') == Join(parts, '/')
  {
    JoinTail(parts, n);
    assert parts[n..] == rest && parts[..n] == full[..n];
  }

  lemma SpelledMatches(P: seq<string>, b: Bindings)
    requires |P| >= 1 && StarOnlyLast(P) && CoversNames(P, b)
    ensures Matches(P, Spelled(P, b))
    ensures forall i :: 0 <= i < FirstStar(P) ==> Spelled(P, b)[i] == if IsParam(P[i]) then b[NameOf(P[i])] else P[i]
  {
    var n, parts := FirstStar(P), Spelled(P, b);
    forall i | 0 <= i < n ensures parts[i] == if IsParam(P[i]) then b[NameOf(P[i])] else P[i] {
      assert parts[i] == parts[..n][i];
    }
  }

  lemma SpelledRest(P: seq<string>, b: Bindings)
    requires |P| >= 1 && StarOnlyLast(P) && CoversNames(P, b) && FirstStar(P) < |P|
    ensures var n := FirstStar(P); n <= |Spelled(P, b)| && Join(Spelled(P, b)[n..], '/') == b["*"]
  {
    var n, parts := FirstStar(P), Spelled(P, b);
    if b["*"] == "" && n > 0 {
      assert parts[n..] == [];
    } else {
      JoinSplit(b["*"], '/');
      assert parts[n..] == Split(b["*"], '/');
    }
  }

  lemma FilledSegmentsBind(P: seq<string>, b: Bindings)
    requires |P| >= 1 && StarOnlyLast(P) && DistinctNames(P) && CoversNames(P, b) && Matches(P, Spelled(P, b))
    ensures forall i :: 0 <= i < |P| && Binds(P[i]) ==>
      NameOf(P[i]) in Params(P, Spelled(P, b)) && Params(P, Spelled(P, b))[NameOf(P[i])] == b[NameOf(P[i])]
  {
    var n, parts := FirstStar(P), Spelled(P, b);
    SpelledMatches(P, b);
    ParamsLookup(P, parts);
    if n < |P| {
      SpelledRest(P, b);
    }
    forall i | 0 <= i < |P| && Binds(P[i])
      ensures NameOf(P[i]) in Params(P, parts) && Params(P, parts)[NameOf(P[i])] == b[NameOf(P[i])]
    {
      assert i < n ==> P[i] != "*";
      assert i >= n ==> i == n;
    }
  }

  lemma BoundNames(P: seq<string>, S: seq<string>)
    requires |P| >= 1 && Matches(P, S) && DistinctNames(P)
    ensures OnlyNames(P, Params(P, S))
  {
    var n := FirstStar(P);
    BindLookup(P, S, n);
    forall name | name in Params(P, S)
      ensures exists i :: 0 <= i < |P| && Binds(P[i]) && NameOf(P[i]) == name
    {
      if name in Bind(P, S, n) {
        var i :| 0 <= i < n && IsParam(P[i]) && P[i][1..] == name;
        assert Binds(P[i]) && NameOf(P[i]) == name;
      } else {
        assert Binds(P[n]) && NameOf(P[n]) == name;
      }
    }
  }

  lemma SameBindings(P: seq<string>, b: Bindings, back: Bindings)
    requires OnlyNames(P, b) && OnlyNames(P, back)
    requires forall i :: 0 <= i < |P| && Binds(P[i]) ==>
      NameOf(P[i]) in back && NameOf(P[i]) in b && back[NameOf(P[i])] == b[NameOf(P[i])]
    ensures back == b
  {
  }

  /** Conversely, a pattern with a catch-all at most last, filled with any values, accepts the
      result, and the match gives the values back. */
  lemma MatchInvertsFill(pattern: string, b: Bindings)
    requires var P := Segments(pattern);
             StarOnlyLast(P) && DistinctNames(P) && CoversNames(P, b) && OnlyNames(P, b) && Fills(P, b)
    ensures var path := Join(Fill(Segments(pattern), b), '/');
            Accepts(pattern, path) && Params(Segments(pattern), Segments(path)) == b
  {
    var P := Segments(pattern);
    SegmentsOfFilled(P, b);
    SpelledMatches(P, b);
    FilledSegmentsBind(P, b);
    BoundNames(P, Spelled(P, b));
    SameBindings(P, b, Params(P, Spelled(P, b)));
  }

  // ---------- when two patterns share a path, exactly ----------

  predicate OpenEnded(pattern: seq<string>)
    requires |pattern| >= 1
  {
    pattern[|pattern| - 1] == "*"
  }

  /** Only an empty segment matches there. */
  predicate DemandsEmpty(pattern: seq<string>, i: nat) {
    i < FirstStar(pattern) && pattern[i] == ""
  }

  /** An open-ended pattern accepts paths of n segments. Its catch-all may stand for nothing,
      unless an empty segment would then come last, as it does in no path. */
  predicate Reaches(pattern: seq<string>, n: nat) {
    n >= |pattern| || (0 < n == |pattern| - 1 && !DemandsEmpty(pattern, n - 1))
  }

  predicate CountsMeet(P: seq<string>, Q: seq<string>)
    requires |P| >= 1 && |Q| >= 1
  {
    if OpenEnded(P) then OpenEnded(Q) || Reaches(P, |Q|)
    else if OpenEnded(Q) then Reaches(Q, |P|)
    else |P| == |Q|
  }

  /** The counts meet, and before the first catch-all two literals at one place are equal. */
  predicate Compatible(P: seq<string>, Q: seq<string>)
    requires |P| >= 1 && |Q| >= 1
  {
    && CountsMeet(P, Q)
    && forall i :: 0 <= i < FirstStar(P) && i < FirstStar(Q) ==> IsParam(P[i]) || IsParam(Q[i]) || P[i] == Q[i]
  }

  /** Nonempty ends and no slashes, as the segments of a trimmed path have them. */
  predicate PathShaped(parts: seq<string>) {
    && |parts| >= 1
    && (|parts| > 1 ==> parts[0] != "" && parts[|parts| - 1] != "")
    && forall i :: 0 <= i < |parts| ==> '/' !in parts[i]
  }

  function MeetingLength(P: seq<string>, Q: seq<string>): (n: nat)
    requires |P| >= 1 && |Q| >= 1
  {
    if OpenEnded(P) && (!OpenEnded(Q) || |P| < |Q|) then |Q| else |P|
  }

  /** What a common path must have at i, if anything. */
  function Demanded(P: seq<string>, Q: seq<string>, i: nat): string {
    if i < FirstStar(P) && !IsParam(P[i]) then P[i]
    else if i < FirstStar(Q) && !IsParam(Q[i]) then Q[i]
    else "x"
  }

  function Meeting(P: seq<string>, Q: seq<string>): (parts: seq<string>)
    requires |P| >= 1 && |Q| >= 1
    ensures |parts| == MeetingLength(P, Q)
    ensures forall i :: 0 <= i < |parts| ==> parts[i] == Demanded(P, Q, i)
  {
    seq(MeetingLength(P, Q), i requires 0 <= i < MeetingLength(P, Q) => Demanded(P, Q, i))
  }

  lemma MeetingMatches(P: seq<string>, Q: seq<string>)
    requires |P| >= 1 && |Q| >= 1 && Compatible(P, Q)
    ensures Matches(P, Meeting(P, Q)) && Matches(Q, Meeting(P, Q))
  {
    var S := Meeting(P, Q);
    assert LengthsFit(P, S) && LengthsFit(Q, S);
    forall i | 0 <= i < FirstStar(P) ensures IsParam(P[i]) || P[i] == S[i] {
      assert S[i] == Demanded(P, Q, i);
    }
    forall i | 0 <= i < FirstStar(Q) ensures IsParam(Q[i]) || Q[i] == S[i] {
      assert S[i] == Demanded(P, Q, i);
    }
  }

  lemma MeetingIsPath(P: seq<string>, Q: seq<string>)
    requires PathShaped(P) && PathShaped(Q) && Compatible(P, Q)
    ensures PathShaped(Meeting(P, Q))
  {
    var S := Meeting(P, Q);
    var n := |S|;
    if n > 1 {
      assert S[0] == Demanded(P, Q, 0) != "";
      assert S[n - 1] == Demanded(P, Q, n - 1) != "";
    }
  }

  lemma SharedPathForces(P: seq<string>, Q: seq<string>, S: seq<string>)
    requires PathShaped(P) && PathShaped(Q) && PathShaped(S) && Matches(P, S) && Matches(Q, S)
    ensures Compatible(P, Q)
  {
    if |S| < |P| {
      assert !DemandsEmpty(P, |S| - 1);
    }
    if |S| < |Q| {
      assert !DemandsEmpty(Q, |S| - 1);
    }
  }

  lemma SegmentsArePathShaped(path: string)
    ensures PathShaped(Segments(path))
  {
    SegmentEnds(path);
  }

  /** Any two patterns accept a common path exactly when they are compatible. */
  lemma SharePathIff(p: string, q: string)
    ensures (exists path :: Accepts(p, path) && Accepts(q, path)) <==> Compatible(Segments(p), Segments(q))
  {
    if Compatible(Segments(p), Segments(q)) {
      var path := CommonPath(p, q);
    }
    if path :| Accepts(p, path) && Accepts(q, path) {
      SegmentsArePathShaped(p);
      SegmentsArePathShaped(q);
      SegmentsArePathShaped(path);
      SharedPathForces(Segments(p), Segments(q), Segments(path));
    }
  }

  lemma CommonPath(p: string, q: string) returns (path: string)
    requires Compatible(Segments(p), Segments(q))
    ensures Accepts(p, path) && Accepts(q, path)
  {
    var P, Q := Segments(p), Segments(q);
    SegmentsArePathShaped(p);
    SegmentsArePathShaped(q);
    MeetingMatches(P, Q);
    MeetingIsPath(P, Q);
    path := PathOf(Meeting(P, Q));
  }

  lemma PathOf(parts: seq<string>) returns (path: string)
    requires PathShaped(parts)
    ensures Segments(path) == parts
  {
    path := Join(parts, '/');
    SegmentsOfJoin(parts);
  }

  // ---------- static overlap against dynamic matching ----------

  predicate NamedParam(seg: string) {
    |seg| >= 2 && seg[0] == ':'
  }

  predicate PlainLiteral(seg: string) {
    ':' !in seg && '{' !in seg && seg != "*"
  }

  /** Every segment is a named parameter or a literal without pattern characters. */
  predicate WellFormed(pattern: string) {
    forall i :: 0 <= i < |Segments(pattern)| ==> NamedParam(Segments(pattern)[i]) || PlainLiteral(Segments(pattern)[i])
  }

  /** The weaker condition routing needs: no catch-all, no nameless parameter, and no brace
      group that spans a slash. */
  predicate Routable(pattern: string) {
    BraceLocal(pattern) && "*" !in Segments(pattern) && ":" !in Segments(pattern)
  }

  /** No segment holds a pattern character, but for the colon of a named parameter. */
  predicate NoStrays(parts: seq<string>) {
    forall i :: 0 <= i < |parts| ==> NamedParam(parts[i]) || (':' !in parts[i] && '{' !in parts[i])
  }

  lemma {:induction false} NoStraysKeepSlashes(s: string)
    requires NoStrays(Split(s, '/'))
    ensures KeepsSlashes(s)
    decreases |s|
  {
    if s != "" {
      var n := ParamMatch(s);
      var k := if n > 0 then n else 1;
      FirstSegment(s, Split(s, '/')[0]);
      NoStraysTail(s, k);
      NoStraysKeepSlashes(s[k..]);
    }
  }

  lemma NoStraysTail(s: string, k: nat)
    requires s != "" && NoStrays(Split(s, '/')) && k == (if ParamMatch(s) > 0 then ParamMatch(s) else 1)
    ensures NoStrays(Split(s[k..], '/'))
    ensures ParamMatch(s) > 0 ==> '/' !in s[..k]
  {
    var first, T := Split(s, '/')[0], Split(s[k..], '/');
    FirstSegment(s, first);
    if s[0] == '/' {
      assert Split(s, '/')[1..] == T;
    } else if s[0] == ':' {
      NamedTail(s, k, first);
      StraysAfter(s[..k], s, T);
    } else {
      assert s[0] == first[0];
      assert s[..1] == [s[0]];
      StraysAfter(s[..1], s, T);
    }
  }

  lemma NamedTail(s: string, k: nat, first: string)
    requires s != "" && s[0] == ':' && k == (if ParamMatch(s) > 0 then ParamMatch(s) else 1)
    requires first == s[..Run(s, '/')] && NoStrays([first])
    ensures k == Run(s, '/') && '/' !in s[..k]
  {
    assert [first][0] == first;
    assert Run(s, '/') == 1 + Run(s[1..], '/');
    assert ':' in first;
  }

  lemma StraysAfter(a: string, s: string, T: seq<string>)
    requires |a| <= |s| && a == s[..|a|] && T == Split(s[|a|..], '/') && '/' !in a
    requires NoStrays(Split(s, '/')) && (NamedParam(Split(s, '/')[0]) ==> |a| == Run(s, '/'))
    ensures NoStrays(T)
  {
    var U := Split(s, '/');
    assert s == a + s[|a|..];
    SplitPrefix(a, s[|a|..], s);
    FirstSegment(s, U[0]);
    if |a| == Run(s, '/') {
      NothingAfter(a, T[0]);
    }
    StraysInTail(a, U, T);
  }

  lemma NothingAfter(a: string, b: string)
    requires a + b == a
    ensures b == ""
  {
  }

  lemma StraysInTail(a: string, U: seq<string>, T: seq<string>)
    requires |T| >= 1 && U == [a + T[0]] + T[1..] && NoStrays(U) && (NamedParam(U[0]) ==> T[0] == "")
    ensures NoStrays(T)
  {
    assert forall c :: c in T[0] ==> c in U[0];
    forall i | 1 <= i < |T| ensures T[i] == U[i] {
    }
  }

  lemma WellFormedIsRoutable(pattern: string)
    requires WellFormed(pattern)
    ensures Routable(pattern)
  {
    var P := Segments(pattern);
    assert NoStrays(P);
    assert P == Split(Trim(pattern, '/'), '/');
    NoStraysKeepSlashes(Trim(pattern, '/'));
  }

  lemma WellFormedNormalized(pattern: string)
    requires WellFormed(pattern)
    ensures SeenAs(Segments(pattern), Segments(Normalize(pattern)))
  {
    var P := Segments(pattern);
    WellFormedIsRoutable(pattern);
    SegmentsOfNormalized(pattern);
    forall i | 0 <= i < |P| ensures Normalize(P[i]) == if IsParam(P[i]) then "*" else P[i] {
      if NamedParam(P[i]) {
        NormalizeNamed(P[i]);
      } else {
        NormalizeSegment(P[i]);
        var n := FirstUsableColon(P[i]);
        NoColonUnusable(P[i]);
      }
    }
  }

  lemma {:induction false} NoColonUnusable(s: string)
    requires ':' !in s
    ensures FirstUsableColon(s) == |s|
  {
    if |s| >= 2 {
      NoColonUnusable(s[1..]);
    }
  }

  /** A segment as the overlap test sees it, for a well-formed pattern. */
  predicate SeenAs(P: seq<string>, N: seq<string>) {
    && |N| == |P| && FirstStar(P) == |P|
    && forall i :: 0 <= i < |P| ==> N[i] == if IsParam(P[i]) then "*" else P[i]
  }

  lemma OverlapIsCompatible(P: seq<string>, Q: seq<string>, N: seq<string>, M: seq<string>)
    requires |P| >= 1 && |Q| >= 1 && SeenAs(P, N) && SeenAs(Q, M)
    requires forall i :: 0 <= i < |P| ==> P[i] != "*"
    requires forall i :: 0 <= i < |Q| ==> Q[i] != "*"
    ensures SegmentsOverlap(N, M) <==> Compatible(P, Q)
  {
    if Compatible(P, Q) {
      forall i | 0 <= i < |N| ensures N[i] == "*" || M[i] == "*" || N[i] == M[i] {
        assert IsParam(P[i]) || IsParam(Q[i]) || P[i] == Q[i];
      }
    }
  }

  /** The overlap test is exact: two well-formed patterns overlap exactly when some
      concrete path is served by both. */
  lemma OverlapIsExact(p: string, q: string)
    requires WellFormed(p) && WellFormed(q)
    ensures PathsOverlap(Normalize(p), Normalize(q)) <==> exists path :: Accepts(p, path) && Accepts(q, path)
  {
    WellFormedNormalized(p);
    WellFormedNormalized(q);
    OverlapIsCompatible(Segments(p), Segments(q), Segments(Normalize(p)), Segments(Normalize(q)));
    SharePathIff(p, q);
  }

  /** A pattern's own text is served by the pattern. */
  lemma AcceptsItself(p: string)
    ensures Accepts(p, p)
  {
  }

  lemma SegmentPairReported(p: string, q: string, s: string)
    requires '/' !in p && '/' !in q
    requires IsParam(p) || p == s
    requires IsParam(q) || q == s
    ensures Normalize(p) == "*" || Normalize(q) == "*" || Normalize(p) == Normalize(q) <==>
            !NamelessMeetsLiteral(p, q) && !NamelessMeetsLiteral(q, p)
  {
    ParamNormalizes(p);
    ParamNormalizes(q);
    if Normalize(p) == ":" {
      ColonNormalForm(p);
    }
    if Normalize(q) == ":" {
      ColonNormalForm(q);
    }
  }

  /** Where a shared path says nothing any more, from the first catch-all on, the overlap test
      must see the two segments overlap; before it, no nameless parameter may meet a literal
      that is not itself one whole `{...}` group. */
  predicate ReportedAt(P: seq<string>, Q: seq<string>, i: nat)
    requires i < |P| == |Q|
  {
    if i < FirstStar(P) && i < FirstStar(Q) then !NamelessMeetsLiteral(P[i], Q[i]) && !NamelessMeetsLiteral(Q[i], P[i])
    else Normalize(P[i]) == "*" || Normalize(Q[i]) == "*" || Normalize(P[i]) == Normalize(Q[i])
  }

  /** The patterns that share a path and are reported for it, exactly. */
  lemma SharedPathReportedIff(p: string, q: string, path: string)
    requires BraceLocal(p) && BraceLocal(q) && Accepts(p, path) && Accepts(q, path)
    ensures var P, Q := Segments(p), Segments(q);
            PathsOverlap(Normalize(p), Normalize(q)) <==> |P| == |Q| && forall i :: 0 <= i < |P| ==> ReportedAt(P, Q, i)
  {
    SegmentsOfNormalized(p);
    SegmentsOfNormalized(q);
    if |Segments(p)| == |Segments(q)| {
      SharedSegmentsReportedIff(Segments(p), Segments(q), Segments(path));
    }
  }

  lemma SharedSegmentsReportedIff(P: seq<string>, Q: seq<string>, S: seq<string>)
    requires |P| == |Q| >= 1 && Matches(P, S) && Matches(Q, S)
    requires forall i :: 0 <= i < |P| ==> '/' !in P[i] && '/' !in Q[i]
    ensures SegmentsOverlap(NormalizeAll(P), NormalizeAll(Q)) <==> forall i :: 0 <= i < |P| ==> ReportedAt(P, Q, i)
  {
    forall i | 0 <= i < |P|
      ensures (Normalize(P[i]) == "*" || Normalize(Q[i]) == "*" || Normalize(P[i]) == Normalize(Q[i])) <==>
              ReportedAt(P, Q, i)
    {
      if i < FirstStar(P) && i < FirstStar(Q) {
        SegmentPairReported(P[i], Q[i], S[i]);
      }
    }
  }

  predicate NamelessMeetsLiteral(seg: string, other: string) {
    seg == ":" && !IsParam(other) && Normalize(other) != "*"
  }

  lemma ParamNormalizes(seg: string)
    requires '/' !in seg
    ensures NamedParam(seg) ==> Normalize(seg) == "*"
    ensures Normalize(":") == ":"
  {
    if NamedParam(seg) {
      NormalizeNamed(seg);
    }
    assert ParamMatch(":") == 0;
    assert ":"[1..] == "";
  }

  lemma ColonNormalForm(seg: string)
    requires Normalize(seg) == ":"
    ensures seg == ":"
  {
    var n := ParamMatch(seg);
    assert Normalize(seg)[0] == ':';
    NormalizeKeeps(seg[1..]);
  }

  /** With a catch-all at most last and no nameless parameter, only the number of segments
      counts: a catch-all that spans several segments, or none, escapes the test. */
  lemma CatchAllReportedIff(p: string, q: string, path: string)
    requires BraceLocal(p) && BraceLocal(q) && Accepts(p, path) && Accepts(q, path)
    requires StarOnlyLast(Segments(p)) && StarOnlyLast(Segments(q)) && ":" !in Segments(p) && ":" !in Segments(q)
    ensures PathsOverlap(Normalize(p), Normalize(q)) <==> |Segments(p)| == |Segments(q)|
  {
    SharedPathReportedIff(p, q, path);
    if |Segments(p)| == |Segments(q)| {
      ReportedEverywhere(Segments(p), Segments(q));
    }
  }

  lemma ReportedEverywhere(P: seq<string>, Q: seq<string>)
    requires |P| == |Q| && StarOnlyLast(P) && StarOnlyLast(Q) && ":" !in P && ":" !in Q
    ensures forall i :: 0 <= i < |P| ==> ReportedAt(P, Q, i)
  {
    StarStays();
    forall i | 0 <= i < |P| ensures ReportedAt(P, Q, i) {
      assert P[i] in P && Q[i] in Q;
    }
  }

  lemma StarStays()
    ensures Normalize("*") == "*"
  {
    assert "*"[1..] == "";
  }

  /** Routable patterns that share a path are always reported. */
  lemma SharedPathIsReported(p: string, q: string, path: string)
    requires Routable(p) && Routable(q) && Accepts(p, path) && Accepts(q, path)
    ensures PathsOverlap(Normalize(p), Normalize(q))
  {
    StarFree(Segments(p));
    StarFree(Segments(q));
    CatchAllReportedIff(p, q, path);
  }

  lemma StarFree(P: seq<string>)
    requires "*" !in P
    ensures FirstStar(P) == |P| && StarOnlyLast(P)
  {
  }

  /** A brace group that spans a slash escapes the test: a pattern that is routable in all else
      and a routable one that share a path are reported exactly when it has no such group. */
  lemma BraceSpanReportedIff(p: string, q: string, path: string)
    requires Routable(q) && "*" !in Segments(p) && ":" !in Segments(p)
    requires Accepts(p, path) && Accepts(q, path)
    ensures PathsOverlap(Normalize(p), Normalize(q)) <==> BraceLocal(p)
  {
    StarFree(Segments(p));
    StarFree(Segments(q));
    SegmentsOfNormalized(p);
    SegmentsOfNormalized(q);
    if BraceLocal(p) {
      SharedPathIsReported(p, q, path);
    }
  }

  // ---------- reported, and yet no path is shared ----------

  /** Two different literals that the overlap test takes for one: the matcher knows no brace
      groups, and no colon but at the start of a segment. */
  predicate TakenForOne(a: string, b: string) {
    && !IsParam(a) && !IsParam(b) && a != b
    && (Normalize(a) == "*" || Normalize(b) == "*" || Normalize(a) == Normalize(b))
  }

  /** The overlap test reports two patterns needlessly exactly when, before the first catch-all,
      it takes two different literals for one. */
  lemma NeedlesslyReportedIff(p: string, q: string)
    requires BraceLocal(p) && BraceLocal(q) && PathsOverlap(Normalize(p), Normalize(q))
    ensures var P, Q := Segments(p), Segments(q);
            !(exists path :: Accepts(p, path) && Accepts(q, path)) <==>
            exists i :: 0 <= i < FirstStar(P) && i < FirstStar(Q) && TakenForOne(P[i], Q[i])
  {
    SegmentsOfNormalized(p);
    SegmentsOfNormalized(q);
    SharePathIff(p, q);
    TakenApart(Segments(p), Segments(q));
  }

  lemma TakenApart(P: seq<string>, Q: seq<string>)
    requires |P| == |Q| >= 1 && SegmentsOverlap(NormalizeAll(P), NormalizeAll(Q))
    ensures !Compatible(P, Q) <==> exists i :: 0 <= i < FirstStar(P) && i < FirstStar(Q) && TakenForOne(P[i], Q[i])
  {
    assert CountsMeet(P, Q);
    forall i | 0 <= i < FirstStar(P) && i < FirstStar(Q)
      ensures TakenForOne(P[i], Q[i]) <==> !(IsParam(P[i]) || IsParam(Q[i]) || P[i] == Q[i])
    {
      assert NormalizeAll(P)[i] == Normalize(P[i]) && NormalizeAll(Q)[i] == Normalize(Q[i]);
    }
  }
}
