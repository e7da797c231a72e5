/** The string operations of Go's `strings` package that the routing code uses:
    Split, Join, SplitN with a limit of two, and Trim. */
module Text {

  datatype Option<+T> = None | Some(value: T)

  /** strings.Split for a one-character separator; the empty string gives one empty part. */
  function Split(s: string, sep: char): (parts: seq<string>)
    ensures |parts| >= 1
    ensures forall i :: 0 <= i < |parts| ==> sep !in parts[i]
  {
    if s == "" then [""]
    else
      var rest := Split(s[1..], sep);
      if s[0] == sep then [""] + rest else [[s[0]] + rest[0]] + rest[1..]
  }

  /** strings.Join. */
  function Join(parts: seq<string>, sep: char): string {
    if |parts| == 0 then ""
    else if |parts| == 1 then parts[0]
    else parts[0] + [sep] + Join(parts[1..], sep)
  }

  /** strings.SplitN(s, sep, 2), with None standing for a result of fewer than two parts. */
  function Cut(s: string, sep: char): Option<(string, string)> {
    if s == "" then None
    else if s[0] == sep then Some(("", s[1..]))
    else match Cut(s[1..], sep)
      case None => None
      case Some((before, after)) => Some(([s[0]] + before, after))
  }

  function TrimLeft(s: string, c: char): string {
    if s != "" && s[0] == c then TrimLeft(s[1..], c) else s
  }

  function TrimRight(s: string, c: char): string {
    if s != "" && s[|s| - 1] == c then TrimRight(s[..|s| - 1], c) else s
  }

  /** strings.Trim for a cutset of one character. */
  function Trim(s: string, c: char): string {
    TrimRight(TrimLeft(s, c), c)
  }

  /** A string that Trim leaves alone. */
  predicate Trimmed(s: string, c: char) {
    s != "" ==> s[0] != c && s[|s| - 1] != c
  }

  lemma {:induction false} TrimLeftIsSlice(s: string, c: char) returns (i: nat)
    ensures i <= |s| && TrimLeft(s, c) == s[i..]
    ensures forall k :: 0 <= k < i ==> s[k] == c
    ensures i < |s| ==> s[i] != c
  {
    if s != "" && s[0] == c {
      var j := TrimLeftIsSlice(s[1..], c);
      i := j + 1;
      assert forall k :: 1 <= k < i ==> s[k] == s[1..][k - 1];
    } else {
      i := 0;
    }
  }

  lemma {:induction false} TrimRightIsSlice(s: string, c: char) returns (j: nat)
    ensures j <= |s| && TrimRight(s, c) == s[..j]
    ensures forall k :: j <= k < |s| ==> s[k] == c
    ensures j > 0 ==> s[j - 1] != c
  {
    if s != "" && s[|s| - 1] == c {
      j := TrimRightIsSlice(s[..|s| - 1], c);
      assert s[..|s| - 1][..j] == s[..j];
    } else {
      j := |s|;
    }
  }

  /** What Trim leaves is the string without the characters c at its two ends, and no more is
      taken off. */
  lemma TrimIsSlice(s: string, c: char) returns (i: nat, j: nat)
    ensures i <= j <= |s| && Trim(s, c) == s[i..j] && Trimmed(s[i..j], c)
    ensures forall k :: 0 <= k < i || j <= k < |s| ==> s[k] == c
  {
    i := TrimLeftIsSlice(s, c);
    var n := TrimRightIsSlice(s[i..], c);
    j := i + n;
    assert s[i..][..n] == s[i..j];
    assert forall k :: j <= k < |s| ==> s[k] == s[i..][k - i];
  }

  lemma {:induction false} JoinSplit(s: string, sep: char)
    ensures Join(Split(s, sep), sep) == s
  {
    if s != "" {
      JoinSplit(s[1..], sep);
      var rest := Split(s[1..], sep);
      if s[0] == sep {
        assert ([""] + rest)[1..] == rest;
      } else if |rest| > 1 {
        assert ([[s[0]] + rest[0]] + rest[1..])[1..] == rest[1..];
      }
      assert s == [s[0]] + s[1..];
    }
  }

  lemma {:induction false} SplitAtFirst(a: string, rest: string, sep: char)
    requires sep !in a
    ensures Split(a, sep) == [a]
    ensures Split(a + [sep] + rest, sep) == [a] + Split(rest, sep)
  {
    var s := a + [sep] + rest;
    if a == "" {
      assert s[1..] == rest;
    } else {
      SplitAtFirst(a[1..], rest, sep);
      assert s[1..] == a[1..] + [sep] + rest;
      assert [a[0]] + a[1..] == a;
    }
  }

  lemma {:induction false} SplitJoin(parts: seq<string>, sep: char)
    requires |parts| >= 1
    requires forall i :: 0 <= i < |parts| ==> sep !in parts[i]
    ensures Split(Join(parts, sep), sep) == parts
  {
    if |parts| == 1 {
      SplitAtFirst(parts[0], "", sep);
    } else {
      SplitJoin(parts[1..], sep);
      SplitAtFirst(parts[0], Join(parts[1..], sep), sep);
    }
  }

  lemma {:induction false} CutAtFirst(before: string, after: string, sep: char)
    requires sep !in before
    ensures Cut(before + [sep] + after, sep) == Some((before, after))
  {
    var s := before + [sep] + after;
    if before == "" {
      assert s[1..] == after;
    } else {
      CutAtFirst(before[1..], after, sep);
      assert s[1..] == before[1..] + [sep] + after;
      assert [before[0]] + before[1..] == before;
    }
  }

  lemma {:induction false} CutStopsAtFirst(s: string, sep: char)
    ensures match Cut(s, sep)
      case None => sep !in s
      case Some((before, after)) => sep !in before && s == before + [sep] + after
  {
    if s != "" && s[0] != sep {
      CutStopsAtFirst(s[1..], sep);
    }
  }

  lemma TrimFixed(s: string, c: char)
    requires Trimmed(s, c)
    ensures Trim(s, c) == s
  {
  }

  /** Joining nonempty-ended parts gives a string that Trim leaves alone. */
  lemma {:induction false} JoinEnds(parts: seq<string>, sep: char)
    requires |parts| >= 1
    requires parts[0] != "" && parts[0][0] != sep
    requires parts[|parts| - 1] != "" && parts[|parts| - 1][|parts[|parts| - 1]| - 1] != sep
    ensures Join(parts, sep) != "" && Trimmed(Join(parts, sep), sep)
  {
    if |parts| > 1 {
      JoinLast(parts, sep);
    }
  }

  lemma {:induction false} JoinLast(parts: seq<string>, sep: char)
    requires |parts| >= 1
    requires parts[|parts| - 1] != ""
    ensures Join(parts, sep) != ""
    ensures Join(parts, sep)[|Join(parts, sep)| - 1] == parts[|parts| - 1][|parts[|parts| - 1]| - 1]
  {
    if |parts| > 1 {
      JoinLast(parts[1..], sep);
    }
  }

  /** A slash more at the end makes no difference to Trim. */
  lemma {:induction false} TrimPadded(s: string, c: char)
    ensures Trim(s + [c], c) == Trim(s, c)
  {
    var t := s + [c];
    if s == "" {
      assert t[1..] == "";
    } else if s[0] == c {
      assert t[1..] == s[1..] + [c];
      TrimPadded(s[1..], c);
    } else {
      assert t[..|t| - 1] == s;
    }
  }

  lemma {:induction false} LongerThanAll(texts: set<string>) returns (n: nat)
    ensures forall s :: s in texts ==> |s| < n
    decreases |texts|
  {
    if texts == {} {
      n := 0;
    } else {
      var s :| s in texts;
      var m := LongerThanAll(texts - {s});
      n := if |s| < m then m else |s| + 1;
    }
  }
}
