/**
  The two pieces of Go's `strings` package that the history parser relies on,
  specialised to a one-character separator: finding the first occurrence of a
  character, and `strings.Split`, which cuts a string at EVERY occurrence of
  the separator.
 */
module GoStrings {

  /** Position of the first `c` in `s`, or `|s|` when `s` has no `c`
      (Go's `strings.Index`, with "not found" mapped to the length). */
  function IndexOf(s: string, c: char): (i: nat)
    ensures i <= |s|
    ensures i < |s| ==> s[i] == c
    decreases |s|
  {
    if |s| == 0 then 0
    else if s[0] == c then 0
    else 1 + IndexOf(s[1..], c)
  }

  /** No `c` comes before the position `IndexOf` gives: it is the FIRST
      occurrence. */
  lemma {:induction false} IndexOfFirst(s: string, c: char)
    ensures forall j :: 0 <= j < IndexOf(s, c) ==> s[j] != c
    decreases |s|
  {
    if |s| > 0 && s[0] != c {
      IndexOfFirst(s[1..], c);
      assert forall j :: 1 <= j <= IndexOf(s[1..], c) ==> s[j] == s[1..][j - 1];
    }
  }

  /** `c` is found exactly when it occurs. */
  lemma Found(s: string, c: char)
    ensures IndexOf(s, c) < |s| <==> c in s
  {
    IndexOfFirst(s, c);
  }

  /** The text of `s` before its first `c`; all of `s` when there is none. */
  function TakeUntil(s: string, c: char): (t: string)
    ensures t <= s
    ensures forall j :: 0 <= j < |t| ==> t[j] != c
    ensures |t| == |s| || s[|t|] == c
  {
    IndexOfFirst(s, c);
    s[..IndexOf(s, c)]
  }

  /** Go's `strings.Split(s, sep)` for a one-character separator: cut at the
      first separator, keep the piece before it, and go on with the rest.
      The empty string gives one empty piece, so there is always a piece. */
  function Split(s: string, sep: char): (parts: seq<string>)
    ensures |parts| >= 1
    decreases |s|
  {
    var m := IndexOf(s, sep);
    if m == |s| then [s]
    else [s[..m]] + Split(s[m + 1..], sep)
  }

  /** Go's `strings.Join(parts, string(sep))`, the inverse of `Split`. */
  function Join(parts: seq<string>, sep: char): string
    requires |parts| >= 1
    decreases |parts|
  {
    if |parts| == 1 then parts[0] else parts[0] + [sep] + Join(parts[1..], sep)
  }

  /** The first piece is the text before the first separator; when `sep`
      occurs, the later pieces are the pieces of the text after it. */
  lemma SplitHeadTail(s: string, sep: char)
    ensures |Split(s, sep)| == 1 <==> IndexOf(s, sep) == |s|
    ensures Split(s, sep)[0] == TakeUntil(s, sep)
    ensures IndexOf(s, sep) < |s| ==> Split(s, sep)[1..] == Split(s[IndexOf(s, sep) + 1..], sep)
  {
  }

  /** No piece contains the separator. */
  lemma {:induction false} SplitPiecesFree(s: string, sep: char)
    ensures forall k :: 0 <= k < |Split(s, sep)| ==> sep !in Split(s, sep)[k]
    decreases |s|
  {
    var m := IndexOf(s, sep);
    SplitHeadTail(s, sep);
    if m < |s| {
      SplitPiecesFree(s[m + 1..], sep);
    }
  }

  /** Joining a piece in front of at least one more piece. */
  lemma JoinCons(p: string, parts: seq<string>, sep: char)
    requires |parts| >= 1
    ensures Join([p] + parts, sep) == p + [sep] + Join(parts, sep)
  {
    assert ([p] + parts)[1..] == parts;
  }

  /** A string is the text before position `m`, the character there, and
      the text after it. */
  lemma CutAt(s: string, m: nat)
    requires m < |s|
    ensures s == s[..m] + [s[m]] + s[m + 1..]
  {
  }

  /** Splitting loses nothing: joining the pieces gives back the input. */
  lemma {:induction false} JoinSplit(s: string, sep: char)
    ensures Join(Split(s, sep), sep) == s
    decreases |s|
  {
    var m := IndexOf(s, sep);
    if m < |s| {
      var rest := s[m + 1..];
      JoinSplit(rest, sep);
      assert Split(s, sep) == [s[..m]] + Split(rest, sep);
      JoinCons(s[..m], Split(rest, sep), sep);
      assert Join(Split(s, sep), sep) == s[..m] + [sep] + rest;
      CutAt(s, m);
    } else {
      assert Split(s, sep) == [s];
    }
  }

  /** The first separator in `a + [sep] + b` is the one after `a` when `a`
      has none. */
  lemma IndexOfAfterPrefix(a: string, sep: char, b: string)
    requires sep !in a
    ensures IndexOf(a + [sep] + b, sep) == |a|
  {
    var s := a + [sep] + b;
    IndexOfFirst(s, sep);
    assert s[|a|] == sep;
    assert forall j :: 0 <= j < |a| ==> s[j] == a[j];
  }

  /** Separator-free pieces are recovered by splitting their join, so `Split`
      is the only cutting of a string into separator-free pieces. */
  lemma {:induction false} SplitJoin(parts: seq<string>, sep: char)
    requires |parts| >= 1
    requires forall k :: 0 <= k < |parts| ==> sep !in parts[k]
    ensures Split(Join(parts, sep), sep) == parts
    decreases |parts|
  {
    if |parts| == 1 {
      Found(parts[0], sep);
    } else {
      var tail := Join(parts[1..], sep);
      var s := parts[0] + [sep] + tail;
      assert Join(parts, sep) == s;
      IndexOfAfterPrefix(parts[0], sep, tail);
      assert s[..|parts[0]|] == parts[0];
      assert s[|parts[0]| + 1..] == tail;
      SplitJoin(parts[1..], sep);
      assert Split(s, sep) == [parts[0]] + parts[1..];
    }
  }
}
