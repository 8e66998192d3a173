/** The little of Python's `str` that the resolver and the URL builder rely on. */
module Strings {

  /** The position of the first occurrence of `c` in `s`. */
  function IndexOf(s: string, c: char): (i: nat)
    requires c in s
    ensures i < |s| && s[i] == c && c !in s[..i]
  {
    if s[0] == c then 0 else 1 + IndexOf(s[1..], c)
  }

  /** The first occurrence of `c` is the only position that has `c` and none before it. */
  lemma IndexOfUnique(s: string, c: char, k: nat)
    requires k < |s| && s[k] == c && c !in s[..k]
    ensures IndexOf(s, c) == k
  {
  }

  /** Python's `s.split(sep)` for a one-character separator: the pieces between
      the occurrences of `sep`, empty pieces included. */
  function Split(s: string, sep: char): (pieces: seq<string>)
    ensures |pieces| >= 1
    decreases |s|
  {
    if sep !in s then [s]
    else
      var i := IndexOf(s, sep);
      [s[..i]] + Split(s[i + 1..], sep)
  }

  /** Python's `sep.join(pieces)` for a non-empty list of pieces. */
  function Join(pieces: seq<string>, sep: char): string
    requires |pieces| >= 1
  {
    if |pieces| == 1 then pieces[0] else pieces[0] + [sep] + Join(pieces[1..], sep)
  }

  /** No piece holds the separator, and there is a single piece exactly when
      the separator does not occur. */
  lemma {:induction false} SplitPieces(s: string, sep: char)
    ensures forall i :: 0 <= i < |Split(s, sep)| ==> sep !in Split(s, sep)[i]
    ensures |Split(s, sep)| == 1 <==> sep !in s
    decreases |s|
  {
    if sep in s {
      SplitFirst(s, sep);
      SplitPieces(s[IndexOf(s, sep) + 1..], sep);
    }
  }

  /** Splitting at the first separator. */
  lemma SplitFirst(s: string, sep: char)
    requires sep in s
    ensures Split(s, sep) == [s[..IndexOf(s, sep)]] + Split(s[IndexOf(s, sep) + 1..], sep)
  {
  }

  /** `Join` of a piece in front of at least one more. */
  lemma JoinCons(head: string, rest: seq<string>, sep: char)
    requires |rest| >= 1
    ensures Join([head] + rest, sep) == head + [sep] + Join(rest, sep)
  {
    assert ([head] + rest)[1..] == rest;
  }

  /** One separator more: if the rest after the first separator joins back,
      so does the whole string. */
  lemma JoinSplitStep(s: string, sep: char)
    requires sep in s
    requires Join(Split(s[IndexOf(s, sep) + 1..], sep), sep) == s[IndexOf(s, sep) + 1..]
    ensures Join(Split(s, sep), sep) == s
  {
    var i := IndexOf(s, sep);
    var head, tail := s[..i], s[i + 1..];
    SplitFirst(s, sep);
    JoinCons(head, Split(tail, sep), sep);
    Around(s, i);
  }

  /** A string is what comes before a position, the character there, and what comes after. */
  lemma Around(s: string, i: nat)
    requires i < |s|
    ensures s == s[..i] + [s[i]] + s[i + 1..]
  {
  }

  /** Joining the pieces again gives back the string that was split. */
  lemma {:induction false} JoinSplit(s: string, sep: char)
    ensures Join(Split(s, sep), sep) == s
    decreases |s|
  {
    if sep in s {
      JoinSplit(s[IndexOf(s, sep) + 1..], sep);
      JoinSplitStep(s, sep);
    }
  }

  /** A separator-free piece in front of a separator is split off first. */
  lemma SplitCons(head: string, rest: string, sep: char)
    requires sep !in head
    ensures Split(head + [sep] + rest, sep) == [head] + Split(rest, sep)
  {
    var s := head + [sep] + rest;
    var k := |head|;
    assert s[k] == sep && s[..k] == head && s[k + 1..] == rest;
    IndexOfUnique(s, sep, k);
    SplitFirst(s, sep);
  }

  /** Splitting a join of separator-free pieces gives back the pieces. */
  lemma {:induction false} SplitJoin(pieces: seq<string>, sep: char)
    requires |pieces| >= 1
    requires forall i :: 0 <= i < |pieces| ==> sep !in pieces[i]
    ensures Split(Join(pieces, sep), sep) == pieces
  {
    if |pieces| > 1 {
      SplitCons(pieces[0], Join(pieces[1..], sep), sep);
      SplitJoin(pieces[1..], sep);
      assert pieces == [pieces[0]] + pieces[1..];
    }
  }
}
