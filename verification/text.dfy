/** The string primitives the router relies on: `indexOf`, `split` with a
    one-character separator, `replace` of the first occurrence of a
    character, and the character classes `\w` and "line terminator" of
    JavaScript regular expressions. Strings are sequences of characters. */
module Text {

  /** `\w` in a regular expression without the unicode flag. */
  predicate IsWordChar(c: char) {
    ('a' <= c <= 'z') || ('A' <= c <= 'Z') || ('0' <= c <= '9') || c == '_'
  }

  /** The characters `.` refuses to match. */
  predicate IsLineTerminator(c: char) {
    c == '\n' || c == '\r' || c == '\U{2028}' || c == '\U{2029}'
  }

  predicate NoLineTerminator(s: string) {
    forall i :: 0 <= i < |s| ==> !IsLineTerminator(s[i])
  }

  /** Position of the first `c` in `s`, or `|s|` when there is none. */
  function IndexOf(s: string, c: char): (i: nat)
    ensures i <= |s|
    ensures i < |s| ==> s[i] == c
    ensures c !in s[..i]
    ensures i == |s| <==> c !in s
  {
    if s == [] then 0
    else if s[0] == c then 0
    else
      var j := IndexOf(s[1..], c);
      assert s[1..][..j] == s[1..j + 1];
      assert s[..j + 1] == [s[0]] + s[1..j + 1];
      1 + j
  }

  /** The first occurrence of `c` is found. */
  lemma IndexOfFirst(s: string, c: char, j: nat)
    requires j < |s| && s[j] == c && c !in s[..j]
    ensures IndexOf(s, c) == j
  {
  }

  /** Length of the longest prefix of `s` made of word characters: the run
      a greedy `\w+` takes. */
  function WordRun(s: string): (n: nat)
    ensures n <= |s|
    ensures forall i :: 0 <= i < n ==> IsWordChar(s[i])
    ensures n < |s| ==> !IsWordChar(s[n])
  {
    if s == [] || !IsWordChar(s[0]) then 0 else 1 + WordRun(s[1..])
  }

  /** Pieces joined with `c` between consecutive ones: the inverse of `Split`. */
  function Join(parts: seq<string>, c: char): string
  {
    if parts == [] then []
    else if |parts| == 1 then parts[0]
    else parts[0] + [c] + Join(parts[1..], c)
  }

  /** `s.split(c)`: the maximal runs of `s` free of `c`, in order; there is
      always one more piece than there are occurrences of `c`. */
  function Split(s: string, c: char): (parts: seq<string>)
    ensures |parts| >= 1
    ensures forall i :: 0 <= i < |parts| ==> c !in parts[i]
    ensures Join(parts, c) == s
    decreases |s|
  {
    var i := IndexOf(s, c);
    if i == |s| then [s]
    else
      var head, tail := s[..i], s[i + 1..];
      var rest := Split(tail, c);
      assert s == head + [c] + tail;
      JoinCons(head, rest, c);
      [head] + rest
  }

  /** The first piece is the text before the first separator. */
  lemma SplitFirst(s: string, c: char)
    ensures Split(s, c)[0] == s[..IndexOf(s, c)]
  {
  }

  lemma JoinCons(head: string, rest: seq<string>, c: char)
    requires |rest| >= 1
    ensures Join([head] + rest, c) == head + [c] + Join(rest, c)
  {
    assert ([head] + rest)[1..] == rest;
  }

  /** Splitting text that starts with a separator-free piece followed by the
      separator yields that piece, then the split of the rest. */
  lemma SplitCons(head: string, c: char, tail: string)
    requires c !in head
    ensures Split(head + [c] + tail, c) == [head] + Split(tail, c)
  {
    var s := head + [c] + tail;
    var i := IndexOf(s, c);
    assert s[..|head|] == head;
    assert s[|head|] == c;
    assert i == |head|;
    assert s[..i] == head;
    assert s[i + 1..] == tail;
  }

  /** The first piece of a split is everything before the first separator. */
  lemma SplitHead(head: string, c: char, tail: string)
    requires c !in head
    requires tail == [] || tail[0] == c
    ensures Split(head + tail, c)[0] == head
  {
    if tail == [] {
      assert head + tail == head;
    } else {
      assert head + tail == head + [c] + tail[1..];
      SplitCons(head, c, tail[1..]);
    }
  }

  /** Round trip: splitting the join of separator-free pieces gives the
      pieces back. */
  lemma {:induction false} SplitJoin(parts: seq<string>, c: char)
    requires |parts| >= 1
    requires forall i :: 0 <= i < |parts| ==> c !in parts[i]
    ensures Split(Join(parts, c), c) == parts
    decreases |parts|
  {
    if |parts| == 1 {
      assert Join(parts, c) == parts[0];
    } else {
      SplitJoin(parts[1..], c);
      SplitCons(parts[0], c, Join(parts[1..], c));
      assert [parts[0]] + parts[1..] == parts;
    }
  }

  /** `s.replace(c, "")` for a one-character string `c`: removes the first
      occurrence only. */
  function RemoveFirst(s: string, c: char): (r: string)
    ensures c !in s ==> r == s
    ensures c in s ==> |r| == |s| - 1 && s == r[..IndexOf(s, c)] + [c] + r[IndexOf(s, c)..]
    ensures c in s ==> c !in r[..IndexOf(s, c)]
  {
    var i := IndexOf(s, c);
    if i == |s| then s
    else
      var r := s[..i] + s[i + 1..];
      assert r[..i] == s[..i];
      assert r[i..] == s[i + 1..];
      r
  }
}
