/** The parts of Go's `strings` package the server relies on. */
module GoStrings {
  /** Position of the first `c`, or |s| when there is none. */
  function IndexOf(s: string, c: char): (i: nat)
    ensures i <= |s|
    ensures i < |s| ==> s[i] == c
    ensures c !in s[..i]
  {
    if s == [] || s[0] == c then 0
    else
      var i := 1 + IndexOf(s[1..], c);
      assert s[..i] == [s[0]] + s[1..][..i - 1];
      i
  }

  /** strings.SplitN(s, sep, n) for n >= 1. */
  function SplitN(s: string, sep: char, n: nat): (parts: seq<string>)
    requires n >= 1
    ensures 1 <= |parts| <= n
    ensures |parts| < n ==> sep !in parts[|parts| - 1]
    ensures forall k | 0 <= k < |parts| - 1 :: sep !in parts[k]
    decreases n
  {
    var i := IndexOf(s, sep);
    if n == 1 || i == |s| then
      assert s[..|s|] == s;
      [s]
    else
      [s[..i]] + SplitN(s[i + 1..], sep, n - 1)
  }

  /** strings.Split(s, sep): a string of length n has at most n + 1 fields. */
  function Split(s: string, sep: char): seq<string> {
    SplitN(s, sep, |s| + 1)
  }

  function Join(parts: seq<string>, sep: char): string
    requires parts != []
  {
    if |parts| == 1 then parts[0] else parts[0] + [sep] + Join(parts[1..], sep)
  }

  /** Splitting loses nothing: the fields joined by the separator are the input. */
  lemma {:induction false} SplitNJoin(s: string, sep: char, n: nat)
    requires n >= 1
    ensures Join(SplitN(s, sep, n), sep) == s
    decreases n
  {
    var i := IndexOf(s, sep);
    hide IndexOf;
    if n > 1 && i < |s| {
      var rest := SplitN(s[i + 1..], sep, n - 1);
      SplitNJoin(s[i + 1..], sep, n - 1);
      assert SplitN(s, sep, n) == [s[..i]] + rest;
      hide SplitN;
      assert ([s[..i]] + rest)[1..] == rest;
      assert s == s[..i] + [sep] + s[i + 1..];
    }
  }

  lemma IndexOfHead(head: string, sep: char, tail: string)
    requires sep !in head
    ensures IndexOf(head + [sep] + tail, sep) == |head|
  {
    var s := head + [sep] + tail;
    var i := IndexOf(s, sep);
    assert forall k | 0 <= k < i :: s[k] == s[..i][k] != sep;
    assert forall k | 0 <= k < |head| :: s[k] == head[k] != sep;
    assert s[|head|] == sep;
  }

  /** A field without the separator is split off whole. */
  lemma SplitNHead(head: string, sep: char, tail: string, n: nat)
    requires sep !in head && n >= 2
    ensures SplitN(head + [sep] + tail, sep, n) == [head] + SplitN(tail, sep, n - 1)
  {
    var s := head + [sep] + tail;
    IndexOfHead(head, sep, tail);
    assert s[..|head|] == head && s[|head| + 1..] == tail;
  }

  lemma SplitNWhole(s: string, sep: char, n: nat)
    requires sep !in s && n >= 1
    ensures SplitN(s, sep, n) == [s]
  {
  }

  /** unicode.IsSpace, the set trimmed by strings.TrimSpace. */
  predicate IsSpace(c: char) {
    c in {'\t', '\n', '\U{0B}', '\U{0C}', '\r', ' ', '\U{85}', '\U{A0}', '\U{1680}',
          '\U{2028}', '\U{2029}', '\U{202F}', '\U{205F}', '\U{3000}'}
    || '\U{2000}' <= c <= '\U{200A}'
  }

  function TrimLeft(s: string): string {
    if s != [] && IsSpace(s[0]) then TrimLeft(s[1..]) else s
  }

  function TrimRight(s: string): string {
    if s != [] && IsSpace(s[|s| - 1]) then TrimRight(s[..|s| - 1]) else s
  }

  function TrimSpace(s: string): string { TrimRight(TrimLeft(s)) }
}
