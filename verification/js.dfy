/** The few JavaScript built-ins the application's logic leans on, stated
    over `string` (a sequence of characters): `startsWith`, `trim`,
    `split` on one separator character, the truthiness of an optional
    string, the rendering of `undefined` inside a template literal, and the
    values a `throw` can carry. */
module Js {
  import opened Wrappers

  /** A value carried by a `throw` or a rejected promise: an `Error` object
      (which has a message) or anything else. */
  datatype Thrown = ErrorValue(message: string) | OtherValue

  /** How `${v}` renders a string that may be `undefined`. */
  function Render(v: Option<string>): string
  {
    match v
    case Some(s) => s
    case None => "undefined"
  }

  /** JavaScript truthiness of a string that may be `undefined`: the empty
      string is falsy, like `undefined`. */
  predicate Truthy(v: Option<string>)
  {
    v.Some? && v.value != ""
  }

  /** `s.startsWith(prefix)`: case-sensitive, from position 0. */
  predicate StartsWith(s: string, prefix: string)
  {
    |prefix| <= |s| && s[..|prefix|] == prefix
  }

  /** `t` occurs verbatim somewhere inside `s`. */
  ghost predicate Embeds(s: string, t: string)
  {
    exists i {:trigger s[i..]} :: 0 <= i <= |s| && StartsWith(s[i..], t)
  }

  lemma EmbedsMiddle(a: string, t: string, b: string)
    ensures Embeds(a + t + b, t)
  {
    var s := a + t + b;
    assert s[|a|..][..|t|] == t;
  }

  lemma StartsWithConcat(p: string, s: string)
    ensures StartsWith(p + s, p)
  {
    assert (p + s)[..|p|] == p;
  }

  // ---------------------------------------------------------------------
  // trim

  /** The characters `String.prototype.trim` strips: ECMAScript's
      WhiteSpace (tab, vertical tab, form feed, zero-width no-break space
      and every Unicode space separator) and LineTerminator (line feed,
      carriage return, line and paragraph separators). */
  predicate IsWhitespace(c: char)
  {
    || c == '\t' || c == '\n' || c == '\U{B}' || c == '\U{C}' || c == '\r'
    || c == ' ' || c == '\U{A0}' || c == '\U{1680}'
    || ('\U{2000}' <= c <= '\U{200A}')
    || c == '\U{2028}' || c == '\U{2029}' || c == '\U{202F}' || c == '\U{205F}'
    || c == '\U{3000}' || c == '\U{FEFF}'
  }

  /** The first position at or after `i` that is not whitespace, or the
      end of `s`. */
  function SkipWhitespace(s: string, i: nat): (j: nat)
    requires i <= |s|
    ensures i <= j <= |s|
    ensures forall k :: i <= k < j ==> IsWhitespace(s[k])
    ensures j == |s| || !IsWhitespace(s[j])
    decreases |s| - i
  {
    if i < |s| && IsWhitespace(s[i]) then SkipWhitespace(s, i + 1) else i
  }

  /** The end of `s[lo..hi]` once its trailing whitespace is dropped. */
  function DropTrailingWhitespace(s: string, lo: nat, hi: nat): (j: nat)
    requires lo <= hi <= |s|
    ensures lo <= j <= hi
    ensures forall k :: j <= k < hi ==> IsWhitespace(s[k])
    ensures j == lo || !IsWhitespace(s[j - 1])
    decreases hi
  {
    if lo < hi && IsWhitespace(s[hi - 1]) then DropTrailingWhitespace(s, lo, hi - 1) else hi
  }

  /** `s.trim()`: the slice of `s` that starts at its first non-whitespace
      character and ends after its last one. Only whitespace lies outside
      it, its own ends are not whitespace, and it is empty exactly when `s`
      is all whitespace. */
  function Trim(s: string): (r: string)
    ensures var lo := SkipWhitespace(s, 0);
      && lo + |r| <= |s| && r == s[lo..lo + |r|]
      && forall k :: lo + |r| <= k < |s| ==> IsWhitespace(s[k])
    ensures r != [] ==> !IsWhitespace(r[0]) && !IsWhitespace(r[|r| - 1])
    ensures r == [] <==> forall k :: 0 <= k < |s| ==> IsWhitespace(s[k])
  {
    var lo := SkipWhitespace(s, 0);
    var hi := DropTrailingWhitespace(s, lo, |s|);
    assert lo < |s| ==> lo < hi;
    s[lo..hi]
  }

  lemma TrimIdempotent(s: string)
    ensures Trim(Trim(s)) == Trim(s)
  {
    var r := Trim(s);
    if r != [] {
      assert SkipWhitespace(r, 0) == 0;
      assert DropTrailingWhitespace(r, 0, |r|) == |r|;
      assert r[0..|r|] == r;
    }
  }

  // ---------------------------------------------------------------------
  // split

  /** `s.indexOf(c)`, with `None` for -1. */
  function IndexOf(s: string, c: char): (r: Option<nat>)
    ensures r.None? <==> c !in s
    ensures r.Some? ==> r.value < |s| && s[r.value] == c && c !in s[..r.value]
  {
    if |s| == 0 then None
    else if s[0] == c then Some(0)
    else
      match IndexOf(s[1..], c)
      case None => None
      case Some(i) =>
        assert s[..i + 1] == [s[0]] + s[1..][..i];
        Some(i + 1)
  }

  /** In `head + [c] + rest` with no `c` in `head`, the first `c` is the
      one right after `head`. */
  lemma IndexOfAfterFreeHead(head: string, rest: string, c: char)
    requires c !in head
    ensures IndexOf(head + [c] + rest, c) == Some(|head|)
  {
    var s := head + [c] + rest;
    assert s[..|head|] == head;
    assert s[|head|] == c;
  }

  /** `s.split(sep)` for a one-character separator: the maximal
      separator-free fields, in order. There is always at least one. */
  function Split(s: string, sep: char): (fields: seq<string>)
    ensures |fields| >= 1
    ensures forall k :: 0 <= k < |fields| ==> sep !in fields[k]
    decreases |s|
  {
    match IndexOf(s, sep)
    case None => [s]
    case Some(i) => [s[..i]] + Split(s[i + 1..], sep)
  }

  /** `fields.join(sep)`, the inverse of `Split`. */
  function Join(fields: seq<string>, sep: char): string
  {
    if |fields| == 0 then ""
    else if |fields| == 1 then fields[0]
    else fields[0] + [sep] + Join(fields[1..], sep)
  }

  lemma JoinCons(head: string, rest: seq<string>, sep: char)
    requires |rest| >= 1
    ensures Join([head] + rest, sep) == head + [sep] + Join(rest, sep)
  {
    assert ([head] + rest)[1..] == rest;
  }

  lemma {:induction false} JoinSplit(s: string, sep: char)
    ensures Join(Split(s, sep), sep) == s
    decreases |s|
  {
    var found := IndexOf(s, sep);
    if found.Some? {
      var i := found.value;
      var rest := s[i + 1..];
      assert Split(s, sep) == [s[..i]] + Split(rest, sep);
      JoinSplit(rest, sep);
      JoinCons(s[..i], Split(rest, sep), sep);
      assert s == s[..i] + [sep] + rest;
    }
  }

  lemma {:induction false} SplitJoin(fields: seq<string>, sep: char)
    requires |fields| >= 1
    requires forall k :: 0 <= k < |fields| ==> sep !in fields[k]
    ensures Split(Join(fields, sep), sep) == fields
  {
    if |fields| == 1 {
      assert sep !in fields[0];
    } else {
      var head := fields[0];
      var rest := Join(fields[1..], sep);
      var s := head + [sep] + rest;
      IndexOfAfterFreeHead(head, rest, sep);
      assert s[..|head|] == head;
      assert s[|head| + 1..] == rest;
      SplitJoin(fields[1..], sep);
    }
  }
}
