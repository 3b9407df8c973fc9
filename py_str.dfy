/**
 * The few Python string built-ins that both core files rely on: the whitespace
 * class (`str.isspace`, which is also what `\s` matches in a `str` regex),
 * `str.strip()`, `str.join` and the slice `s[:n]`; and `str.split()`, the
 * reference definition the sanitizer is compared against.
 */
module PyStr {

  /** Python's whitespace characters (`str.isspace`, and the class `\s` of a `str` regex). */
  predicate IsSpace(c: char) {
    ('\t' <= c <= '\r') || ('\U{1C}' <= c <= ' ') || c == '\U{85}' || c == '\U{A0}' || c == '\U{1680}'
    || ('\U{2000}' <= c <= '\U{200A}') || c == '\U{2028}' || c == '\U{2029}' || c == '\U{202F}'
    || c == '\U{205F}' || c == '\U{3000}'
  }

  /**
   * Among ASCII characters the whitespace is space, the five controls "\t"
   * to "\r", and the four separators U+001C to U+001F.
   */
  lemma AsciiSpace(c: char)
    requires c < '\U{80}'
    ensures IsSpace(c) <==> c == ' ' || '\t' <= c <= '\r' || '\U{1C}' <= c <= '\U{1F}'
  {
  }

  /** True when every character of `s` is whitespace (vacuously for ""). */
  predicate AllSpace(s: string) {
    forall i :: 0 <= i < |s| ==> IsSpace(s[i])
  }

  /** How many whitespace characters `s` starts with. */
  function LeadingSpaces(s: string): (n: nat)
    ensures n <= |s| && forall i :: 0 <= i < n ==> IsSpace(s[i])
    ensures n < |s| ==> !IsSpace(s[n])
  {
    if s != [] && IsSpace(s[0]) then 1 + LeadingSpaces(s[1..]) else 0
  }

  /** How many whitespace characters `s` ends with. */
  function TrailingSpaces(s: string): (n: nat)
    ensures n <= |s| && forall i :: |s| - n <= i < |s| ==> IsSpace(s[i])
    ensures n < |s| ==> !IsSpace(s[|s| - n - 1])
  {
    if s != [] && IsSpace(s[|s| - 1]) then 1 + TrailingSpaces(s[..|s| - 1]) else 0
  }

  /** `s.lstrip()`: the longest whitespace prefix is dropped, nothing else. */
  function TrimLeft(s: string): (r: string)
    ensures |r| <= |s| && r == s[|s| - |r|..]
    ensures r == [] || !IsSpace(r[0])
    ensures AllSpace(s[..|s| - |r|])
  {
    s[LeadingSpaces(s)..]
  }

  /**
   * `s.strip()`: `s` is split as `lead + r + trail` where `lead` and `trail`
   * are whitespace and `r` neither starts nor ends with whitespace.
   */
  function Strip(s: string): (r: string)
    ensures var a := LeadingSpaces(s);
      a + |r| <= |s| && r == s[a..a + |r|]
      && AllSpace(s[..a]) && AllSpace(s[a + |r|..])
    ensures r == [] || (!IsSpace(r[0]) && !IsSpace(r[|r| - 1]))
    ensures r == [] <==> AllSpace(s)
  {
    var a := LeadingSpaces(s);
    var n := TrailingSpaces(s);
    var b := if a == |s| then |s| else |s| - n;
    StripSlice(s, a, n, b);
    s[a..b]
  }

  /**
   * With `a` leading and `n` trailing whitespace characters, the middle
   * `s[a..b]` is what `strip()` keeps.
   */
  lemma StripSlice(s: string, a: nat, n: nat, b: nat)
    requires a <= |s| && (forall i :: 0 <= i < a ==> IsSpace(s[i])) && (a < |s| ==> !IsSpace(s[a]))
    requires n <= |s| && (forall i :: |s| - n <= i < |s| ==> IsSpace(s[i])) && (n < |s| ==> !IsSpace(s[|s| - n - 1]))
    requires b == if a == |s| then |s| else |s| - n
    ensures a <= b <= |s| && s[a..b] == s[a..a + (b - a)]
    ensures AllSpace(s[..a]) && AllSpace(s[b..])
    ensures b == a || (!IsSpace(s[a]) && !IsSpace(s[b - 1]))
    ensures b == a <==> AllSpace(s)
  {
    if a < |s| {
      assert !IsSpace(s[a]);
    } else {
      assert s[..a] == s;
    }
  }

  /** A whitespace run followed by a part that starts with a non-space character: the run is exactly the leading whitespace. */
  lemma LeadingPadded(a: string, t: string)
    requires AllSpace(a) && (t == [] || !IsSpace(t[0]))
    ensures LeadingSpaces(a + t) == |a|
  {
    var s := a + t;
    var n := LeadingSpaces(s);
    assert forall k :: 0 <= k < |a| ==> s[k] == a[k];
    assert t != [] ==> s[|a|] == t[0];
  }

  /** A part that ends with a non-space character followed by a whitespace run: the run is exactly the trailing whitespace. */
  lemma TrailingPadded(t: string, b: string)
    requires AllSpace(b) && t != [] && !IsSpace(t[|t| - 1])
    ensures TrailingSpaces(t + b) == |b|
  {
    var s := t + b;
    var n := TrailingSpaces(s);
    assert forall k :: |t| <= k < |s| ==> s[k] == b[k - |t|];
    assert s[|t| - 1] == t[|t| - 1];
  }

  /** A string that neither starts nor ends with whitespace is left alone by `strip()`. */
  lemma StripFixes(t: string)
    requires t == [] || (!IsSpace(t[0]) && !IsSpace(t[|t| - 1]))
    ensures Strip(t) == t
  {
    if t != [] {
      assert LeadingSpaces(t) == 0;
      assert TrailingSpaces(t) == 0;
      assert t[0..|t|] == t;
    }
  }

  /** `strip()` removes exactly the whitespace around a core that neither starts nor ends with whitespace. */
  lemma StripPadded(a: string, m: string, b: string)
    requires AllSpace(a) && AllSpace(b)
    requires m == [] || (!IsSpace(m[0]) && !IsSpace(m[|m| - 1]))
    requires m == [] ==> b == []
    ensures Strip(a + m + b) == m
  {
    var s := a + m + b;
    assert s == a + (m + b);
    if m == [] {
      assert s == a;
    } else {
      assert (m + b)[0] == m[0];
      LeadingPadded(a, m + b);
      assert s == (a + m) + b;
      TrailingPadded(a + m, b);
      assert s[|a|..|a| + |m|] == m;
    }
  }

  /** `w` is a non-empty run of non-whitespace characters, as `str.split()` returns them. */
  predicate Solid(w: string) {
    w != [] && forall i :: 0 <= i < |w| ==> !IsSpace(w[i])
  }

  /** How many non-whitespace characters `s` starts with. */
  function WordLength(s: string): (n: nat)
    ensures n <= |s| && forall i :: 0 <= i < n ==> !IsSpace(s[i])
    ensures n < |s| ==> IsSpace(s[n])
  {
    if s != [] && !IsSpace(s[0]) then 1 + WordLength(s[1..]) else 0
  }

  /**
   * `s.split()` with no separator: the maximal runs of non-whitespace
   * characters of `s`, in order. Whitespace at either end yields no empty
   * part.
   */
  function Split(s: string): (parts: seq<string>)
    ensures forall k :: 0 <= k < |parts| ==> Solid(parts[k])
    ensures parts == [] <==> AllSpace(s)
    decreases |s|
  {
    var t := TrimLeft(s);
    if t == [] then
      SplitNone(s, t);
      []
    else
      var n := WordLength(t);
      var parts := [t[..n]] + Split(t[n..]);
      SplitSome(s, t, t[..n], Split(t[n..]), parts);
      parts
  }

  lemma SplitNone(s: string, t: string)
    requires |t| <= |s| && t == [] && AllSpace(s[..|s| - |t|])
    ensures AllSpace(s)
  {
    assert s[..|s| - |t|] == s;
  }

  lemma SplitSome(s: string, t: string, w: string, tail: seq<string>, parts: seq<string>)
    requires |t| <= |s| && t == s[|s| - |t|..] && t != [] && !IsSpace(t[0])
    requires |w| <= |t| && w == t[..|w|] && w != [] && forall i :: 0 <= i < |w| ==> !IsSpace(t[i])
    requires (forall k :: 0 <= k < |tail| ==> Solid(tail[k])) && parts == [w] + tail
    ensures (forall k :: 0 <= k < |parts| ==> Solid(parts[k])) && parts != [] && !AllSpace(s)
  {
    assert Solid(w);
    assert s[|s| - |t|] == t[0];
  }

  /** A string that starts with a non-space character is split at its first word. */
  lemma SplitWord(t: string)
    requires t != [] && !IsSpace(t[0])
    ensures var n := WordLength(t); 0 < n && Split(t) == [t[..n]] + Split(t[n..])
  {
    assert LeadingSpaces(t) == 0;
    assert TrimLeft(t) == t;
  }

  /** A word followed by whitespace or nothing is the first part of the split. */
  lemma SplitWordConcat(w: string, rest: string)
    requires Solid(w) && (rest == [] || IsSpace(rest[0]))
    ensures Split(w + rest) == [w] + Split(rest)
  {
    var t := w + rest;
    WordPadded(w, rest);
    SplitWord(t);
    assert t[..|w|] == w && t[|w|..] == rest;
  }

  /** The first word of `w + rest` is exactly `w`. */
  lemma WordPadded(w: string, rest: string)
    requires Solid(w) && (rest == [] || IsSpace(rest[0]))
    ensures WordLength(w + rest) == |w|
  {
    var t := w + rest;
    assert forall k :: 0 <= k < |w| ==> t[k] == w[k];
    assert rest != [] ==> t[|w|] == rest[0];
  }

  /** Leading whitespace does not change the split. */
  lemma SplitTrimLeft(s: string)
    ensures Split(s) == Split(TrimLeft(s))
  {
    var t := TrimLeft(s);
    if t != [] {
      SplitWord(t);
    } else {
      assert AllSpace(t);
    }
  }

  /** Joining non-empty runs of non-whitespace gives a string with non-space edges. */
  lemma {:induction false} JoinEdges(sep: string, parts: seq<string>)
    requires |parts| > 0 && forall k :: 0 <= k < |parts| ==> Solid(parts[k])
    ensures var j := Join(sep, parts); j != [] && !IsSpace(j[0]) && !IsSpace(j[|j| - 1])
  {
    var w := parts[0];
    assert Solid(w);
    if |parts| > 1 {
      var rest := parts[1..];
      assert forall k :: 0 <= k < |rest| ==> rest[k] == parts[k + 1];
      JoinEdges(sep, rest);
      var j, r := Join(sep, parts), Join(sep, rest);
      assert j == w + sep + r;
      assert j[0] == w[0] && j[|j| - 1] == r[|r| - 1];
    }
  }

  /** `StripPadded` with the core and the trailing run grouped together. */
  lemma StripCore(a: string, m: string, b: string)
    requires AllSpace(a) && AllSpace(b)
    requires m == [] || (!IsSpace(m[0]) && !IsSpace(m[|m| - 1]))
    requires m == [] ==> b == []
    ensures Strip(a + (m + b)) == m
  {
    Assoc(a, m, b);
    StripPadded(a, m, b);
  }

  lemma Assoc(a: string, m: string, b: string)
    ensures a + (m + b) == a + m + b
  {
  }

  /** `sep.join(parts)`. */
  function Join(sep: string, parts: seq<string>): string
  {
    if |parts| == 0 then ""
    else if |parts| == 1 then parts[0]
    else parts[0] + sep + Join(sep, parts[1..])
  }

  /** A first part followed by at least one more: the part, a separator, and the join of the rest. */
  lemma JoinCons(sep: string, w: string, more: seq<string>)
    requires more != []
    ensures Join(sep, [w] + more) == w + (sep + Join(sep, more))
  {
    var parts := [w] + more;
    assert parts[0] == w && parts[1..] == more;
  }

  /** Where `parts[i]` starts inside `Join(sep, parts)`: every earlier part and its separator come first. */
  function JoinOffset(sep: string, parts: seq<string>, i: nat): nat
    requires i < |parts|
  {
    if i == 0 then 0 else |parts[0]| + |sep| + JoinOffset(sep, parts[1..], i - 1)
  }

  /** Consecutive parts are one separator apart. */
  lemma {:induction false} JoinOffsetNext(sep: string, parts: seq<string>, i: nat)
    requires i + 1 < |parts|
    ensures JoinOffset(sep, parts, i + 1) == JoinOffset(sep, parts, i) + |parts[i]| + |sep|
  {
    if i > 0 {
      JoinOffsetNext(sep, parts[1..], i - 1);
    }
  }

  /** Part `i` of `parts` sits inside `Join(sep, parts)` at `JoinOffset(sep, parts, i)`. */
  lemma {:induction false} JoinPart(sep: string, parts: seq<string>, i: nat)
    requires i < |parts|
    ensures JoinOffset(sep, parts, i) + |parts[i]| <= |Join(sep, parts)|
    ensures Join(sep, parts)[JoinOffset(sep, parts, i)..JoinOffset(sep, parts, i) + |parts[i]|] == parts[i]
  {
    if |parts| == 1 {
      assert Join(sep, parts) == parts[0];
    } else if i == 0 {
      var tail := sep + Join(sep, parts[1..]);
      assert Join(sep, parts) == parts[0] + tail;
      assert (parts[0] + tail)[..|parts[0]|] == parts[0];
    } else {
      var head := parts[0] + sep;
      var rest := Join(sep, parts[1..]);
      assert Join(sep, parts) == head + rest;
      JoinPart(sep, parts[1..], i - 1);
      var o := JoinOffset(sep, parts[1..], i - 1);
      assert JoinOffset(sep, parts, i) == |head| + o;
      assert parts[1..][i - 1] == parts[i];
      SliceOfConcat(head, rest, o, o + |parts[i]|);
    }
  }

  /** Between part `i` and part `i + 1` stands exactly one separator. */
  lemma {:induction false} JoinSeparator(sep: string, parts: seq<string>, i: nat)
    requires i + 1 < |parts|
    ensures JoinOffset(sep, parts, i + 1) <= |Join(sep, parts)|
    ensures JoinOffset(sep, parts, i) + |parts[i]| + |sep| == JoinOffset(sep, parts, i + 1)
    ensures Join(sep, parts)[JoinOffset(sep, parts, i) + |parts[i]|..JoinOffset(sep, parts, i + 1)] == sep
  {
    JoinOffsetNext(sep, parts, i);
    if i > 0 {
      var head := parts[0] + sep;
      var rest := Join(sep, parts[1..]);
      assert Join(sep, parts) == head + rest;
      JoinSeparator(sep, parts[1..], i - 1);
      var o := JoinOffset(sep, parts[1..], i - 1);
      assert parts[1..][i - 1] == parts[i];
      SliceOfConcat(head, rest, o + |parts[i]|, o + |parts[i]| + |sep|);
    } else {
      FirstSeparator(parts[0], sep, Join(sep, parts[1..]));
    }
  }

  lemma FirstSeparator(p: string, sep: string, rest: string)
    ensures (p + sep + rest)[|p|..|p| + |sep|] == sep
  {
    assert p + sep + rest == p + (sep + rest);
    SliceOfConcat(p, sep + rest, 0, |sep|);
  }

  /** The last part ends the joined string, so nothing follows it. */
  lemma {:induction false} JoinLength(sep: string, parts: seq<string>)
    requires |parts| > 0
    ensures |Join(sep, parts)| == JoinOffset(sep, parts, |parts| - 1) + |parts[|parts| - 1]|
  {
    if |parts| > 1 {
      var tail := parts[1..];
      JoinLength(sep, tail);
      assert tail[|tail| - 1] == parts[|parts| - 1];
      assert |Join(sep, parts)| == |parts[0]| + |sep| + |Join(sep, tail)|;
      assert JoinOffset(sep, parts, |parts| - 1) == |parts[0]| + |sep| + JoinOffset(sep, tail, |tail| - 1);
    }
  }

  lemma SliceOfConcat(a: string, b: string, x: nat, y: nat)
    requires x <= y <= |b|
    ensures (a + b)[|a| + x..|a| + y] == b[x..y]
  {
  }

  /** Python's `s[:n]` for `n >= 0`: the first `n` characters, or all of `s` when it is shorter. */
  function SliceTo(s: string, n: nat): (r: string)
    ensures |r| <= n && r <= s
    ensures |r| == n || r == s
  {
    if |s| <= n then s else s[..n]
  }
}
