/**
 * The two text utilities of the assistant: `sanitize_text`, which collapses
 * whitespace, and `simple_moderation_filter`, which redacts a small blacklist
 * of words case-insensitively.
 */
module Helpers {
  import opened Wrappers
  import opened PyStr

  // ---------------------------------------------------------------------------
  // sanitize_text
  // ---------------------------------------------------------------------------

  /**
   * Every whitespace character of `t` is a plain space followed by a
   * non-whitespace character or by the end of `t`.
   */
  predicate SingleSpaced(t: string) {
    t == [] || ((IsSpace(t[0]) ==> t[0] == ' ' && (|t| == 1 || !IsSpace(t[1]))) && SingleSpaced(t[1..]))
  }

  /** `t` neither starts nor ends with whitespace. */
  predicate NoEdgeSpaces(t: string) {
    t == [] || (!IsSpace(t[0]) && !IsSpace(t[|t| - 1]))
  }

  /** The shape of a sanitized string: single plain spaces between non-blank runs, nothing at the ends. */
  predicate Normalized(t: string) {
    NoEdgeSpaces(t) && SingleSpaced(t)
  }

  /** The only whitespace character in `t` is the plain space. */
  ghost predicate OnlyPlainSpaces(t: string) {
    forall i :: 0 <= i < |t| && IsSpace(t[i]) ==> t[i] == ' '
  }

  /** No two neighbouring characters of `t` are both whitespace. */
  ghost predicate NoAdjacentSpaces(t: string) {
    forall i, j :: 0 <= i < |t| && j == i + 1 < |t| ==> !(IsSpace(t[i]) && IsSpace(t[j]))
  }

  /** `SingleSpaced` says exactly: only plain spaces, and never two whitespace characters in a row. */
  lemma {:induction false} SingleSpacedMeaning(t: string)
    ensures SingleSpaced(t) <==> OnlyPlainSpaces(t) && NoAdjacentSpaces(t)
  {
    if t != [] {
      var u := t[1..];
      SingleSpacedMeaning(u);
      if OnlyPlainSpaces(t) && NoAdjacentSpaces(t) {
        forall i | 0 <= i < |u| && IsSpace(u[i]) ensures u[i] == ' ' {
          assert u[i] == t[i + 1];
        }
        forall i, j | 0 <= i < |u| && j == i + 1 < |u| ensures !(IsSpace(u[i]) && IsSpace(u[j])) {
          assert u[i] == t[i + 1] && u[j] == t[j + 1];
        }
        if |t| > 1 { assert !(IsSpace(t[0]) && IsSpace(t[1])); }
      }
      if SingleSpaced(t) {
        forall i | 0 <= i < |t| && IsSpace(t[i]) ensures t[i] == ' ' {
          if i > 0 { assert t[i] == u[i - 1]; }
        }
        forall i, j | 0 <= i < |t| && j == i + 1 < |t| ensures !(IsSpace(t[i]) && IsSpace(t[j])) {
          if i > 0 { assert t[i] == u[i - 1] && t[j] == u[j - 1]; }
        }
      }
    }
  }

  /** The non-whitespace characters of `s`, in order. */
  function RemoveSpaces(s: string): string {
    if s == [] then []
    else (if IsSpace(s[0]) then [] else [s[0]]) + RemoveSpaces(s[1..])
  }

  /**
   * `re.sub(r"\s+", " ", s)`: every maximal run of whitespace becomes one
   * plain space and every other character is kept. The result starts with
   * whitespace exactly when `s` does.
   */
  function CollapseSpace(s: string): (r: string)
    ensures |r| <= |s|
    ensures r == [] <==> s == []
    ensures r != [] ==> (IsSpace(r[0]) <==> IsSpace(s[0]))
    ensures SingleSpaced(r)
    decreases |s|
  {
    if s == [] then []
    else if IsSpace(s[0]) then
      var rest := CollapseSpace(TrimLeft(s));
      assert (" " + rest)[1..] == rest;
      " " + rest
    else
      var rest := CollapseSpace(s[1..]);
      assert ([s[0]] + rest)[1..] == rest;
      [s[0]] + rest
  }

  /** Dropping a prefix keeps the string single-spaced. */
  lemma {:induction false} DropSingleSpaced(t: string, a: nat)
    requires a <= |t| && SingleSpaced(t)
    ensures SingleSpaced(t[a..])
  {
    if a > 0 {
      DropSingleSpaced(t[1..], a - 1);
      assert t[1..][a - 1..] == t[a..];
    }
  }

  /** Keeping only a prefix keeps the string single-spaced. */
  lemma {:induction false} TakeSingleSpaced(t: string, b: nat)
    requires b <= |t| && SingleSpaced(t)
    ensures SingleSpaced(t[..b])
  {
    if b > 0 {
      TakeSingleSpaced(t[1..], b - 1);
      assert t[..b][1..] == t[1..][..b - 1];
    }
  }

  lemma SliceOfSlice(c: string, a: nat, n: nat)
    requires a + n <= |c|
    ensures c[a..][..n] == c[a..a + n]
  {
  }

  /** Stripping a single-spaced string yields a normalized string. */
  lemma StripNormalizes(c: string)
    requires SingleSpaced(c)
    ensures Normalized(Strip(c))
  {
    MiddleNormalized(c, LeadingSpaces(c), Strip(c));
  }

  /** A middle slice of a single-spaced string with no whitespace at its edges is normalized. */
  lemma MiddleNormalized(c: string, lead: nat, r: string)
    requires SingleSpaced(c) && lead + |r| <= |c| && r == c[lead..lead + |r|]
    requires r == [] || (!IsSpace(r[0]) && !IsSpace(r[|r| - 1]))
    ensures Normalized(r)
  {
    var d := c[lead..];
    DropSingleSpaced(c, lead);
    TakeSingleSpaced(d, |r|);
    SliceOfSlice(c, lead, |r|);
  }

  /** `sanitize_text` on a string argument: collapse the whitespace runs, then `strip()`. */
  function Sanitize(s: string): (r: string)
    ensures Normalized(r)
    ensures |r| <= |s|
  {
    var c := CollapseSpace(s);
    StripNormalizes(c);
    Strip(c)
  }

  /**
   * `sanitize_text(text)`: falsy input (`None` or `""`) gives `""`; anything
   * else is sanitized. The result is normalized and never longer than the input.
   */
  function SanitizeText(text: Option<string>): (r: string)
    ensures text == None || text == Some("") ==> r == ""
    ensures Normalized(r)
    ensures text.Some? ==> |r| <= |text.value|
  {
    if text == None || text.value == "" then "" else Sanitize(text.value)
  }

  /**
   * `sanitize_text` is `" ".join(s.split())`: the runs of non-whitespace,
   * in order, with exactly one plain space between neighbours and nothing at
   * the ends.
   */
  lemma SanitizeIsSplitJoin(text: Option<string>)
    ensures text.Some? ==> SanitizeText(text) == Join(" ", Split(text.value))
  {
    if text.Some? && text.value != "" {
      SanitizeSplitJoin(text.value);
    }
  }

  /**
   * Any whitespace run between two words becomes exactly one plain space:
   * `sanitize_text("a\tb")` is `"a b"`, the whitespace is not deleted.
   */
  lemma SpaceBetweenWords(a: string, g: string, b: string)
    requires Solid(a) && Solid(b) && g != [] && AllSpace(g)
    ensures SanitizeText(Some(a + g + b)) == a + " " + b
  {
    SplitTwoWords(a, g, b);
    SanitizeIsSplitJoin(Some(a + g + b));
    JoinCons(" ", a, [b]);
    assert [a] + [b] == [a, b];
  }

  /** Two words around a whitespace run split into exactly those two words. */
  lemma SplitTwoWords(a: string, g: string, b: string)
    requires Solid(a) && Solid(b) && g != [] && AllSpace(g)
    ensures Split(a + g + b) == [a, b]
  {
    SplitAfterGap(g, b);
    SplitWordThen(a, g + b, [b]);
    Assoc(a, g, b);
  }

  /** A word, then text starting with whitespace: the word heads the split. */
  lemma SplitWordThen(w: string, rest: string, parts: seq<string>)
    requires Solid(w) && rest != [] && IsSpace(rest[0]) && Split(rest) == parts
    ensures Split(w + rest) == [w] + parts
  {
    SplitWordConcat(w, rest);
  }

  /** A whitespace run then a word: the split is that word alone. */
  lemma SplitAfterGap(g: string, b: string)
    requires Solid(b) && AllSpace(g)
    ensures Split(g + b) == [b]
  {
    LeadingPadded(g, b);
    assert TrimLeft(g + b) == b;
    SplitTrimLeft(g + b);
    SplitOne(b);
  }

  /** A single word splits into itself. */
  lemma SplitOne(b: string)
    requires Solid(b)
    ensures Split(b) == [b]
  {
    SplitWordConcat(b, []);
    assert b + [] == b;
    assert Split([]) == [];
  }

  lemma SanitizeSplitJoin(s: string)
    ensures Sanitize(s) == Join(" ", Split(s))
  {
    var u := TrimLeft(s);
    SplitTrimLeft(s);
    CollapseTrimmed(u);
    CollapseLead(s);
    TrimmedBlank(u);
    SpaceMarks(s, u);
    StripFramed(LeadingSpace(s), Split(u), TrailingSpace(u));
  }

  lemma SpaceMarks(s: string, u: string)
    ensures AllSpace(LeadingSpace(s)) && AllSpace(TrailingSpace(u))
  {
    assert IsSpace(" "[0]);
  }

  /** `" "` when `s` starts with whitespace: where the collapse of `s` starts with a space. */
  function LeadingSpace(s: string): string {
    if s != [] && IsSpace(s[0]) then " " else ""
  }

  /** The collapse of `s` is its leading space, if any, then the collapse of the rest. */
  lemma CollapseLead(s: string)
    ensures CollapseSpace(s) == LeadingSpace(s) + CollapseSpace(TrimLeft(s))
  {
    if LeadingSpace(s) == "" {
      assert LeadingSpaces(s) == 0;
      assert TrimLeft(s) == s;
    }
  }

  /** A string without leading whitespace and without words is empty. */
  lemma TrimmedBlank(u: string)
    requires u == [] || !IsSpace(u[0])
    ensures Split(u) == [] ==> TrailingSpace(u) == []
  {
  }

  /** `strip()` removes the whitespace around joined words, and nothing else. */
  lemma StripFramed(a: string, parts: seq<string>, b: string)
    requires AllSpace(a) && AllSpace(b) && (forall k :: 0 <= k < |parts| ==> Solid(parts[k]))
    requires parts == [] ==> b == []
    ensures Strip(a + (Join(" ", parts) + b)) == Join(" ", parts)
  {
    if parts != [] {
      JoinEdges(" ", parts);
    }
    StripCore(a, Join(" ", parts), b);
  }

  /** `" "` when `t` ends with whitespace: where the collapse of `t` ends with a space. */
  function TrailingSpace(t: string): string {
    if t != [] && IsSpace(t[|t| - 1]) then " " else ""
  }

  /** A run of non-whitespace passes through the collapse unchanged. */
  lemma {:induction false} CollapseWord(w: string, x: string)
    requires forall i :: 0 <= i < |w| ==> !IsSpace(w[i])
    ensures CollapseSpace(w + x) == w + CollapseSpace(x)
  {
    if w == [] {
      assert w + x == x;
    } else {
      var s := w + x;
      assert s[0] == w[0] && s[1..] == w[1..] + x;
      CollapseWord(w[1..], x);
      ConsThenConcat(CollapseSpace(s), w[0], CollapseSpace(s[1..]), w[1..], CollapseSpace(x), w);
    }
  }

  /**
   * The collapse of a string without leading whitespace: its words joined
   * by single spaces, then one space if it ends with whitespace.
   */
  lemma {:induction false} CollapseTrimmed(t: string)
    requires t == [] || !IsSpace(t[0])
    ensures CollapseSpace(t) == Join(" ", Split(t)) + TrailingSpace(t)
    decreases |t|, 2
  {
    if t != [] {
      var n := WordLength(t);
      assert t == t[..n] + t[n..];
      CollapseWords(t[..n], t[n..]);
    }
  }

  /** `CollapseTrimmed` for a string given as its first word and the rest. */
  lemma {:induction false} CollapseWords(w: string, rest: string)
    requires Solid(w) && (rest == [] || IsSpace(rest[0]))
    ensures CollapseSpace(w + rest) == Join(" ", Split(w + rest)) + TrailingSpace(w + rest)
    decreases |w| + |rest|, 1
  {
    SplitWordConcat(w, rest);
    CollapseWord(w, rest);
    if rest == [] {
      CollapseLastWord(w + rest, w, rest);
    } else if !Gap(rest) {
      CollapseLastGap(w + rest, w, rest);
    } else {
      CollapseWordsGap(w, rest);
    }
  }

  /** A word, a whitespace run, then more words: one space stands between the word and the rest. */
  lemma {:induction false} CollapseWordsGap(w: string, rest: string)
    requires Solid(w) && Gap(rest)
    requires Split(w + rest) == [w] + Split(rest) && CollapseSpace(w + rest) == w + CollapseSpace(rest)
    ensures CollapseSpace(w + rest) == Join(" ", Split(w + rest)) + TrailingSpace(w + rest)
    decreases |w| + |rest|, 0
  {
    var u := TrimLeft(rest);
    CollapseTrimmed(u);
    GapSplit(w, rest);
    CollapseAfterGap(rest);
    GapTrailing(w, rest);
    GapStep(CollapseSpace(w + rest), w, CollapseSpace(rest), CollapseSpace(u), Join(" ", Split(u)),
            TrailingSpace(u), Join(" ", Split(w + rest)), TrailingSpace(w + rest));
  }

  /** `s` starts with whitespace and has more than whitespace. */
  predicate Gap(s: string) {
    s != [] && IsSpace(s[0]) && TrimLeft(s) != []
  }

  /** After a gap the split goes on with the words of the rest, one separator after `w`. */
  lemma GapSplit(w: string, rest: string)
    requires Gap(rest) && Split(w + rest) == [w] + Split(rest)
    ensures Split(TrimLeft(rest)) != []
    ensures Join(" ", Split(w + rest)) == w + (" " + Join(" ", Split(TrimLeft(rest))))
  {
    var u := TrimLeft(rest);
    SplitTrimLeft(rest);
    assert !AllSpace(u) by { assert !IsSpace(u[0]); }
    assert Split(w + rest) == [w] + Split(u);
    JoinCons(" ", w, Split(u));
  }

  /** `w + rest` ends with whitespace exactly when the rest after its gap does. */
  lemma GapTrailing(w: string, rest: string)
    requires Gap(rest)
    ensures TrailingSpace(w + rest) == TrailingSpace(TrimLeft(rest))
  {
    var t, u := w + rest, TrimLeft(rest);
    assert t[|t| - 1] == rest[|rest| - 1] == u[|u| - 1];
  }

  /** The string is one word. */
  lemma CollapseLastWord(t: string, w: string, rest: string)
    requires t == w + rest && rest == [] && w != [] && !IsSpace(w[|w| - 1])
    requires Split(t) == [w] + Split(rest) && CollapseSpace(t) == w + CollapseSpace(rest)
    ensures CollapseSpace(t) == Join(" ", Split(t)) + TrailingSpace(t)
  {
    assert Split(rest) == [];
    assert Split(t) == [w];
  }

  /** The string is one word and a whitespace run. */
  lemma CollapseLastGap(t: string, w: string, rest: string)
    requires t == w + rest && rest != [] && IsSpace(rest[0]) && TrimLeft(rest) == []
    requires Split(t) == [w] + Split(rest) && CollapseSpace(t) == w + CollapseSpace(rest)
    ensures CollapseSpace(t) == Join(" ", Split(t)) + TrailingSpace(t)
  {
    assert AllSpace(rest) by { assert rest[..|rest|] == rest; }
    assert Split(rest) == [];
    assert Split(t) == [w];
    assert t[|t| - 1] == rest[|rest| - 1];
  }

  /** A whitespace run at the front collapses to one space. */
  lemma CollapseAfterGap(s: string)
    requires s != [] && IsSpace(s[0])
    ensures CollapseSpace(s) == " " + CollapseSpace(TrimLeft(s))
  {
  }

  /** The string algebra of `CollapseWordsGap`: word, one space, then the collapse of the rest. */
  lemma GapStep(x: string, w: string, c: string, cu: string, j: string, tr: string, jt: string, trt: string)
    requires x == w + c && c == " " + cu && cu == j + tr && jt == w + (" " + j) && trt == tr
    ensures x == jt + trt
  {
  }

  /** Removing the non-whitespace characters distributes over concatenation. */
  lemma {:induction false} RemoveSpacesConcat(a: string, b: string)
    ensures RemoveSpaces(a + b) == RemoveSpaces(a) + RemoveSpaces(b)
  {
    if a != [] {
      var h := if IsSpace(a[0]) then [] else [a[0]];
      assert (a + b)[0] == a[0];
      assert (a + b)[1..] == a[1..] + b;
      RemoveSpacesConcat(a[1..], b);
      calc {
        RemoveSpaces(a + b);
        h + RemoveSpaces(a[1..] + b);
        h + (RemoveSpaces(a[1..]) + RemoveSpaces(b));
        (h + RemoveSpaces(a[1..])) + RemoveSpaces(b);
      }
    } else {
      assert a + b == b;
    }
  }

  /** A run of whitespace has no non-whitespace characters. */
  lemma {:induction false} RemoveSpacesOfBlank(s: string)
    requires AllSpace(s)
    ensures RemoveSpaces(s) == []
  {
    if s != [] {
      RemoveSpacesOfBlank(s[1..]);
    }
  }

  /** Collapsing whitespace runs leaves every other character in place and in order. */
  lemma {:induction false} CollapseKeepsText(s: string)
    ensures RemoveSpaces(CollapseSpace(s)) == RemoveSpaces(s)
    decreases |s|
  {
    if s != [] {
      if IsSpace(s[0]) {
        var t := TrimLeft(s);
        CollapseKeepsText(t);
        var lead := s[..|s| - |t|];
        assert s == lead + t;
        RemoveSpacesConcat(lead, t);
        RemoveSpacesOfBlank(lead);
        assert CollapseSpace(s) == [' '] + CollapseSpace(t);
        RemoveSpacesConcat([' '], CollapseSpace(t));
      } else {
        CollapseKeepsText(s[1..]);
        assert CollapseSpace(s) == [s[0]] + CollapseSpace(s[1..]);
        RemoveSpacesConcat([s[0]], CollapseSpace(s[1..]));
      }
    }
  }

  /** `strip()` only removes whitespace. */
  lemma StripKeepsText(s: string)
    ensures RemoveSpaces(Strip(s)) == RemoveSpaces(s)
  {
    MiddleKeepsText(s, LeadingSpaces(s), Strip(s));
  }

  /** A slice with only whitespace around it has all the non-whitespace characters. */
  lemma MiddleKeepsText(s: string, lead: nat, r: string)
    requires lead + |r| <= |s| && r == s[lead..lead + |r|]
    requires AllSpace(s[..lead]) && AllSpace(s[lead + |r|..])
    ensures RemoveSpaces(r) == RemoveSpaces(s)
  {
    var front, back := s[..lead], s[lead + |r|..];
    SplitAround(s, lead, lead + |r|);
    assert s == front + (r + back);
    RemoveSpacesOfBlank(front);
    RemoveSpacesOfBlank(back);
    calc {
      RemoveSpaces(s);
      { RemoveSpacesConcat(front, r + back); }
      RemoveSpaces(front) + RemoveSpaces(r + back);
      { assert RemoveSpaces(front) == []; }
      RemoveSpaces(r + back);
      { RemoveSpacesConcat(r, back); }
      RemoveSpaces(r) + RemoveSpaces(back);
      { assert RemoveSpaces(back) == []; }
      RemoveSpaces(r);
    }
  }

  lemma SplitAround(s: string, a: nat, b: nat)
    requires a <= b <= |s|
    ensures s == s[..a] + (s[a..b] + s[b..])
  {
  }

  /**
   * `sanitize_text` keeps every non-whitespace character of its input, in
   * order: deleting the whitespace of the input and of the output gives the
   * same string.
   */
  lemma SanitizeKeepsText(s: string)
    ensures RemoveSpaces(SanitizeText(Some(s))) == RemoveSpaces(s)
  {
    if s != "" {
      CollapseKeepsText(s);
      StripKeepsText(CollapseSpace(s));
    }
  }

  /** A single-spaced string is left alone by the collapse. */
  lemma {:induction false} CollapseFixes(t: string)
    requires SingleSpaced(t)
    ensures CollapseSpace(t) == t
    decreases |t|
  {
    if t != [] {
      var tail := t[1..];
      CollapseFixes(tail);
      if IsSpace(t[0]) {
        assert tail == [] || !IsSpace(tail[0]);
        assert TrimLeft(tail) == tail;
        assert TrimLeft(t) == tail;
        assert CollapseSpace(t) == " " + tail;
      } else {
        assert CollapseSpace(t) == [t[0]] + tail;
      }
    }
  }

  /** A normalized string is its own sanitization. */
  lemma NormalizedFixes(t: string)
    requires Normalized(t)
    ensures SanitizeText(Some(t)) == t
  {
    if t != "" {
      CollapseFixes(t);
      StripFixes(t);
    }
  }

  /** `sanitize_text` is idempotent. */
  lemma SanitizeIdempotent(text: Option<string>)
    ensures SanitizeText(Some(SanitizeText(text))) == SanitizeText(text)
  {
    NormalizedFixes(SanitizeText(text));
  }

  // ---------------------------------------------------------------------------
  // simple_moderation_filter
  // ---------------------------------------------------------------------------

  /** The words redacted, in the order they are applied. */
  const Blacklist: seq<string> := ["password", "ssn", "secret"]

  /** What each occurrence of a blacklisted word becomes. */
  const Redaction: string := "[REDACTED]"

  /** ASCII lower-casing: the folding `re.IGNORECASE` applies to the blacklist's letters. */
  function Lower(c: char): char {
    if 'A' <= c <= 'Z' then (c as int + 32) as char else c
  }

  /**
   * Two characters are equal under `Lower` exactly when they are the same
   * character or the same ASCII letter in the two cases.
   */
  lemma LowerMeaning(c: char, d: char)
    ensures Lower(c) == Lower(d) <==>
      c == d || ('A' <= c <= 'Z' && d as int == c as int + 32) || ('A' <= d <= 'Z' && c as int == d as int + 32)
  {
  }

  /** `w` occurs at position `i` of `s`, ignoring case. */
  predicate MatchesAt(s: string, i: nat, w: string) {
    i + |w| <= |s| && forall k :: 0 <= k < |w| ==> Lower(s[i + k]) == Lower(w[k])
  }

  /** `re.search(re.escape(w), s, re.IGNORECASE)` finds something. */
  predicate ContainsCI(s: string, w: string) {
    exists i: nat | i <= |s| :: MatchesAt(s, i, w)
  }

  /**
   * `re.sub(re.escape(w), "[REDACTED]", s, flags=re.IGNORECASE)`: the scan
   * goes left to right; where `w` matches, the match is replaced and the scan
   * resumes after it, so occurrences are leftmost and non-overlapping.
   */
  function Redact(s: string, w: string): string
    requires w != []
    decreases |s|
  {
    if s == [] then []
    else if MatchesAt(s, 0, w) then Redaction + Redact(s[|w|..], w)
    else [s[0]] + Redact(s[1..], w)
  }

  /** `simple_moderation_filter` after its loop has processed `words`: each word redacted in turn. */
  function RedactAll(s: string, words: seq<string>): string
    requires forall k :: 0 <= k < |words| ==> words[k] != []
  {
    if words == [] then s
    else Redact(RedactAll(s, words[..|words| - 1]), words[|words| - 1])
  }

  /** The blacklist filter as a function of the text. */
  function ModerationFilter(text: string): string {
    RedactAll(text, Blacklist)
  }

  /**
   * `simple_moderation_filter(text)`: the loop over the blacklist. The result
   * contains no blacklisted word in any letter case, and equals the input
   * exactly when the input contained none.
   */
  method SimpleModerationFilter(text: string) returns (out: string)
    ensures out == ModerationFilter(text)
    ensures forall k :: 0 <= k < |Blacklist| ==> !ContainsCI(out, Blacklist[k])
    ensures out == text <==> forall k :: 0 <= k < |Blacklist| ==> !ContainsCI(text, Blacklist[k])
  {
    out := text;
    for i := 0 to |Blacklist|
      invariant out == RedactAll(text, Blacklist[..i])
    {
      assert Blacklist[..i + 1][..i] == Blacklist[..i];
      out := Redact(out, Blacklist[i]);
    }
    assert Blacklist[..|Blacklist|] == Blacklist;
    ModerationClean(text);
    ModerationUnchanged(text);
  }

  /** A blacklist-style word: non-empty ASCII letters, whose first letter does not occur in "[redacted]". */
  predicate Word(w: string) {
    w != [] && Letters(w)
    && (forall k :: 0 <= k < |Redaction| ==> Lower(Redaction[k]) != Lower(w[0]))
  }

  /** Every character of `w` is an ASCII letter. */
  predicate Letters(w: string) {
    forall k :: 0 <= k < |w| ==> 'a' <= Lower(w[k]) <= 'z'
  }

  lemma BlacklistWords()
    ensures forall k :: 0 <= k < |Blacklist| ==> Word(Blacklist[k])
  {
  }

  /** An occurrence at `j + i` is an occurrence at `i` of the suffix from `j`, and back. */
  lemma ShiftMatch(s: string, j: nat, i: nat, w: string)
    requires j <= |s|
    ensures MatchesAt(s, j + i, w) <==> MatchesAt(s[j..], i, w)
  {
    if j + i + |w| <= |s| {
      forall k | 0 <= k < |w| ensures (Lower(s[j..][i + k]) == Lower(w[k])) == (Lower(s[j + i + k]) == Lower(w[k])) {
        assert s[j..][i + k] == s[j + i + k];
      }
    }
  }

  /** A match at the start is a match of the first character and a match of the rest. */
  lemma MatchesAtCons(s: string, w: string)
    requires s != [] && w != []
    ensures MatchesAt(s, 0, w) <==> Lower(s[0]) == Lower(w[0]) && MatchesAt(s[1..], 0, w[1..])
  {
    if |w| <= |s| {
      forall k | 0 <= k < |w| - 1 ensures s[1..][k] == s[k + 1] && w[1..][k] == w[k + 1] {
      }
    }
  }

  /** A suffix of a string without an occurrence of `w` has none either. */
  lemma SuffixClean(s: string, j: nat, w: string)
    requires j <= |s| && !ContainsCI(s, w)
    ensures !ContainsCI(s[j..], w)
  {
    forall i: nat | i <= |s[j..]| ensures !MatchesAt(s[j..], i, w) {
      ShiftMatch(s, j, i, w);
    }
  }

  /** Text without an occurrence of `w` passes through `Redact` unchanged. */
  lemma {:induction false} RedactUnchanged(s: string, w: string)
    requires w != [] && !ContainsCI(s, w)
    ensures Redact(s, w) == s
    decreases |s|
  {
    if s != [] {
      assert !MatchesAt(s, 0, w);
      SuffixClean(s, 1, w);
      RedactUnchanged(s[1..], w);
    }
  }

  /** A character that cannot begin `w` is copied to the output as it is. */
  lemma CopyStep(s: string, w: string)
    requires s != [] && w != [] && Lower(s[0]) != Lower(w[0])
    ensures Redact(s, w) == [s[0]] + Redact(s[1..], w)
  {
    assert !MatchesAt(s, 0, w) by { assert Lower(s[0 + 0]) != Lower(w[0]); }
  }

  /** A prefix none of whose characters can begin `w` passes through unchanged, and the scan resumes after it. */
  lemma {:induction false} CopyPrefix(p: string, t: string, w: string)
    requires w != []
    requires forall i :: 0 <= i < |p| ==> Lower(p[i]) != Lower(w[0])
    ensures Redact(p + t, w) == p + Redact(t, w)
  {
    if p == [] {
      assert p + t == t;
    } else {
      var q := p[1..];
      assert forall i :: 0 <= i < |q| ==> Lower(q[i]) != Lower(w[0]) by {
        assert forall i :: 0 <= i < |q| ==> q[i] == p[i + 1];
      }
      CopyPrefix(q, t, w);
      CopyHead(p, t, w);
    }
  }

  /** One step of `CopyPrefix`: the head of `p` is copied and the rest of `p` follows. */
  lemma CopyHead(p: string, t: string, w: string)
    requires p != [] && w != [] && Lower(p[0]) != Lower(w[0])
    requires Redact(p[1..] + t, w) == p[1..] + Redact(t, w)
    ensures Redact(p + t, w) == p + Redact(t, w)
  {
    var s := p + t;
    assert s[0] == p[0] && s[1..] == p[1..] + t;
    CopyStep(s, w);
    ConsThenConcat(Redact(s, w), p[0], Redact(s[1..], w), p[1..], Redact(t, w), p);
  }

  lemma ConsThenConcat(x: string, c: char, y: string, q: string, r: string, p: string)
    requires x == [c] + y && y == q + r && p != [] && p[0] == c && p[1..] == q
    ensures x == p + r
  {
    assert p == [c] + q;
  }

  /**
   * The leftmost occurrence is the one replaced: everything before it is
   * copied, the occurrence becomes "[REDACTED]", and the scan resumes after
   * it. An earlier overlapping near-match does not hide a later occurrence
   * ("sssn" with the word "ssn" becomes "s[REDACTED]").
   */
  lemma {:induction false} RedactFirst(s: string, w: string, i: nat)
    requires w != [] && MatchesAt(s, i, w)
    requires forall j :: 0 <= j < i ==> !MatchesAt(s, j, w)
    ensures Redact(s, w) == s[..i] + Redaction + Redact(s[i + |w|..], w)
  {
    if i == 0 {
      assert s[..0] == [];
    } else {
      assert !MatchesAt(s, 0, w);
      var t := s[1..];
      ShiftFirst(s, w, i);
      RedactFirst(t, w, i - 1);
      SkipNonMatch(s, w);
      PrefixHead(s, i);
      RedactFirstStep(Redact(s, w), s[0], Redact(t, w), t[..i - 1], Redact(t[i - 1 + |w|..], w), s[..i]);
      assert t[i - 1 + |w|..] == s[i + |w|..];
    }
  }

  /** The leftmost occurrence at `i` is the leftmost occurrence at `i - 1` of the rest after the first character. */
  lemma ShiftFirst(s: string, w: string, i: nat)
    requires 0 < i && MatchesAt(s, i, w)
    requires forall j :: 0 <= j < i ==> !MatchesAt(s, j, w)
    ensures MatchesAt(s[1..], i - 1, w)
    ensures forall j :: 0 <= j < i - 1 ==> !MatchesAt(s[1..], j, w)
  {
    ShiftMatch(s, 1, i - 1, w);
    forall j | 0 <= j < i - 1 ensures !MatchesAt(s[1..], j, w) {
      ShiftMatch(s, 1, j, w);
    }
  }

  /** A near-match overlapping the occurrence does not hide it: "sssn" with the word "ssn" becomes "s[REDACTED]". */
  lemma OverlapExample()
    ensures Redact("sssn", "ssn") == "s[REDACTED]"
  {
    var s, w := "sssn", "ssn";
    assert Lower(s[0 + 2]) != Lower(w[2]);
    assert MatchesAt(s, 1, w);
    RedactFirst(s, w, 1);
    assert s[1 + |w|..] == [];
  }

  /** A character where `w` does not start is copied, and the scan goes on from the next one. */
  lemma SkipNonMatch(s: string, w: string)
    requires s != [] && w != [] && !MatchesAt(s, 0, w)
    ensures Redact(s, w) == [s[0]] + Redact(s[1..], w)
  {
  }

  lemma PrefixHead(s: string, i: nat)
    requires 0 < i <= |s|
    ensures s[..i] != [] && s[..i][0] == s[0] && s[..i][1..] == s[1..][..i - 1]
  {
  }

  /** One step of `RedactFirst`: the character before the occurrence is copied. */
  lemma RedactFirstStep(x: string, c: char, y: string, q: string, r: string, p: string)
    requires x == [c] + y && y == q + Redaction + r && p != [] && p[0] == c && p[1..] == q
    ensures x == p + Redaction + r
  {
    Assoc(q, Redaction, r);
    ConsThenConcat(x, c, y, q, Redaction + r, p);
    Assoc(p, Redaction, r);
  }

  /**
   * The pattern has no word boundaries: `w` is redacted even in the middle of
   * a longer word (the "ssn" of "classnote" becomes "cla[REDACTED]ote").
   */
  lemma InsideWord(p: string, w: string, t: string)
    requires w != []
    requires forall i :: 0 <= i < |p| ==> Lower(p[i]) != Lower(w[0])
    ensures Redact(p + w + t, w) == p + Redaction + Redact(t, w)
  {
    assert p + w + t == p + (w + t);
    CopyPrefix(p, w + t, w);
    assert MatchesAt(w + t, 0, w);
    assert (w + t)[|w|..] == t;
  }

  /** The "ssn" inside "classnote" is redacted: the result is "cla[REDACTED]ote". */
  lemma ClassnoteExample()
    ensures Redact("classnote", "ssn") == "cla" + "[REDACTED]" + "ote"
  {
    var p, w, t := "cla", "ssn", "ote";
    assert "classnote" == p + w + t;
    InsideWord(p, w, t);
    CopyPrefix(t, [], w);
    assert t + [] == t;
  }

  /**
   * `Redact` never creates a match at the start of its output: a word made of
   * letters that does not start `s` does not start `Redact(s, w)`, since the
   * output begins either with the input's first character or with a '['.
   */
  lemma {:induction false} NoMatchAtStart(s: string, w: string, v: string)
    requires w != [] && v != [] && Letters(v) && !MatchesAt(s, 0, v)
    ensures !MatchesAt(Redact(s, w), 0, v)
    decreases |s|
  {
    var t := Redact(s, w);
    if s != [] && |v| <= |t| {
      if MatchesAt(s, 0, w) {
        assert t[0] == '[';
        assert Lower(t[0]) != Lower(v[0]);
      } else {
        assert t == [s[0]] + Redact(s[1..], w);
        MatchesAtCons(s, v);
        MatchesAtCons(t, v);
        if |v| > 1 && Lower(s[0]) == Lower(v[0]) {
          assert v[1..] != [] && Letters(v[1..]);
          NoMatchAtStart(s[1..], w, v[1..]);
          assert t[1..] == Redact(s[1..], w);
        }
      }
    }
  }

  /**
   * After `Redact(s, w)` the output has no occurrence of `w`, and a word `v`
   * that did not occur in `s` does not occur in the output either: the
   * replacement is bracketed and shares no letter with the start of `v`.
   */
  lemma {:induction false} RedactClean(s: string, w: string, v: string)
    requires Word(w) && Word(v)
    requires v == w || !ContainsCI(s, v)
    ensures !ContainsCI(Redact(s, w), v)
    decreases |s|
  {
    if s != [] {
      if MatchesAt(s, 0, w) {
        if v != w { SuffixClean(s, |w|, v); }
        RedactClean(s[|w|..], w, v);
        CleanAfterRedaction(Redact(s[|w|..], w), v);
      } else {
        if v != w { SuffixClean(s, 1, v); }
        RedactClean(s[1..], w, v);
        CleanAfterCopy(s, w, v);
      }
    }
  }

  /** No occurrence of `v` starts inside the replacement text. */
  lemma CleanAfterRedaction(rest: string, v: string)
    requires Word(v) && !ContainsCI(rest, v)
    ensures !ContainsCI(Redaction + rest, v)
  {
    var t := Redaction + rest;
    forall i: nat | i <= |t| ensures !MatchesAt(t, i, v) {
      if i < |Redaction| {
        assert t[i] == Redaction[i];
        assert Lower(t[i + 0]) != Lower(v[0]);
      } else {
        ShiftMatch(t, |Redaction|, i - |Redaction|, v);
        assert t[|Redaction|..] == rest;
      }
    }
  }

  /** When the first character is copied, an occurrence of `v` in the output lies in the copied tail. */
  lemma CleanAfterCopy(s: string, w: string, v: string)
    requires Word(w) && Word(v) && s != [] && !MatchesAt(s, 0, w)
    requires !MatchesAt(s, 0, v) && !ContainsCI(Redact(s[1..], w), v)
    ensures !ContainsCI(Redact(s, w), v)
  {
    NoMatchAtStart(s, w, v);
    CleanCons(Redact(s, w), Redact(s[1..], w), v);
  }

  /** A string whose tail after the first character has no occurrence of `v` has none at all, unless one starts at its head. */
  lemma CleanCons(t: string, rest: string, v: string)
    requires t != [] && t[1..] == rest && v != []
    requires !MatchesAt(t, 0, v) && !ContainsCI(rest, v)
    ensures !ContainsCI(t, v)
  {
    forall i: nat | 0 < i <= |t| ensures !MatchesAt(t, i, v) {
      ShiftMatch(t, 1, i - 1, v);
    }
  }

  /** The loop applies the blacklist in order: "password", then "ssn", then "secret". */
  lemma ModerationOrder(text: string)
    ensures ModerationFilter(text) == Redact(Redact(Redact(text, "password"), "ssn"), "secret")
  {
    var w1, w2 := Blacklist[..1], Blacklist[..2];
    assert w1[..0] == [];
    assert RedactAll(text, w1) == Redact(text, "password");
    assert w2[..1] == w1;
    assert RedactAll(text, w2) == Redact(Redact(text, "password"), "ssn");
    assert Blacklist[..2] == w2;
  }

  /** After the filter, no blacklisted word occurs in the text, in any letter case. */
  lemma ModerationClean(text: string)
    ensures forall k :: 0 <= k < |Blacklist| ==> !ContainsCI(ModerationFilter(text), Blacklist[k])
  {
    BlacklistWords();
    var (p, n, c) := (Blacklist[0], Blacklist[1], Blacklist[2]);
    var s1 := Redact(text, p);
    var s2 := Redact(s1, n);
    ModerationOrder(text);
    RedactClean(text, p, p);
    RedactClean(s1, n, n);
    RedactClean(s1, n, p);
    RedactClean(s2, c, c);
    RedactClean(s2, c, n);
    RedactClean(s2, c, p);
  }

  /** The filter leaves text unchanged exactly when it holds no blacklisted word. */
  lemma ModerationUnchanged(text: string)
    ensures ModerationFilter(text) == text
        <==> forall k :: 0 <= k < |Blacklist| ==> !ContainsCI(text, Blacklist[k])
  {
    var (p, n, c) := (Blacklist[0], Blacklist[1], Blacklist[2]);
    ModerationOrder(text);
    if forall k :: 0 <= k < |Blacklist| ==> !ContainsCI(text, Blacklist[k]) {
      assert !ContainsCI(text, p) && !ContainsCI(text, n) && !ContainsCI(text, c);
      RedactUnchanged(text, p);
      RedactUnchanged(text, n);
      RedactUnchanged(text, c);
    }
    ModerationClean(text);
  }

  /** Filtering twice is filtering once. */
  lemma ModerationIdempotent(text: string)
    ensures ModerationFilter(ModerationFilter(text)) == ModerationFilter(text)
  {
    ModerationClean(text);
    ModerationUnchanged(ModerationFilter(text));
  }
}
