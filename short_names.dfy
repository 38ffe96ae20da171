/**
 * `GetShortNameFromMapping`: group 1 of the leftmost match of the fixed pattern
 *     \([a-zA-Z\-]*\, ([a-zA-Z0-9\,\s]*)\)
 * in a mapping string, or "" when nothing matches.
 *
 * The prefix class has no ',' and the group class has no ')', so at a given start
 * position the greedy match is the only one: the prefix is the longest run of prefix
 * characters and the group the longest run of group characters. The scanner below
 * does exactly that; `IsOccurrence` is the pattern's own meaning, independent of any
 * matching strategy.
 */
module ShortNames {
  import opened Wrappers

  predicate IsAsciiLetter(c: char)
  {
    'a' <= c <= 'z' || 'A' <= c <= 'Z'
  }

  /** `[a-zA-Z\-]` */
  predicate IsPrefixChar(c: char)
  {
    IsAsciiLetter(c) || c == '-'
  }

  /** .NET's `\s`: [\f\n\r\t\v\x85] and the Unicode separators (categories Zs, Zl, Zp). */
  predicate IsRegexSpace(c: char)
  {
    || c == ' ' || c == '\t' || c == '\n' || c == '\r' || c == '\U{000B}' || c == '\U{000C}'
    || c == '\U{0085}' || c == '\U{00A0}' || c == '\U{1680}' || '\U{2000}' <= c <= '\U{200A}'
    || c == '\U{2028}' || c == '\U{2029}' || c == '\U{202F}' || c == '\U{205F}' || c == '\U{3000}'
  }

  /** `[a-zA-Z0-9\,\s]` */
  predicate IsGroupChar(c: char)
  {
    IsAsciiLetter(c) || '0' <= c <= '9' || c == ',' || IsRegexSpace(c)
  }

  /**
   * A place where the pattern matches: '(' at `open`, prefix characters up to the
   * ',' at `comma`, a space, group characters up to the ')' at `close`.
   */
  datatype Occurrence = Occurrence(open: nat, comma: nat, close: nat)

  predicate IsOccurrence(s: string, m: Occurrence)
  {
    && m.open < m.comma && m.comma + 2 <= m.close < |s|
    && s[m.open] == '('
    && (forall k :: m.open < k < m.comma ==> IsPrefixChar(s[k]))
    && s[m.comma] == ',' && s[m.comma + 1] == ' '
    && (forall k :: m.comma + 2 <= k < m.close ==> IsGroupChar(s[k]))
    && s[m.close] == ')'
  }

  /** Capture group 1 of an occurrence. */
  function Group(s: string, m: Occurrence): string
    requires IsOccurrence(s, m)
  {
    s[m.comma + 2..m.close]
  }

  /** End of the longest run, starting at `i`, of characters of one class. */
  function SpanEnd(s: string, i: nat, inClass: char -> bool): (e: nat)
    requires i <= |s|
    ensures i <= e <= |s|
    ensures forall k :: i <= k < e ==> inClass(s[k])
    ensures e < |s| ==> !inClass(s[e])
    decreases |s| - i
  {
    if i < |s| && inClass(s[i]) then SpanEnd(s, i + 1, inClass) else i
  }

  /** The longest run is the only run that is followed by a character outside the class. */
  lemma SpanEndUnique(s: string, i: nat, j: nat, inClass: char -> bool)
    requires i <= j <= |s|
    requires forall k :: i <= k < j ==> inClass(s[k])
    requires j < |s| ==> !inClass(s[j])
    ensures SpanEnd(s, i, inClass) == j
  {
  }

  /** The greedy match attempt at position `k`. */
  function MatchAt(s: string, k: nat): (r: Option<Occurrence>)
    ensures r.Some? ==> IsOccurrence(s, r.value) && r.value.open == k
  {
    if k < |s| && s[k] == '(' then
      var comma := SpanEnd(s, k + 1, IsPrefixChar);
      if comma + 1 < |s| && s[comma] == ',' && s[comma + 1] == ' ' then
        var close := SpanEnd(s, comma + 2, IsGroupChar);
        if close < |s| && s[close] == ')' then Some(Occurrence(k, comma, close)) else None
      else None
    else None
  }

  /** Whenever the pattern matches at a position, the greedy attempt finds that very match. */
  lemma MatchAtComplete(s: string, m: Occurrence)
    requires IsOccurrence(s, m)
    ensures MatchAt(s, m.open) == Some(m)
  {
    SpanEndUnique(s, m.open + 1, m.comma, IsPrefixChar);
    SpanEndUnique(s, m.comma + 2, m.close, IsGroupChar);
  }

  /** A failed attempt at `k` means the pattern matches nowhere starting at `k`. */
  lemma MatchAtNone(s: string, k: nat)
    requires MatchAt(s, k).None?
    ensures forall m :: IsOccurrence(s, m) ==> m.open != k
  {
    forall m | IsOccurrence(s, m) ensures m.open != k {
      if m.open == k {
        MatchAtComplete(s, m);
      }
    }
  }

  /** The leftmost occurrence starting at or after `k`, scanning left to right. */
  function LeftmostFrom(s: string, k: nat): (r: Option<Occurrence>)
    requires k <= |s|
    ensures r.Some? ==> IsOccurrence(s, r.value) && k <= r.value.open
    ensures r.Some? ==> forall m :: IsOccurrence(s, m) && k <= m.open ==> r.value.open <= m.open
    ensures r.None? ==> forall m :: IsOccurrence(s, m) ==> m.open < k
    decreases |s| - k
  {
    if k == |s| then None
    else match MatchAt(s, k)
      case Some(m) => Some(m)
      case None => MatchAtNone(s, k); LeftmostFrom(s, k + 1)
  }

  /** `GetShortNameFromMapping` (Program.cs lines 133-136). */
  function ShortNameFromMapping(mapping: string): (r: string)
    ensures forall i :: 0 <= i < |r| ==> IsGroupChar(r[i])
  {
    match LeftmostFrom(mapping, 0)
    case Some(m) => Group(mapping, m)
    case None => ""
  }

  /** The result is group 1 of the leftmost occurrence of the pattern. */
  lemma ShortNameIsLeftmostGroup(s: string, m: Occurrence)
    requires IsOccurrence(s, m)
    requires forall m' :: IsOccurrence(s, m') ==> m.open <= m'.open
    ensures ShortNameFromMapping(s) == Group(s, m)
  {
    var r := LeftmostFrom(s, 0);
    assert r.Some?;
    assert r.value.open == m.open;
    MatchAtComplete(s, m);
    MatchAtComplete(s, r.value);
    assert r.value == m;
  }

  /** Without any occurrence the result is the empty string, not a failure. */
  lemma ShortNameNoMatch(s: string)
    requires forall m :: !IsOccurrence(s, m)
    ensures ShortNameFromMapping(s) == ""
  {
    assert LeftmostFrom(s, 0).None?;
  }

  /** A non-empty result always comes from an occurrence of the pattern. */
  lemma ShortNameNonEmpty(s: string)
    requires ShortNameFromMapping(s) != ""
    ensures exists m :: IsOccurrence(s, m) && Group(s, m) == ShortNameFromMapping(s)
  {
    var m := LeftmostFrom(s, 0).value;
    assert IsOccurrence(s, m) && Group(s, m) == ShortNameFromMapping(s);
  }

  /** A short name never holds '.', '/', '(' or ')': none of them is a group character. */
  lemma ShortNameHasNoPathCharacters(s: string)
    ensures '.' !in ShortNameFromMapping(s) && '/' !in ShortNameFromMapping(s)
    ensures ')' !in ShortNameFromMapping(s) && '(' !in ShortNameFromMapping(s)
  {
  }

  /** Moves an occurrence `d` characters to the right. */
  function Shift(m: Occurrence, d: nat): Occurrence
  {
    Occurrence(m.open + d, m.comma + d, m.close + d)
  }

  /** Occurrences in `q` and in `p + q` correspond, once past `p`. */
  lemma ShiftOccurrence(p: string, q: string, m: Occurrence)
    ensures IsOccurrence(q, m) <==> IsOccurrence(p + q, Shift(m, |p|))
  {
    var s := p + q;
    var d := |p|;
    if IsOccurrence(q, m) {
      forall k | m.open + d < k < m.comma + d ensures IsPrefixChar(s[k]) {
        assert s[k] == q[k - d];
      }
      forall k | m.comma + d + 2 <= k < m.close + d ensures IsGroupChar(s[k]) {
        assert s[k] == q[k - d];
      }
    }
    if IsOccurrence(s, Shift(m, d)) {
      forall k | m.open < k < m.comma ensures IsPrefixChar(q[k]) {
        assert s[k + d] == q[k];
      }
      forall k | m.comma + 2 <= k < m.close ensures IsGroupChar(q[k]) {
        assert s[k + d] == q[k];
      }
    }
  }

  /** A shifted occurrence captures the same group. */
  lemma ShiftGroup(p: string, q: string, m: Occurrence)
    requires IsOccurrence(q, m)
    ensures IsOccurrence(p + q, Shift(m, |p|))
    ensures Group(p + q, Shift(m, |p|)) == Group(q, m)
  {
    ShiftOccurrence(p, q, m);
    assert (p + q)[m.comma + 2 + |p|..m.close + |p|] == q[m.comma + 2..m.close];
  }

  /** An occurrence in `p + q`, with no '(' in `p`, lies wholly in `q`. */
  lemma OccurrencePastPrefix(p: string, q: string, m: Occurrence)
    requires '(' !in p
    requires IsOccurrence(p + q, m)
    ensures m.open >= |p|
    ensures IsOccurrence(q, Occurrence(m.open - |p|, m.comma - |p|, m.close - |p|))
  {
    ShiftOccurrence(p, q, Occurrence(m.open - |p|, m.comma - |p|, m.close - |p|));
  }

  /** With an occurrence in `q`, the leftmost one of `p + q` is its leftmost one, shifted. */
  lemma SkipLeadingTextMatch(p: string, q: string, m: Occurrence)
    requires '(' !in p
    requires IsOccurrence(q, m)
    requires forall m' :: IsOccurrence(q, m') ==> m.open <= m'.open
    ensures ShortNameFromMapping(p + q) == Group(q, m)
  {
    var s := p + q;
    var sm := Shift(m, |p|);
    ShiftGroup(p, q, m);
    forall m' | IsOccurrence(s, m') ensures sm.open <= m'.open {
      OccurrencePastPrefix(p, q, m');
    }
    ShortNameIsLeftmostGroup(s, sm);
  }

  /** Text before the first '(' never changes the short name. */
  lemma ShortNameSkipsLeadingText(p: string, q: string)
    requires '(' !in p
    ensures ShortNameFromMapping(p + q) == ShortNameFromMapping(q)
  {
    var r := LeftmostFrom(q, 0);
    if r.Some? {
      SkipLeadingTextMatch(p, q, r.value);
    } else {
      forall m' | IsOccurrence(p + q, m') ensures false {
        OccurrencePastPrefix(p, q, m');
      }
      ShortNameNoMatch(p + q);
    }
  }

  /** The display form `(<prefix>, <group>)` of a locale and a voice yields the voice. */
  lemma ShortNameOfPair(prefix: string, group: string)
    requires forall k :: 0 <= k < |prefix| ==> IsPrefixChar(prefix[k])
    requires forall k :: 0 <= k < |group| ==> IsGroupChar(group[k])
    ensures ShortNameFromMapping("(" + prefix + ", " + group + ")") == group
  {
    var s := "(" + prefix + ", " + group + ")";
    var n := |prefix|;
    var m := Occurrence(0, n + 1, n + 3 + |group|);
    forall k | 0 < k < n + 1 ensures IsPrefixChar(s[k]) {
      assert s[k] == prefix[k - 1];
    }
    forall k | n + 3 <= k < n + 3 + |group| ensures IsGroupChar(s[k]) {
      assert s[k] == group[k - n - 3];
    }
    assert s[n + 1] == ',' && s[n + 2] == ' ' && s[n + 3 + |group|] == ')';
    assert IsOccurrence(s, m);
    assert s[n + 3..n + 3 + |group|] == group;
    ShortNameIsLeftmostGroup(s, m);
  }

  /** Without a ',' followed by a space, nothing matches. */
  lemma ShortNameNeedsCommaSpace(s: string)
    requires forall k :: 0 <= k < |s| - 1 && s[k] == ',' ==> s[k + 1] != ' '
    ensures ShortNameFromMapping(s) == ""
  {
    forall m | IsOccurrence(s, m) ensures false {
    }
    ShortNameNoMatch(s);
  }

  /** The bare pattern: group 1 is the voice's short name. */
  lemma ExampleBare(prefix: string, group: string)
    requires prefix == "en-US" && group == "GuyNeural"
    ensures ShortNameFromMapping("(" + prefix + ", " + group + ")") == "GuyNeural"
  {
    assert forall k :: 0 <= k < |prefix| ==> IsPrefixChar(prefix[k]);
    assert forall k :: 0 <= k < |group| ==> IsGroupChar(group[k]);
    ShortNameOfPair(prefix, group);
  }

  /**
   * A mapping string of the configuration: the display name
   * "Microsoft Server Speech Text to Speech Voice " before the pattern, given word by word.
   */
  lemma ExampleDisplayName(display: string, prefix: string, group: string)
    requires display == "Microsoft " + "Server " + "Speech " + "Text " + "to " + "Speech " + "Voice "
    requires prefix == "en-US" && group == "GuyNeural"
    ensures ShortNameFromMapping(display + ("(" + prefix + ", " + group + ")")) == "GuyNeural"
  {
    assert '(' !in display;
    ShortNameSkipsLeadingText(display, "(" + prefix + ", " + group + ")");
    ExampleBare(prefix, group);
  }

  /** The separator must be a comma and one space; otherwise nothing matches. */
  lemma ExampleNoSpace(s: string)
    requires s == "(en-US,GuyNeural)"
    ensures ShortNameFromMapping(s) == ""
  {
    assert ' ' !in s;
    ShortNameNeedsCommaSpace(s);
  }
}
