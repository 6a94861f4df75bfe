/**
 * The subject normaliser of the classification script: the key under which a
 * message is catalogued is its subject with one leading "number - " prefix,
 * one leading reply/forward marker and a trailing ".msg" removed, then
 * stripped of surrounding whitespace.
 *
 * The two regular expressions of the script are written out as scanners.
 * Each scanner is specified against a declarative description of the text the
 * pattern matches (a "shape" predicate) together with the choice Python's
 * matcher makes among the possible matches: the longest one at the start for
 * the anchored alternatives (their quantifiers are greedy and the character
 * classes they chain are disjoint), and the leftmost one for the `\.msg$`
 * alternative (re.sub scans positions from left to right).
 */
module Subject {
  import opened Wrappers

  /**
   * Whitespace, for both the regular-expression class `\s` and `str.strip()`:
   * the ASCII characters `str.isspace` accepts, that is the space, tab, line
   * feed, vertical tab, form feed, carriage return and the four separators
   * U+001C to U+001F.
   */
  predicate IsSpace(c: char) {
    c == ' ' || '\t' <= c <= '\r' || '\U{1C}' <= c <= '\U{1F}'
  }

  /** A decimal digit, the class `\d`. */
  predicate IsDigit(c: char) {
    '0' <= c <= '9'
  }

  /**
   * The lower-case letter a character stands for under `re.IGNORECASE`:
   * ASCII letters fold to lower case, and LATIN SMALL LETTER LONG S matches `s`.
   */
  function Fold(c: char): char {
    if 'A' <= c <= 'Z' then (c as int + 32) as char
    else if c == '\U{17F}' then 's'
    else c
  }

  predicate AllSpaces(s: string, i: int, j: int)
    requires 0 <= i <= j <= |s|
  {
    forall k | i <= k < j :: IsSpace(s[k])
  }

  predicate AllDigits(s: string, i: int, j: int)
    requires 0 <= i <= j <= |s|
  {
    forall k | i <= k < j :: IsDigit(s[k])
  }

  /** Every character of s[i..j] is `letter` up to case. */
  predicate AllFolded(s: string, i: int, j: int, letter: char)
    requires 0 <= i <= j <= |s|
  {
    forall k | i <= k < j :: Fold(s[k]) == letter
  }

  /** The end of the whitespace run that starts at i: what a greedy `\s*` consumes. */
  function SpanSpaces(s: string, i: nat): (j: nat)
    requires i <= |s|
    ensures i <= j <= |s| && AllSpaces(s, i, j)
    ensures j == |s| || !IsSpace(s[j])
    decreases |s| - i
  {
    if i < |s| && IsSpace(s[i]) then SpanSpaces(s, i + 1) else i
  }

  /** The end of the digit run that starts at i: what a greedy `\d+` consumes. */
  function SpanDigits(s: string, i: nat): (j: nat)
    requires i <= |s|
    ensures i <= j <= |s| && AllDigits(s, i, j)
    ensures j == |s| || !IsDigit(s[j])
    decreases |s| - i
  {
    if i < |s| && IsDigit(s[i]) then SpanDigits(s, i + 1) else i
  }

  /** The end of the run of `letter` (up to case) that starts at i: a greedy `[d]*` under IGNORECASE. */
  function SpanFolded(s: string, i: nat, letter: char): (j: nat)
    requires i <= |s|
    ensures i <= j <= |s| && AllFolded(s, i, j, letter)
    ensures j == |s| || Fold(s[j]) != letter
    decreases |s| - i
  {
    if i < |s| && Fold(s[i]) == letter then SpanFolded(s, i + 1, letter) else i
  }

  /** The start of the whitespace run that ends at j. */
  function SpanSpacesBack(s: string, j: nat): (i: nat)
    requires j <= |s|
    ensures i <= j && AllSpaces(s, i, j)
    ensures i == 0 || !IsSpace(s[i - 1])
  {
    if 0 < j && IsSpace(s[j - 1]) then SpanSpacesBack(s, j - 1) else j
  }

  /** A whitespace run from i reaching j is covered by SpanSpaces, and ends there when s[j] is not whitespace. */
  lemma SpanSpacesCovers(s: string, i: nat, j: nat)
    requires i <= j <= |s| && AllSpaces(s, i, j)
    ensures j <= SpanSpaces(s, i)
    ensures j == |s| || !IsSpace(s[j]) ==> SpanSpaces(s, i) == j
  {
  }

  lemma SpanDigitsCovers(s: string, i: nat, j: nat)
    requires i <= j <= |s| && AllDigits(s, i, j)
    ensures j <= SpanDigits(s, i)
    ensures j == |s| || !IsDigit(s[j]) ==> SpanDigits(s, i) == j
  {
  }

  lemma SpanFoldedCovers(s: string, i: nat, j: nat, letter: char)
    requires i <= j <= |s| && AllFolded(s, i, j, letter)
    ensures j <= SpanFolded(s, i, letter)
  {
  }

  /** A whitespace run ending at j that starts at i is covered by SpanSpacesBack. */
  lemma SpanSpacesBackCovers(s: string, i: nat, j: nat)
    requires i <= j <= |s| && AllSpaces(s, i, j)
    ensures SpanSpacesBack(s, j) <= i
  {
  }

  /** SpanSpacesBack stops after a character that is not whitespace. */
  lemma SpanSpacesBackStops(s: string, i: nat, j: nat)
    requires i < j <= |s| && !IsSpace(s[i])
    ensures i < SpanSpacesBack(s, j)
  {
  }

  // ---------------------------------------------------------------------------
  // Line 81: re.sub(r"^\d+\s*-\s*", "", subject)
  // ---------------------------------------------------------------------------

  /** s[..e] matches `\d+\s*-\s*`: digits, whitespace, one dash, whitespace. */
  ghost predicate NumberPrefix(s: string, e: int) {
    0 <= e <= |s| &&
    exists i, j | 0 < i <= j < e ::
      AllDigits(s, 0, i) && AllSpaces(s, i, j) && s[j] == '-' && AllSpaces(s, j + 1, e)
  }

  /** Where the match of `^\d+\s*-\s*` ends, or None when the pattern does not match. */
  function NumberPrefixEnd(s: string): (r: Option<nat>)
    ensures r.Some? ==> NumberPrefix(s, r.value)
  {
    var i := SpanDigits(s, 0);
    var j := SpanSpaces(s, i);
    if 0 < i && j < |s| && s[j] == '-' then
      var e := SpanSpaces(s, j + 1);
      assert AllDigits(s, 0, i) && AllSpaces(s, i, j) && AllSpaces(s, j + 1, e);
      Some(e)
    else None
  }

  /** Every match of the number prefix is covered by the one NumberPrefixEnd finds. */
  lemma NumberPrefixEndIsLongestMatch(s: string, e: int)
    requires NumberPrefix(s, e)
    ensures NumberPrefixEnd(s).Some? && e <= NumberPrefixEnd(s).value
  {
    var i', j' :| 0 < i' <= j' < e && AllDigits(s, 0, i') && AllSpaces(s, i', j') && s[j'] == '-' && AllSpaces(s, j' + 1, e);
    assert !IsDigit(s[i']);
    SpanDigitsCovers(s, 0, i');
    assert !IsSpace(s[j']);
    SpanSpacesCovers(s, i', j');
    SpanSpacesCovers(s, j' + 1, e);
  }

  /** The substitution of line 81: one leading number prefix is removed, if there is one. */
  function StripNumberPrefix(s: string): (r: string)
    ensures |r| <= |s| && r == s[|s| - |r|..]
  {
    match NumberPrefixEnd(s)
    case Some(e) => s[e..]
    case None => s
  }

  /**
   * The substitution of line 81 in terms of the pattern: it removes the
   * longest match of the number prefix when there is one, and nothing
   * otherwise (e == 0).
   */
  lemma StripNumberPrefixRemovesMatch(s: string, e: int)
    requires 0 <= e <= |s|
    requires (NumberPrefix(s, e) && forall e' | NumberPrefix(s, e') :: e' <= e)
          || (e == 0 && forall e' :: !NumberPrefix(s, e'))
    ensures StripNumberPrefix(s) == s[e..]
  {
    if NumberPrefix(s, e) {
      NumberPrefixEndIsLongestMatch(s, e);
    }
  }

  // ---------------------------------------------------------------------------
  // Line 84: re.sub(r"^\s*(re|rv|fw[d]*)\s*:?\s*|\s*\.msg$", "", s, flags=re.IGNORECASE)
  // ---------------------------------------------------------------------------

  /** s[a..m] is `re`, `rv`, or `fw` followed by any number of `d`, ignoring case. */
  ghost predicate Marker(s: string, a: int, m: int) {
    0 <= a && a + 2 <= m <= |s| &&
    ((Fold(s[a]) == 'r' && (Fold(s[a + 1]) == 'e' || Fold(s[a + 1]) == 'v') && m == a + 2) ||
     (Fold(s[a]) == 'f' && Fold(s[a + 1]) == 'w' && AllFolded(s, a + 2, m, 'd')))
  }

  /** s[m..e] matches `\s*:?\s*`. */
  ghost predicate ColonGap(s: string, m: int, e: int) {
    0 <= m <= e <= |s| &&
    (AllSpaces(s, m, e) ||
     exists c | m <= c < e :: AllSpaces(s, m, c) && s[c] == ':' && AllSpaces(s, c + 1, e))
  }

  /** s[..e] matches `\s*(re|rv|fw[d]*)\s*:?\s*` under IGNORECASE. */
  ghost predicate MarkerPrefix(s: string, e: int) {
    exists a, m | 0 <= a <= m <= e :: Marker(s, a, m) && AllSpaces(s, 0, a) && ColonGap(s, m, e)
  }

  /** Where the greedy `\s*:?\s*` starting at m ends. */
  function GapEnd(s: string, m: nat): (e: nat)
    requires m <= |s|
    ensures SpanSpaces(s, m) <= e <= |s| && ColonGap(s, m, e)
  {
    var b := SpanSpaces(s, m);
    if b < |s| && s[b] == ':' then
      assert AllSpaces(s, m, b) && AllSpaces(s, b + 1, SpanSpaces(s, b + 1));
      SpanSpaces(s, b + 1)
    else b
  }

  /** No gap starting at m reaches beyond GapEnd(s, m). */
  lemma GapEndIsLongest(s: string, m: nat, e: int)
    requires m <= |s| && ColonGap(s, m, e)
    ensures e <= GapEnd(s, m)
  {
    if AllSpaces(s, m, e) {
      SpanSpacesCovers(s, m, e);
    } else {
      var c :| m <= c < e && AllSpaces(s, m, c) && s[c] == ':' && AllSpaces(s, c + 1, e);
      SpanSpacesCovers(s, m, c);
      SpanSpacesCovers(s, c + 1, e);
    }
  }

  /** Where the match of `^\s*(re|rv|fw[d]*)\s*:?\s*` ends, or None when it does not match. */
  function MarkerEnd(s: string): (r: Option<nat>)
    ensures r.Some? ==> r.value <= |s| && MarkerPrefix(s, r.value)
  {
    var a := SpanSpaces(s, 0);
    if a + 2 <= |s| && Fold(s[a]) == 'r' && (Fold(s[a + 1]) == 'e' || Fold(s[a + 1]) == 'v') then
      assert Marker(s, a, a + 2);
      Some(GapEnd(s, a + 2))
    else if a + 2 <= |s| && Fold(s[a]) == 'f' && Fold(s[a + 1]) == 'w' then
      var m := SpanFolded(s, a + 2, 'd');
      assert Marker(s, a, m);
      Some(GapEnd(s, m))
    else None
  }

  /** A marker match starts after the leading whitespace that SpanSpaces skips. */
  lemma MarkerStartsAfterSpaces(s: string, a: int, m: int)
    requires Marker(s, a, m) && AllSpaces(s, 0, a)
    ensures SpanSpaces(s, 0) == a
  {
    assert !IsSpace(s[a]);
    SpanSpacesCovers(s, 0, a);
  }

  /** After `fw` and its `d`s, no gap reaches beyond the one GapEnd finds after the longest run of `d`s. */
  lemma ForwardGapIsCovered(s: string, a: nat, m: int, e: int)
    requires Marker(s, a, m) && Fold(s[a]) == 'f' && ColonGap(s, m, e)
    ensures e <= GapEnd(s, SpanFolded(s, a + 2, 'd'))
  {
    var md := SpanFolded(s, a + 2, 'd');
    SpanFoldedCovers(s, a + 2, m, 'd');
    if m < md {
      // s[m] is another `d`, so the gap after the marker is empty
      assert Fold(s[m]) == 'd';
      GapEndIsLongest(s, m, e);
      assert GapEnd(s, m) == m;
    } else {
      GapEndIsLongest(s, md, e);
    }
  }

  /** Every match of the marker alternative is covered by the one MarkerEnd finds. */
  lemma MarkerEndIsLongestMatch(s: string, e: int)
    requires MarkerPrefix(s, e)
    ensures MarkerEnd(s).Some? && e <= MarkerEnd(s).value
  {
    var a, m :| 0 <= a <= m <= e && Marker(s, a, m) && AllSpaces(s, 0, a) && ColonGap(s, m, e);
    MarkerStartsAfterSpaces(s, a, m);
    if Fold(s[a]) == 'f' {
      ForwardGapIsCovered(s, a, m, e);
    } else {
      GapEndIsLongest(s, a + 2, e);
    }
  }

  /** s[i..i+4] is `.msg`, the letters compared ignoring case. */
  predicate DotMsgAt(s: string, i: int)
    requires 0 <= i && i + 4 <= |s|
  {
    s[i] == '.' && Fold(s[i + 1]) == 'm' && Fold(s[i + 2]) == 's' && Fold(s[i + 3]) == 'g'
  }

  /**
   * s[p..q] matches `\s*\.msg` and `$` matches at q: q is the end of s, or q is
   * just before a final newline.
   */
  ghost predicate MsgSuffix(s: string, p: int, q: int) {
    0 <= p && p + 4 <= q <= |s| && (q == |s| || (q == |s| - 1 && s[q] == '\n')) &&
    AllSpaces(s, p, q - 4) && DotMsgAt(s, q - 4)
  }

  /** The leftmost match (p, q) of `\s*\.msg$`, or None when there is none. */
  function MsgSuffixMatch(s: string): (r: Option<(nat, nat)>)
    ensures r.Some? ==> r.value.0 <= r.value.1 <= |s| && MsgSuffix(s, r.value.0, r.value.1)
  {
    if 4 <= |s| && DotMsgAt(s, |s| - 4) then
      Some((SpanSpacesBack(s, |s| - 4), |s|))
    else if 5 <= |s| && s[|s| - 1] == '\n' && DotMsgAt(s, |s| - 5) then
      Some((SpanSpacesBack(s, |s| - 5), |s| - 1))
    else None
  }

  /** Every match of the suffix alternative starts no earlier than the one MsgSuffixMatch finds, and ends where it ends. */
  lemma MsgSuffixMatchIsLeftmost(s: string, p: int, q: int)
    requires MsgSuffix(s, p, q)
    ensures MsgSuffixMatch(s).Some?
    ensures MsgSuffixMatch(s).value.0 <= p && MsgSuffixMatch(s).value.1 == q
  {
    assert q == |s| <==> Fold(s[|s| - 1]) == 'g';
    SpanSpacesBackCovers(s, p, q - 4);
  }

  /** The marker alternative of line 84: anchored, so it removes at most one match, at the start. */
  function StripMarker(s: string): (r: string)
    ensures |r| <= |s|
  {
    match MarkerEnd(s) case Some(e) => s[e..] case None => s
  }

  /** The `.msg` alternative of line 84: it removes at most one match, the leftmost. */
  function StripSuffix(t: string): (r: string)
    ensures |r| <= |t|
  {
    match MsgSuffixMatch(t)
    case Some((p, q)) => t[..p] + t[q..]
    case None => t
  }

  /**
   * The substitution of line 84. The marker alternative can only match at
   * the start; re.sub then resumes after it, and the suffix alternative
   * matches at most once, at the end.
   */
  function StripMarkerAndSuffix(s: string): (r: string)
    ensures |r| <= |s|
  {
    StripSuffix(StripMarker(s))
  }

  /** StripMarker removes the longest marker match s[..e], or nothing when there is none (e == 0). */
  lemma StripMarkerRemovesMatch(s: string, e: int)
    requires 0 <= e <= |s|
    requires (MarkerPrefix(s, e) && forall e' | MarkerPrefix(s, e') :: e' <= e)
          || (e == 0 && forall e' :: !MarkerPrefix(s, e'))
    ensures StripMarker(s) == s[e..]
  {
    if MarkerPrefix(s, e) {
      MarkerEndIsLongestMatch(s, e);
    }
  }

  /** StripSuffix removes the leftmost `.msg` match t[p..q], or nothing when there is none (p == q). */
  lemma StripSuffixRemovesMatch(t: string, p: int, q: int)
    requires 0 <= p <= q <= |t|
    requires (MsgSuffix(t, p, q) && forall p', q' | MsgSuffix(t, p', q') :: p <= p')
          || (p == q && forall p', q' :: !MsgSuffix(t, p', q'))
    ensures StripSuffix(t) == t[..p] + t[q..]
  {
    if MsgSuffix(t, p, q) {
      MsgSuffixMatchIsLeftmost(t, p, q);
    } else {
      assert t[..p] + t[p..] == t;
    }
  }

  /**
   * The substitution of line 84 in terms of the pattern: it removes the
   * longest marker match s[..e] (e == 0 when there is none), then, from the
   * rest t, the leftmost `.msg` match t[p..q] (p == q when there is none).
   */
  lemma StripMarkerAndSuffixRemovesMatches(s: string, e: int, p: int, q: int)
    requires 0 <= e <= |s| && 0 <= p <= q <= |s| - e
    requires (MarkerPrefix(s, e) && forall e' | MarkerPrefix(s, e') :: e' <= e)
          || (e == 0 && forall e' :: !MarkerPrefix(s, e'))
    requires (MsgSuffix(s[e..], p, q) && forall p', q' | MsgSuffix(s[e..], p', q') :: p <= p')
          || (p == q && forall p', q' :: !MsgSuffix(s[e..], p', q'))
    ensures StripMarkerAndSuffix(s) == s[e..][..p] + s[e..][q..]
  {
    StripMarkerRemovesMatch(s, e);
    StripSuffixRemovesMatch(s[e..], p, q);
  }

  // ---------------------------------------------------------------------------
  // Line 87: subject.strip()
  // ---------------------------------------------------------------------------

  /** `str.strip()`: the string without its leading and trailing whitespace. */
  function Trim(s: string): (r: string)
    ensures |r| <= |s|
    ensures r == [] || (!IsSpace(r[0]) && !IsSpace(r[|r| - 1]))
  {
    var i := SpanSpaces(s, 0);
    if i == |s| then []
    else
      SpanSpacesBackStops(s, i, |s|);
      s[i..SpanSpacesBack(s, |s|)]
  }

  /**
   * Trim removes exactly the surrounding whitespace: what it keeps is a slice
   * of s with only whitespace around it, and neither starts nor ends with
   * whitespace.
   */
  lemma TrimStripsSpaces(s: string)
    ensures var r := Trim(s);
      && (r == [] || (!IsSpace(r[0]) && !IsSpace(r[|r| - 1])))
      && exists i, j | 0 <= i <= j <= |s| :: r == s[i..j] && AllSpaces(s, 0, i) && AllSpaces(s, j, |s|)
  {
    var i := SpanSpaces(s, 0);
    if i == |s| {
      assert s[i..i] == [];
    } else {
      var j := SpanSpacesBack(s, |s|);
      SpanSpacesBackStops(s, i, |s|);
      assert Trim(s) == s[i..j];
    }
  }

  /**
   * The catalogue subject of a message (lines 64, 81, 84 and 87): the subject
   * field, or "" when it is missing or empty, with the number prefix, the
   * marker and the `.msg` suffix removed, then stripped.
   */
  function Normalize(subject: Option<string>): (r: string)
    ensures subject.None? ==> r == []
    ensures subject.Some? ==> |r| <= |subject.value|
  {
    var raw := if subject.Some? then subject.value else "";
    Trim(StripMarkerAndSuffix(StripNumberPrefix(raw)))
  }

  /** A catalogue subject neither starts nor ends with whitespace. */
  lemma NormalizeIsTrimmed(subject: Option<string>)
    ensures var r := Normalize(subject);
      r == [] || (!IsSpace(r[0]) && !IsSpace(r[|r| - 1]))
  {
    var raw := if subject.Some? then subject.value else "";
    TrimStripsSpaces(StripMarkerAndSuffix(StripNumberPrefix(raw)));
  }

  /**
   * A subject that none of the patterns matches and that has no surrounding
   * whitespace is its own catalogue subject.
   */
  lemma NormalizeKeepsPlainSubject(s: string)
    requires forall e :: !NumberPrefix(s, e)
    requires forall e :: !MarkerPrefix(s, e)
    requires forall p, q :: !MsgSuffix(s, p, q)
    requires s == [] || (!IsSpace(s[0]) && !IsSpace(s[|s| - 1]))
    ensures Normalize(Some(s)) == s
  {
    assert StripNumberPrefix(s) == s;
    assert StripMarkerAndSuffix(s) == s;
    var i := SpanSpaces(s, 0);
    assert s != [] ==> i == 0;
    if s != [] {
      var j := SpanSpacesBack(s, |s|);
      assert j == |s|;
    }
  }

  /** Normalize is the composition of the three substitutions and the strip. */
  lemma NormalizeSteps(s: string, u: string, t: string, r: string)
    requires StripNumberPrefix(s) == u && StripMarkerAndSuffix(u) == t && Trim(t) == r
    ensures Normalize(Some(s)) == r
  {
  }

  /** One pass removes one marker: a subject with two keeps the second. */
  lemma NormalizeRemovesOneMarker(s: string)
    requires s == "RE: RE: x"
    ensures Normalize(Some(s)) == "RE: x"
  {
    var t := s[4..];
    assert t == "RE: x";
    assert MarkerEnd(s) == Some(4) by {
      assert SpanSpaces(s, 3) == 4;
    }
    assert MsgSuffixMatch(t) == None;
    assert SpanSpacesBack(t, 5) == 5;
    NormalizeSteps(s, s, t, t);
  }

  lemma NormalizeRemovesMarker(t: string)
    requires t == "RE: x"
    ensures Normalize(Some(t)) == "x"
  {
    var x := t[4..];
    assert x == "x";
    assert MarkerEnd(t) == Some(4) by {
      assert SpanSpaces(t, 3) == 4;
    }
    assert MsgSuffixMatch(x) == None;
    assert SpanSpacesBack(x, 1) == 1;
    NormalizeSteps(t, t, x, x);
  }

  /**
   * The normaliser is not idempotent: normalising a catalogue subject again
   * can change it.
   */
  lemma NormalizeIsNotIdempotent()
    ensures exists s :: Normalize(Some(Normalize(Some(s)))) != Normalize(Some(s))
  {
    var s: string, t: string := "RE: RE: x", "RE: x";
    NormalizeRemovesOneMarker(s);
    NormalizeRemovesMarker(t);
    assert Normalize(Some(Normalize(Some(s)))) != Normalize(Some(s));
  }

  /** The marker pattern has no word boundary: it cuts `re` off an ordinary word. */
  lemma NormalizeCutsWordStart(s: string)
    requires s == "Report Q1"
    ensures Normalize(Some(s)) == "port Q1"
  {
    var t := s[2..];
    assert t == "port Q1";
    assert MarkerEnd(s) == Some(2);
    assert MsgSuffixMatch(t) == None;
    assert SpanSpacesBack(t, 7) == 7;
    NormalizeSteps(s, s, t, t);
  }
}
