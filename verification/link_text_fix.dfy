/** The link-text scan as its surrounding parser evidently intends it: the
    bracket scan starts at the caller's position (just after the image's
    opening `[`) at depth 1, and each match is classified by the bracket it
    ends with. Alongside it, concrete inputs on which the scan as written in
    parseLinkText differs from this one. */
module LinkTextFix {
  import opened Wrappers
  import opened JsString
  import opened ParseImage

  // ---------------------------------------------------------------------
  // The corrected scan
  // ---------------------------------------------------------------------

  /** A match that ends with a closing bracket. */
  predicate Closing(s: string, i: nat)
  {
    BracketMatchAt(s, i) && s[MatchedBracket(s, i)] == ']'
  }

  /** The corrected loop: `lastIndex` is the pattern's cursor, `level` the
      depth, `start` the caller's position. */
  function LabelLoop(src: string, start: nat, lastIndex: nat, level: int): Option<LinkText>
    decreases |src| - lastIndex
  {
    match NextMatch(src, lastIndex)
    case None => None
    case Some(i) =>
      var b := MatchedBracket(src, i);
      if src[b] == ']' then
        if level == 1 then Some(LinkText(Slice(src, start, b), b + 2))
        else LabelLoop(src, start, b + 1, level - 1)
      else LabelLoop(src, start, b + 1, level + 1)
  }

  /** parseLinkText with the scan starting at pos, at depth 1. */
  function ParseLinkTextIntended(src: string, pos: nat): Option<LinkText>
  {
    LabelLoop(src, pos, pos, 1)
  }

  // --- the corrected scan against the generic account ---

  /** The classification the corrected scan uses, as a predicate on match
      starts. */
  function LabelCloses(s: string): nat -> bool
  {
    (i: nat) => Closing(s, i)
  }

  /** Match k of ms is the first one ending in `]` that takes the depth from
      1 to 0, the depth starting at 1 for the image's own `[`. */
  ghost predicate FirstLabelClose(s: string, ms: seq<nat>, k: int)
  {
    FirstCloseAt(LabelCloses(s), 1, ms, k)
  }

  /** The returned record for a scan that stops at the match starting at i:
      the text runs up to the bracket that match ends with. */
  function TextUpTo(src: string, start: nat, stop: Option<nat>): Option<LinkText>
  {
    match stop
    case None => None
    case Some(i) =>
      if BracketMatchAt(src, i) then
        var b := MatchedBracket(src, i);
        Some(LinkText(Slice(src, start, b), b + 2))
      else None
  }

  /** One round of the corrected scan. */
  lemma LabelLoopStep(src: string, start: nat, lastIndex: nat, level: int, i: nat)
    requires NextMatch(src, lastIndex) == Some(i)
    ensures Closing(src, i) && level == 1 ==>
      LabelLoop(src, start, lastIndex, level) == Some(LinkText(Slice(src, start, MatchedBracket(src, i)), MatchedBracket(src, i) + 2))
    ensures !(Closing(src, i) && level == 1) ==>
      LabelLoop(src, start, lastIndex, level)
        == LabelLoop(src, start, MatchedBracket(src, i) + 1, StepLevel(LabelCloses(src), level, i))
  {
  }

  /** The corrected loop is the scan of the matches from its cursor, with
      the text cut at the bracket of the match where the scan stops. */
  lemma {:induction false} LabelLoopScans(src: string, start: nat, lastIndex: nat, level: int)
    ensures LabelLoop(src, start, lastIndex, level)
      == TextUpTo(src, start, ScanCloses(LabelCloses(src), Matches(src, lastIndex), level))
    decreases |src| - lastIndex
  {
    match NextMatch(src, lastIndex)
    case None =>
    case Some(i) =>
      var next := MatchedBracket(src, i) + 1;
      var rest := Matches(src, next);
      MatchesStep(src, lastIndex, i);
      assert ([i] + rest)[0] == i && ([i] + rest)[1..] == rest;
      LabelLoopStep(src, start, lastIndex, level, i);
      if !(Closing(src, i) && level == 1) {
        LabelLoopScans(src, start, next, StepLevel(LabelCloses(src), level, i));
      }
  }

  /** The corrected scan succeeds exactly when, reading the matches from pos
      on at depth 1, some match ending in `]` brings the depth to 0. */
  lemma ParseLinkTextIntendedSucceeds(src: string, pos: nat)
    ensures ParseLinkTextIntended(src, pos).Some? <==> exists k :: FirstLabelClose(src, Matches(src, pos), k)
  {
    var ms := Matches(src, pos);
    ScanClosesSpec(LabelCloses(src), 1, ms);
    LabelLoopScans(src, pos, pos, 1);
    var r := ScanCloses(LabelCloses(src), ms, 1);
    if r.Some? {
      var k :| FirstCloseAt(LabelCloses(src), 1, ms, k);
      assert FirstLabelClose(src, ms, k);
      var j :| 0 <= j < |ms| && ms[j] == r.value;
      assert BracketMatchAt(src, ms[j]);
    }
  }

  /** The first such match, ending at bracket b, gives text
      `src.slice(pos, b)` and end b + 2. */
  lemma ParseLinkTextIntendedValue(src: string, pos: nat, k: nat)
    requires FirstLabelClose(src, Matches(src, pos), k)
    ensures var ms := Matches(src, pos);
      && k < |ms| && BracketMatchAt(src, ms[k])
      && var b := MatchedBracket(src, ms[k]);
      && src[b] == ']' && pos <= b
      && ParseLinkTextIntended(src, pos) == Some(LinkText(src[pos..b], b + 2))
  {
    LabelScanStops(src, pos, k);
    LabelLoopScans(src, pos, pos, 1);
    TextUpToMatch(src, pos, Matches(src, pos)[k]);
  }

  /** The text cut at the bracket of a match at or after start. */
  lemma TextUpToMatch(src: string, start: nat, i: nat)
    requires start <= i && BracketMatchAt(src, i)
    ensures var b := MatchedBracket(src, i);
      TextUpTo(src, start, Some(i)) == Some(LinkText(src[start..b], b + 2))
  {
    var b := MatchedBracket(src, i);
    assert Slice(src, start, b) == src[start..b];
  }

  /** The corrected scan from pos stops at the first label close. */
  lemma LabelScanStops(src: string, pos: nat, k: nat)
    requires FirstLabelClose(src, Matches(src, pos), k)
    ensures var ms := Matches(src, pos);
      && k < |ms| && Closing(src, ms[k])
      && ScanCloses(LabelCloses(src), ms, 1) == Some(ms[k])
  {
    var ms := Matches(src, pos);
    var closing := LabelCloses(src);
    assert ClosesAt(closing, 1, ms, k);
    assert closing(ms[k]);
    ScanClosesSpec(closing, 1, ms);
  }

  /** A label with no bracket in it, whose closing `]` is not escaped, reads
      back whole: the text is exactly the characters between pos and the `]`,
      and end is just past the `(` that follows. The character before pos is
      the image's opening `[`. */
  lemma PlainLabelReadsBack(src: string, pos: nat, k: nat)
    requires 0 < pos <= k < |src| && src[pos - 1] == '['
    requires src[k] == ']' && BackslashesBefore(src, k) % 2 == 0
    requires forall x :: pos <= x < k ==> !IsBracket(src[x])
    ensures ParseLinkTextIntended(src, pos) == Some(LinkText(src[pos..k], k + 2))
  {
    var i := PlainLabelMatch(src, pos, k);
    LabelLoopStep(src, pos, pos, 1, i);
    assert Closing(src, i);
    assert Slice(src, pos, k) == src[pos..k];
  }

  /** In such a label the first match from pos is the one that ends at the `]`. */
  lemma PlainLabelMatch(src: string, pos: nat, k: nat) returns (i: nat)
    requires 0 < pos <= k < |src| && src[pos - 1] == '['
    requires pos <= k < |src| && src[k] == ']' && BackslashesBefore(src, k) % 2 == 0
    requires forall x :: pos <= x < k ==> !IsBracket(src[x])
    ensures NextMatch(src, pos) == Some(i) && MatchedBracket(src, i) == k
  {
    i := k - BackslashesBefore(src, k);
    CountedIffEvenEscapes(src, k);
    var i' :| BracketMatchAt(src, i') && MatchedBracket(src, i') == k;
    MatchStartOfBracket(src, i', k);
    assert i >= pos;
    forall j | pos <= j < i ensures !BracketMatchAt(src, j) {
      NoMatchBeforeLabelEnd(src, pos, k, i, j);
    }
    NextMatchAt(src, pos, i);
  }

  /** A match that starts before a non-backslash character ends at or before it. */
  lemma MatchedBracketAtMost(src: string, j: nat, k: nat)
    requires BracketMatchAt(src, j) && j <= k < |src| && src[k] != '\\'
    ensures MatchedBracket(src, j) <= k
  {
    BackslashRunFacts(src, j);
  }

  /** Between pos and the start of the match that ends at k, nothing matches. */
  lemma NoMatchBeforeLabelEnd(src: string, pos: nat, k: nat, i: nat, j: nat)
    requires pos <= j < i <= k < |src| && src[k] == ']'
    requires BracketMatchAt(src, i) && MatchedBracket(src, i) == k
    requires forall x :: pos <= x < k ==> !IsBracket(src[x])
    ensures !BracketMatchAt(src, j)
  {
    if BracketMatchAt(src, j) {
      MatchedBracketAtMost(src, j, k);
      MatchStartOfBracket(src, i, k);
      MatchStartOfBracket(src, j, MatchedBracket(src, j));
    }
  }

  // ---------------------------------------------------------------------
  // Where the scan as written differs
  // ---------------------------------------------------------------------

  /** `![a\\](x)`: the label ends in an escaped backslash, so its `]` is a
      real closing bracket. The match that reaches it starts with the
      backslash pair and parseLinkText counts it as an opening bracket, so
      it finds no link text at all; the corrected scan reads `a\\`. */
  lemma EscapedPairLabel(s: string)
    requires s == "![a\\\\](x)"
    ensures ParseLinkText(s, 2) == None
    ensures ParseLinkTextIntended(s, 2) == Some(LinkText("a\\\\", 7))
  {
    EscapedPairScan(s);
    LinkTextLoopStep(s, 2, 0, 2, 0, 1);
    LinkTextLoopStep(s, 2, 2, 2, 1, 3);
    assert LinkTextLoop(s, 2, 6, 4, 2) == None;
    assert forall x :: 2 <= x < 5 ==> !IsBracket(s[x]);
    assert BackslashesBefore(s, 5) == 2 by {
      assert s[4] == '\\' && s[3] == '\\' && s[2] == 'a';
    }
    PlainLabelReadsBack(s, 2, 5);
    assert s[2..5] == "a\\\\";
  }

  /** The matches of `![a\\](x)`: the `[` at 1, then one match at 3 that
      spans the backslash pair and ends with the `]` at 5. */
  lemma EscapedPairScan(s: string)
    requires s == "![a\\\\](x)"
    ensures NextMatch(s, 0) == Some(1) && MatchedBracket(s, 1) == 1 && s[1] == '['
    ensures NextMatch(s, 2) == Some(3) && MatchedBracket(s, 3) == 5 && s[3] == '\\'
    ensures NextMatch(s, 6) == None
  {
    PlainBracketMatch(s, 1);
    NoMatchAtPlain(s, 0);
    NoMatchAtPlain(s, 2);
    assert BackslashRun(s, 5) == 0;
    assert BackslashRun(s, 4) == 1;
    assert BackslashRun(s, 3) == 2;
    assert BracketMatchAt(s, 3);
    NoMatchAtPlain(s, 6);
    NoMatchAtPlain(s, 7);
    NoMatchAtPlain(s, 8);
    assert |s| == 9;
    assert NextMatch(s, 9) == None;
    assert NextMatch(s, 8) == None;
    assert NextMatch(s, 7) == None;
    assert NextMatch(s, 6) == None;
    assert NextMatch(s, 2) == Some(3);
    assert NextMatch(s, 0) == Some(1);
  }

  /** `![a](x) ![b](y)` with pos 10, just after the second image's `[`: the
      scan as written starts at index 0, stops at the first image's `]` and
      returns an empty text ending at 5; the corrected scan reads `b`, ending
      at 13. */
  lemma SecondImageLabel(s: string)
    requires s == "![a](x) ![b](y)"
    ensures ParseLinkText(s, 10) == Some(LinkText("", 5))
    ensures ParseLinkTextIntended(s, 10) == Some(LinkText("b", 13))
  {
    SecondImageAsWritten(s);
    assert forall x :: 10 <= x < 11 ==> !IsBracket(s[x]);
    assert BackslashesBefore(s, 11) == 0;
    PlainLabelReadsBack(s, 10, 11);
    assert s[10..11] == "b";
  }

  /** The scan as written reads the first image's brackets. */
  lemma SecondImageAsWritten(s: string)
    requires s == "![a](x) ![b](y)"
    ensures ParseLinkText(s, 10) == Some(LinkText("", 5))
  {
    PlainBracketMatch(s, 1);
    PlainBracketMatch(s, 3);
    NoMatchAtPlain(s, 0);
    NoMatchAtPlain(s, 2);
    assert NextMatch(s, 2) == Some(3);
    assert NextMatch(s, 0) == Some(1);
    LinkTextLoopStep(s, 10, 0, 10, 0, 1);
    LinkTextLoopStep(s, 10, 2, 2, 1, 3);
    assert Slice(s, 10, 3) == "";
  }
}
