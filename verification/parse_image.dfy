/** The three sub-scanners of the markdown image-link reader in
    src/parseImage.ts, as written: `parseLinkText` (bracket-depth scan for the
    alt text), `parseLinkHref` (angle-bracket or bare destination) and
    `parseLinkTitle` (quoted title). Each returns a record or `undefined`,
    modelled as `Option`. The regular expressions they use are modelled by
    hand-written matchers that follow the backtracking semantics of JavaScript
    regular expressions on the patterns in question. */
module ParseImage {
  import opened Wrappers
  import opened JsString

  datatype LinkText = LinkText(text: string, end: int)

  datatype LinkHref = LinkHref(href: string, end: int)

  datatype LinkTitle = LinkTitle(title: string, end: int)

  // ---------------------------------------------------------------------
  // The bracket pattern /(?<!\\)(?:\\\\)*[\[\]]/g
  // ---------------------------------------------------------------------

  predicate IsBracket(c: char)
  {
    c == '[' || c == ']'
  }

  /** Length of the run of backslashes that starts at i. */
  function BackslashRun(s: string, i: nat): (n: nat)
    requires i <= |s|
    ensures i + n <= |s|
    decreases |s| - i
  {
    if i < |s| && s[i] == '\\' then 1 + BackslashRun(s, i + 1) else 0
  }

  /** The run is made of backslashes and is maximal. */
  lemma {:induction false} BackslashRunFacts(s: string, i: nat)
    requires i <= |s|
    ensures forall k :: i <= k < i + BackslashRun(s, i) ==> s[k] == '\\'
    ensures i + BackslashRun(s, i) == |s| || s[i + BackslashRun(s, i)] != '\\'
    decreases |s| - i
  {
    if i < |s| && s[i] == '\\' {
      BackslashRunFacts(s, i + 1);
    }
  }

  /** Length of the run of backslashes that ends just before j. */
  function BackslashesBefore(s: string, j: nat): (n: nat)
    requires j <= |s|
    ensures n <= j
    ensures forall k :: j - n <= k < j ==> s[k] == '\\'
    ensures n == j || s[j - n - 1] != '\\'
  {
    if j > 0 && s[j - 1] == '\\' then 1 + BackslashesBefore(s, j - 1) else 0
  }

  /** The bracket pattern matches starting at i: the character before i is
      not a backslash, and from i an even run of backslashes is followed by a
      bracket. Greedy `(?:\\\\)*` with backtracking can only succeed by taking
      the whole run, so the run must be even. */
  predicate BracketMatchAt(s: string, i: nat)
  {
    && i < |s|
    && (i == 0 || s[i - 1] != '\\')
    && BackslashRun(s, i) % 2 == 0
    && i + BackslashRun(s, i) < |s|
    && IsBracket(s[i + BackslashRun(s, i)])
  }

  /** Index of the bracket a match at i ends with. */
  function MatchedBracket(s: string, i: nat): (b: nat)
    requires BracketMatchAt(s, i)
    ensures i <= b < |s| && IsBracket(s[b])
  {
    i + BackslashRun(s, i)
  }

  /** `re.exec(s)` on the global pattern with cursor `lastIndex`: the leftmost
      match starting at or after the cursor. */
  function NextMatch(s: string, lastIndex: nat): (r: Option<nat>)
    ensures r.Some? ==> lastIndex <= r.value && BracketMatchAt(s, r.value)
    ensures r.Some? ==> forall k :: lastIndex <= k < r.value ==> !BracketMatchAt(s, k)
    ensures r.None? ==> forall k :: lastIndex <= k ==> !BracketMatchAt(s, k)
    decreases |s| - lastIndex
  {
    if lastIndex >= |s| then None
    else if BracketMatchAt(s, lastIndex) then Some(lastIndex)
    else NextMatch(s, lastIndex + 1)
  }

  // ---------------------------------------------------------------------
  // parseLinkText
  // ---------------------------------------------------------------------

  /** The while loop of parseLinkText. `lastIndex` is the regular
      expression's hidden cursor, `pos` the loop variable and `level` the
      bracket depth; `start` is the caller's position. The character that
      decides opening versus closing is `src[match.index]`, the first
      character of the match. */
  function LinkTextLoop(src: string, start: nat, lastIndex: nat, pos: nat, level: int): Option<LinkText>
    decreases |src| - lastIndex
  {
    if pos >= |src| then None
    else
      match NextMatch(src, lastIndex)
      case None => None
      case Some(i) =>
        if src[i] == ']' then
          if level - 1 == 0 then Some(LinkText(Slice(src, start, i), i + 2))
          else LinkTextLoop(src, start, MatchedBracket(src, i) + 1, i + 1, level - 1)
        else LinkTextLoop(src, start, MatchedBracket(src, i) + 1, i + 1, level + 1)
  }

  /** parseLinkText(src, pos): a fresh regular expression, so the scan starts
      at index 0 of src with level 0 whatever pos is. */
  function ParseLinkText(src: string, pos: nat): Option<LinkText>
  {
    LinkTextLoop(src, pos, 0, pos, 0)
  }

  // --- a declarative account of a bracket scan over its matches ---

  /** Every match the global pattern yields from `lastIndex` on, in order. */
  function Matches(s: string, lastIndex: nat): (ms: seq<nat>)
    ensures forall k :: 0 <= k < |ms| ==> lastIndex <= ms[k] && BracketMatchAt(s, ms[k])
    decreases |s| - lastIndex
  {
    match NextMatch(s, lastIndex)
    case None => []
    case Some(i) => [i] + Matches(s, MatchedBracket(s, i) + 1)
  }

  /** The matches from a cursor are the next match, then those after its bracket. */
  lemma MatchesStep(s: string, lastIndex: nat, i: nat)
    requires NextMatch(s, lastIndex) == Some(i)
    ensures Matches(s, lastIndex) == [i] + Matches(s, MatchedBracket(s, i) + 1)
  {
  }

  /** The level after reading match i: one down if it is classified as
      closing, one up otherwise. */
  function StepLevel(closing: nat -> bool, level: int, i: nat): int
  {
    if closing(i) then level - 1 else level + 1
  }

  /** A scan over a list of matches from `level`: it stops at the first
      match classified as closing while the level is 1, and returns it. */
  function ScanCloses(closing: nat -> bool, ms: seq<nat>, level: int): (r: Option<nat>)
    ensures r.Some? ==> r.value in ms
  {
    if |ms| == 0 then None
    else if closing(ms[0]) && level == 1 then Some(ms[0])
    else ScanCloses(closing, ms[1..], StepLevel(closing, level, ms[0]))
  }

  /** The level after reading all of ms, starting from base. */
  function LevelAfter(closing: nat -> bool, base: int, ms: seq<nat>): int
  {
    if |ms| == 0 then base
    else StepLevel(closing, LevelAfter(closing, base, ms[..|ms| - 1]), ms[|ms| - 1])
  }

  /** Match k of ms is classified as closing and is read at level 1. */
  ghost predicate ClosesAt(closing: nat -> bool, base: int, ms: seq<nat>, k: int)
  {
    0 <= k < |ms| && closing(ms[k]) && LevelAfter(closing, base, ms[..k]) == 1
  }

  /** Match k is the first one that closes. */
  ghost predicate FirstCloseAt(closing: nat -> bool, base: int, ms: seq<nat>, k: int)
  {
    ClosesAt(closing, base, ms, k) && forall j :: 0 <= j < k ==> !ClosesAt(closing, base, ms, j)
  }

  /** The scan of a whole list stops exactly at its first close. */
  lemma ScanClosesSpec(closing: nat -> bool, base: int, ms: seq<nat>)
    ensures ScanCloses(closing, ms, base).Some? ==> exists k :: FirstCloseAt(closing, base, ms, k)
    ensures forall k :: FirstCloseAt(closing, base, ms, k) ==> ScanCloses(closing, ms, base) == Some(ms[k])
  {
    assert ms[0..] == ms && ms[..0] == [];
    ScanClosesFrom(closing, base, ms, 0);
  }

  /** The scan of the suffix from n, at the level the prefix leaves, when no
      match of the prefix closes. */
  lemma {:induction false} ScanClosesFrom(closing: nat -> bool, base: int, ms: seq<nat>, n: nat)
    requires n <= |ms|
    requires forall j :: 0 <= j < n ==> !ClosesAt(closing, base, ms, j)
    ensures var r := ScanCloses(closing, ms[n..], LevelAfter(closing, base, ms[..n]));
      && (r.Some? ==> exists k :: FirstCloseAt(closing, base, ms, k))
      && (forall k :: FirstCloseAt(closing, base, ms, k) ==> r == Some(ms[k]))
    decreases |ms| - n
  {
    if n < |ms| {
      var level := LevelAfter(closing, base, ms[..n]);
      var r := ScanCloses(closing, ms[n..], level);
      assert ms[n..][0] == ms[n] && ms[n..][1..] == ms[n + 1..];
      if closing(ms[n]) && level == 1 {
        assert r == Some(ms[n]);
        assert FirstCloseAt(closing, base, ms, n);
        forall k | FirstCloseAt(closing, base, ms, k) ensures k == n {
          assert !(k < n) && !(n < k);
        }
      } else {
        assert !ClosesAt(closing, base, ms, n);
        assert ms[..n + 1][..n] == ms[..n];
        assert r == ScanCloses(closing, ms[n + 1..], LevelAfter(closing, base, ms[..n + 1]));
        ScanClosesFrom(closing, base, ms, n + 1);
        forall k | FirstCloseAt(closing, base, ms, k) ensures k != n {
        }
      }
    }
  }

  // --- parseLinkText against that account ---

  /** The classification parseLinkText uses: a match closes when its first
      character is `]`. */
  function MarkerCloses(s: string): nat -> bool
  {
    (i: nat) => i < |s| && s[i] == ']'
  }

  /** Match k of ms is the first `]` that takes the level from 1 back to 0,
      the level starting at 0. */
  ghost predicate FirstClose(s: string, ms: seq<nat>, k: int)
  {
    FirstCloseAt(MarkerCloses(s), 0, ms, k)
  }

  /** The returned record for a scan that stops at the `]` at index b. */
  function TextBefore(src: string, start: nat, stop: Option<nat>): Option<LinkText>
  {
    match stop
    case None => None
    case Some(b) => Some(LinkText(Slice(src, start, b), b + 2))
  }

  /** The loop reads the matches from its cursor in order: it is the scan of
      those matches, with the text cut at the `]` where the scan stops. */
  lemma {:induction false} LinkTextLoopScans(src: string, start: nat, lastIndex: nat, pos: nat, level: int)
    requires pos < |src| || Matches(src, lastIndex) == []
    ensures LinkTextLoop(src, start, lastIndex, pos, level)
      == TextBefore(src, start, ScanCloses(MarkerCloses(src), Matches(src, lastIndex), level))
    decreases |src| - lastIndex
  {
    if pos < |src| && NextMatch(src, lastIndex).Some? {
      var i := NextMatch(src, lastIndex).value;
      var next := MatchedBracket(src, i) + 1;
      var rest := Matches(src, next);
      MatchesStep(src, lastIndex, i);
      assert ([i] + rest)[0] == i && ([i] + rest)[1..] == rest;
      LinkTextLoopStep(src, start, lastIndex, pos, level, i);
      if !(src[i] == ']' && level == 1) {
        if i + 1 >= |src| {
          assert NextMatch(src, next) == None;
        }
        LinkTextLoopScans(src, start, next, i + 1, StepLevel(MarkerCloses(src), level, i));
      }
    }
  }

  /** parseLinkText succeeds exactly when, reading the matches of the whole
      string from index 0, some `]` takes the level from 1 back to 0. */
  lemma ParseLinkTextSucceeds(src: string, pos: nat)
    ensures ParseLinkText(src, pos).Some? <==> pos < |src| && exists k :: FirstClose(src, Matches(src, 0), k)
  {
    var ms := Matches(src, 0);
    ScanClosesSpec(MarkerCloses(src), 0, ms);
    if pos < |src| {
      LinkTextLoopScans(src, pos, 0, pos, 0);
      if ScanCloses(MarkerCloses(src), ms, 0).Some? {
        var k :| FirstCloseAt(MarkerCloses(src), 0, ms, k);
        assert FirstClose(src, ms, k);
      }
    }
  }

  /** The first such `]`, at index ms[k], gives text `src.slice(pos, ms[k])`
      and end ms[k] + 2. */
  lemma ParseLinkTextValue(src: string, pos: nat, k: nat)
    requires pos < |src| && FirstClose(src, Matches(src, 0), k)
    ensures var ms := Matches(src, 0);
      && k < |ms| && src[ms[k]] == ']'
      && ParseLinkText(src, pos) == Some(LinkText(Slice(src, pos, ms[k]), ms[k] + 2))
  {
    ScanStopsAtFirstClose(src, k);
    ParseLinkTextIsScan(src, pos);
  }

  /** parseLinkText is the scan of all the matches of src, from level 0. */
  lemma ParseLinkTextIsScan(src: string, pos: nat)
    requires pos < |src|
    ensures ParseLinkText(src, pos) == TextBefore(src, pos, ScanCloses(MarkerCloses(src), Matches(src, 0), 0))
  {
    LinkTextLoopScans(src, pos, 0, pos, 0);
  }

  /** The scan from index 0 stops at the first close. */
  lemma ScanStopsAtFirstClose(src: string, k: nat)
    requires FirstClose(src, Matches(src, 0), k)
    ensures var ms := Matches(src, 0);
      && k < |ms| && src[ms[k]] == ']'
      && ScanCloses(MarkerCloses(src), ms, 0) == Some(ms[k])
  {
    var ms := Matches(src, 0);
    var closing := MarkerCloses(src);
    assert ClosesAt(closing, 0, ms, k);
    assert closing(ms[k]);
    ScanClosesSpec(closing, 0, ms);
  }

  /** The bracket scan does not depend on pos: any two starting positions
      inside the string agree on success and on the end offset. */
  lemma ParseLinkTextIgnoresPos(src: string, p1: nat, p2: nat)
    requires p1 < |src| && p2 < |src|
    ensures ParseLinkText(src, p1).Some? == ParseLinkText(src, p2).Some?
    ensures ParseLinkText(src, p1).Some? ==> ParseLinkText(src, p1).value.end == ParseLinkText(src, p2).value.end
  {
    ParseLinkTextSucceeds(src, p1);
    ParseLinkTextSucceeds(src, p2);
    if ParseLinkText(src, p1).Some? {
      var k :| 0 <= k && FirstClose(src, Matches(src, 0), k);
      ParseLinkTextValue(src, p1, k);
      ParseLinkTextValue(src, p2, k);
    }
  }

  /** Matches never overlap: no match starts strictly inside another one. */
  lemma NoMatchInside(s: string, i: nat, k: nat)
    requires BracketMatchAt(s, i)
    requires i < k <= MatchedBracket(s, i)
    ensures !BracketMatchAt(s, k)
  {
    BackslashRunFacts(s, i);
    assert s[k - 1] == '\\';
  }

  /** Every match at or after the cursor is found by the exec loop. */
  lemma {:induction false} MatchesComplete(s: string, lastIndex: nat, k: nat)
    requires lastIndex <= k && BracketMatchAt(s, k)
    ensures k in Matches(s, lastIndex)
    decreases |s| - lastIndex
  {
    match NextMatch(s, lastIndex)
    case None =>
    case Some(i) =>
      if i != k {
        assert i < k;
        var b := MatchedBracket(s, i);
        if k <= b {
          NoMatchInside(s, i, k);
        }
        assert IsBracket(s[b]);
        MatchesComplete(s, b + 1, k);
      }
  }

  /** A bracket is counted (ends some match) exactly when the run of
      backslashes right before it is even. */
  lemma CountedIffEvenEscapes(s: string, b: nat)
    requires b < |s| && IsBracket(s[b])
    ensures (exists i: nat :: BracketMatchAt(s, i) && MatchedBracket(s, i) == b) <==> BackslashesBefore(s, b) % 2 == 0
  {
    var n := BackslashesBefore(s, b);
    var i0 := b - n;
    assert BackslashRun(s, i0) == n by {
      BackslashRunFrom(s, i0, b);
    }
    if n % 2 == 0 {
      assert BracketMatchAt(s, i0);
    } else {
      forall i: nat | BracketMatchAt(s, i) && MatchedBracket(s, i) == b
        ensures false
      {
        MatchStartOfBracket(s, i, b);
      }
    }
  }

  /** A match ending at bracket b starts where the backslash run before b starts. */
  lemma MatchStartOfBracket(s: string, i: nat, b: nat)
    requires BracketMatchAt(s, i) && MatchedBracket(s, i) == b
    ensures i == b - BackslashesBefore(s, b)
  {
    BackslashRunFacts(s, i);
    BackslashesBeforeFrom(s, i, b);
  }

  /** A run of backslashes that starts after a non-backslash has the expected length. */
  lemma {:induction false} BackslashesBeforeFrom(s: string, i: nat, j: nat)
    requires i <= j <= |s|
    requires forall k :: i <= k < j ==> s[k] == '\\'
    requires i == 0 || s[i - 1] != '\\'
    ensures BackslashesBefore(s, j) == j - i
    decreases j - i
  {
    if i < j {
      BackslashesBeforeFrom(s, i, j - 1);
    }
  }

  /** A run of backslashes that stops at a non-backslash has the expected length. */
  lemma {:induction false} BackslashRunFrom(s: string, i: nat, j: nat)
    requires i <= j < |s|
    requires forall k :: i <= k < j ==> s[k] == '\\'
    requires s[j] != '\\'
    ensures BackslashRun(s, i) == j - i
    decreases j - i
  {
    if i < j {
      BackslashRunFrom(s, i + 1, j);
    }
  }

  /** A bracket preceded by an odd run of backslashes is never counted. */
  lemma OddEscapedNeverCounted(s: string, b: nat, i: nat)
    requires b < |s| && IsBracket(s[b])
    requires BackslashesBefore(s, b) % 2 == 1
    requires BracketMatchAt(s, i)
    ensures MatchedBracket(s, i) != b
  {
    CountedIffEvenEscapes(s, b);
  }

  /** A match that begins with an escaped backslash pair and ends with `]` is
      classified by its first character, a backslash: the loop counts it as
      an opening, raising the level and going on past the `]`, so that `]`
      never closes the text, whatever the level. */
  lemma EscapedPairCountsAsOpening(src: string, start: nat, lastIndex: nat, pos: nat, level: int, i: nat)
    requires pos < |src| && NextMatch(src, lastIndex) == Some(i)
    requires src[i] == '\\' && src[MatchedBracket(src, i)] == ']'
    ensures i + 2 <= MatchedBracket(src, i)
    ensures LinkTextLoop(src, start, lastIndex, pos, level)
      == LinkTextLoop(src, start, MatchedBracket(src, i) + 1, i + 1, level + 1)
  {
    LinkTextLoopStep(src, start, lastIndex, pos, level, i);
  }

  /** Nested balanced brackets stay inside the returned text. */
  lemma NestedBracketsKept(s: string)
    requires s == "![a[b]c]("
    ensures ParseLinkText(s, 2) == Some(LinkText("a[b]c", 9))
  {
    NestedScanMatches(s);
    assert Slice(s, 2, 7) == "a[b]c";
    LinkTextLoopStep(s, 2, 6, 6, 1, 7);
    LinkTextLoopStep(s, 2, 4, 4, 2, 5);
    LinkTextLoopStep(s, 2, 2, 2, 1, 3);
    LinkTextLoopStep(s, 2, 0, 2, 0, 1);
  }

  /** One round of the scan: the next match either closes the text or moves
      the scan past it with the level adjusted. */
  lemma LinkTextLoopStep(src: string, start: nat, lastIndex: nat, pos: nat, level: int, i: nat)
    requires pos < |src| && NextMatch(src, lastIndex) == Some(i)
    ensures src[i] == ']' && level == 1 ==>
      LinkTextLoop(src, start, lastIndex, pos, level) == Some(LinkText(Slice(src, start, i), i + 2))
    ensures !(src[i] == ']' && level == 1) ==>
      LinkTextLoop(src, start, lastIndex, pos, level)
        == LinkTextLoop(src, start, MatchedBracket(src, i) + 1, i + 1, StepLevel(MarkerCloses(src), level, i))
  {
  }

  /** The four brackets of the nested example are read one at a time. */
  lemma NestedScanMatches(s: string)
    requires s == "![a[b]c]("
    ensures NextMatch(s, 0) == Some(1) && MatchedBracket(s, 1) == 1 && s[1] == '['
    ensures NextMatch(s, 2) == Some(3) && MatchedBracket(s, 3) == 3 && s[3] == '['
    ensures NextMatch(s, 4) == Some(5) && MatchedBracket(s, 5) == 5 && s[5] == ']'
    ensures NextMatch(s, 6) == Some(7) && MatchedBracket(s, 7) == 7 && s[7] == ']'
  {
    PlainBracketMatch(s, 1);
    PlainBracketMatch(s, 3);
    PlainBracketMatch(s, 5);
    PlainBracketMatch(s, 7);
    NoMatchAtPlain(s, 0);
    NoMatchAtPlain(s, 2);
    NoMatchAtPlain(s, 4);
    NoMatchAtPlain(s, 6);
    assert NextMatch(s, 6) == Some(7);
    assert NextMatch(s, 4) == Some(5);
    assert NextMatch(s, 2) == Some(3);
    assert NextMatch(s, 0) == Some(1);
  }

  /** When nothing matches in [from, i) and i matches, exec finds i. */
  lemma {:induction false} NextMatchAt(s: string, from: nat, i: nat)
    requires from <= i && BracketMatchAt(s, i)
    requires forall j :: from <= j < i ==> !BracketMatchAt(s, j)
    ensures NextMatch(s, from) == Some(i)
    decreases i - from
  {
    if from < i {
      NextMatchAt(s, from + 1, i);
    }
  }

  /** A bracket with no backslash before it is a match of its own. */
  lemma PlainBracketMatch(s: string, i: nat)
    requires i < |s| && IsBracket(s[i]) && (i == 0 || s[i - 1] != '\\')
    ensures BracketMatchAt(s, i) && MatchedBracket(s, i) == i
  {
    assert BackslashRun(s, i) == 0;
  }

  /** No match starts at a character that is neither a backslash nor a bracket. */
  lemma NoMatchAtPlain(s: string, i: nat)
    requires i < |s| && s[i] != '\\' && !IsBracket(s[i])
    ensures !BracketMatchAt(s, i)
  {
    assert BackslashRun(s, i) == 0;
  }

  // ---------------------------------------------------------------------
  // parseLinkHref
  // ---------------------------------------------------------------------

  /** Characters the class [^<>\n\\\x00] excludes. */
  predicate AngleForbidden(c: char)
  {
    c == '<' || c == '>' || c == '\n' || c == '\\' || c == '\0'
  }

  /** First index at or after i holding a forbidden character, or |s|. */
  function AngleStop(s: string, i: nat): (j: nat)
    requires i <= |s|
    ensures i <= j <= |s|
    ensures forall k :: i <= k < j ==> !AngleForbidden(s[k])
    ensures j == |s| || AngleForbidden(s[j])
    decreases |s| - i
  {
    if i < |s| && !AngleForbidden(s[i]) then AngleStop(s, i + 1) else i
  }

  /** /<([^<>\n\\\x00]*)>/ matched at index 0: the index of its `>`. The
      greedy class run stops at the first forbidden character, which must be
      the closing `>`. */
  function AngleMatchAtStart(s: string): Option<nat>
  {
    if |s| > 0 && s[0] == '<' then
      var j := AngleStop(s, 1);
      if j < |s| && s[j] == '>' then Some(j) else None
    else None
  }

  /** s starts with `<`, then characters none of which is forbidden, then `>`. */
  ghost predicate HasAngleHref(s: string)
  {
    |s| > 0 && s[0] == '<' &&
    exists j :: 1 <= j < |s| && s[j] == '>' && forall k :: 1 <= k < j ==> !AngleForbidden(s[k])
  }

  /** s is `<` + h + `>` + something, with no forbidden character in h. */
  ghost predicate StartsWithAngleHref(s: string, h: string)
  {
    |s| >= |h| + 2 && s[0] == '<' && s[1..|h| + 1] == h && s[|h| + 1] == '>' &&
    forall k :: 0 <= k < |h| ==> !AngleForbidden(h[k])
  }

  /** A character that ends the bare form: white space or `)`. */
  predicate IsHrefStop(c: char)
  {
    IsSpace(c) || c == ')'
  }

  /** /\S*(?:\s|\))/ can match starting at i: scanning non-space characters
      from i reaches white space or a `)`. */
  predicate HrefEndMatchAt(s: string, i: nat)
    decreases |s| - i
  {
    i < |s| && (IsHrefStop(s[i]) || HrefEndMatchAt(s, i + 1))
  }

  /** The non-global `rest.match(hrefEndRe)`: index of the leftmost match at
      or after i. */
  function HrefEndSearch(s: string, i: nat): (r: Option<nat>)
    ensures r.Some? ==> i <= r.value && HrefEndMatchAt(s, r.value)
    ensures r.None? ==> forall k :: i <= k ==> !HrefEndMatchAt(s, k)
    decreases |s| - i
  {
    if i >= |s| then None
    else if HrefEndMatchAt(s, i) then Some(i)
    else HrefEndSearch(s, i + 1)
  }

  /** parseLinkHref(src, pos). A non-global `match` reports the leftmost
      match, whose index is 0 exactly when there is a match at 0, so the test
      `m1 && m1.index === 0` is a test for a match at index 0. */
  function ParseLinkHref(src: string, pos: nat): (r: Option<LinkHref>)
    ensures HasAngleHref(SliceFrom(src, pos)) ==>
      r.Some? && StartsWithAngleHref(SliceFrom(src, pos), r.value.href) && r.value.end == pos + |r.value.href| + 3
    ensures !HasAngleHref(SliceFrom(src, pos)) ==>
      (r.Some? <==> exists k :: 0 <= k < |SliceFrom(src, pos)| && IsHrefStop(SliceFrom(src, pos)[k]))
    ensures !HasAngleHref(SliceFrom(src, pos)) && r.Some? ==> r.value == LinkHref([], 0)
  {
    var rest := SliceFrom(src, pos);
    AngleMatchIff(rest);
    match AngleMatchAtStart(rest)
    case Some(j) => Some(LinkHref(rest[1..j], pos + (j + 1) + 1))
    case None =>
      HrefEndAtZero(rest);
      match HrefEndSearch(rest, 0)
      case Some(endPos) => Some(LinkHref(Trim(Slice(src, pos, endPos)), endPos))
      case None => None
  }

  lemma AngleMatchIff(s: string)
    ensures AngleMatchAtStart(s).Some? <==> HasAngleHref(s)
    ensures AngleMatchAtStart(s).Some? ==>
      var j := AngleMatchAtStart(s).value; 1 <= j < |s| && StartsWithAngleHref(s, s[1..j])
  {
    if HasAngleHref(s) {
      var j :| 1 <= j < |s| && s[j] == '>' && forall k :: 1 <= k < j ==> !AngleForbidden(s[k]);
      var stop := AngleStop(s, 1);
      assert stop <= j;
      assert stop == j;
    }
    if AngleMatchAtStart(s).Some? {
      var j := AngleMatchAtStart(s).value;
      assert forall k :: 0 <= k < j - 1 ==> s[1..j][k] == s[k + 1];
    }
  }

  /** The bare-form pattern matches somewhere iff it matches at index 0, iff
      some character is white space or `)`. */
  lemma HrefEndAtZero(s: string)
    ensures (exists k :: 0 <= k < |s| && IsHrefStop(s[k])) ==> HrefEndSearch(s, 0) == Some(0)
    ensures !(exists k :: 0 <= k < |s| && IsHrefStop(s[k])) ==> HrefEndSearch(s, 0) == None
  {
    if exists k :: 0 <= k < |s| && IsHrefStop(s[k]) {
      var k :| 0 <= k < |s| && IsHrefStop(s[k]);
      HrefEndMatchFrom(s, 0, k);
    } else {
      forall i: nat | true ensures !HrefEndMatchAt(s, i) {
        if HrefEndMatchAt(s, i) {
          HrefEndMatchHasStop(s, i);
        }
      }
      HrefEndSearchNone(s, 0);
    }
  }

  lemma {:induction false} HrefEndMatchFrom(s: string, i: nat, k: nat)
    requires i <= k < |s| && IsHrefStop(s[k])
    ensures HrefEndMatchAt(s, i)
    decreases k - i
  {
    if i < k && !IsHrefStop(s[i]) {
      HrefEndMatchFrom(s, i + 1, k);
    }
  }

  lemma {:induction false} HrefEndMatchHasStop(s: string, i: nat)
    requires HrefEndMatchAt(s, i)
    ensures exists k :: i <= k < |s| && IsHrefStop(s[k])
    decreases |s| - i
  {
    if !IsHrefStop(s[i]) {
      HrefEndMatchHasStop(s, i + 1);
    }
  }

  lemma {:induction false} HrefEndSearchNone(s: string, i: nat)
    requires forall k: nat :: !HrefEndMatchAt(s, k)
    ensures HrefEndSearch(s, i) == None
    decreases |s| - i
  {
    if i < |s| {
      HrefEndSearchNone(s, i + 1);
    }
  }

  /** In the bare form the end offset is the match index inside `rest`, which
      is always 0, and the href `src.slice(pos, 0).trim()` is always empty:
      no scheme or content check happens. */
  lemma BareHrefIsEmpty(src: string, pos: nat)
    requires !HasAngleHref(SliceFrom(src, pos))
    requires ParseLinkHref(src, pos).Some?
    ensures ParseLinkHref(src, pos).value.href == [] && ParseLinkHref(src, pos).value.end == 0
  {
  }

  /** The angle form reads back exactly the enclosed destination. */
  lemma AngleHrefRoundTrip(src: string, pos: nat, h: string)
    requires StartsWithAngleHref(SliceFrom(src, pos), h)
    ensures ParseLinkHref(src, pos) == Some(LinkHref(h, pos + |h| + 3))
  {
    var rest := SliceFrom(src, pos);
    AngleStopAtClose(rest, h);
    assert AngleMatchAtStart(rest) == Some(|h| + 1);
    assert rest[1..|h| + 1] == h;
  }

  /** The class run of `<h>` stops at its `>`. */
  lemma AngleStopAtClose(s: string, h: string)
    requires StartsWithAngleHref(s, h)
    ensures AngleStop(s, 1) == |h| + 1
  {
    var j := |h| + 1;
    assert forall k :: 1 <= k < j ==> s[k] == s[1..j][k - 1];
    assert AngleForbidden(s[j]);
  }

  // ---------------------------------------------------------------------
  // parseLinkTitle and titleRe
  // ---------------------------------------------------------------------

  predicate IsQuote(c: char)
  {
    c == '"' || c == '\''
  }

  /** Length of the run of white space starting at i. */
  function SpaceRun(s: string, i: nat): (n: nat)
    requires i <= |s|
    ensures i + n <= |s|
    ensures forall k :: i <= k < i + n ==> IsSpace(s[k])
    ensures i + n == |s| || !IsSpace(s[i + n])
    decreases |s| - i
  {
    if i < |s| && IsSpace(s[i]) then 1 + SpaceRun(s, i + 1) else 0
  }

  /** The body of `"(?:\\"|[^"])*"` (or its single-quote twin, with q the
      quote) run from p under backtracking: `\` followed by q is first taken
      as one escaped unit; if the rest then finds no closing quote, the
      backslash is taken alone and that q closes. Returns the index of the
      closing quote. */
  function CloseQuote(s: string, p: nat, q: char): (r: Option<nat>)
    requires IsQuote(q)
    ensures r.Some? ==> p <= r.value < |s| && s[r.value] == q
    ensures r.Some? ==> QuotesEscaped(s, p, r.value, q)
    ensures r.None? <==> forall x :: p <= x < |s| ==> s[x] != q
    decreases |s| - p
  {
    if p >= |s| then None
    else if s[p] == q then Some(p)
    else if s[p] == '\\' && p + 1 < |s| && s[p + 1] == q then
      match CloseQuote(s, p + 2, q)
      case Some(e) => Some(e)
      case None => Some(p + 1)
    else CloseQuote(s, p + 1, q)
  }

  /** Every q in s[from..to) is escaped: preceded, inside the range, by a
      backslash. */
  ghost predicate QuotesEscaped(s: string, from: nat, to: nat, q: char)
  {
    && (from < to && from < |s| ==> s[from] != q)
    && forall x, y :: from <= x && y == x + 1 && y < to && y < |s| && s[y] == q ==> s[x] == '\\'
  }

  /** x holds a quote that is not preceded by a backslash (p is the position
      right after the opening quote). */
  ghost predicate UnescapedQuote(s: string, p: nat, q: char, x: int)
  {
    p <= x < |s| && s[x] == q && (x == p || s[x - 1] != '\\')
  }

  ghost predicate EscapedQuote(s: string, p: nat, q: char, x: int)
  {
    p < x < |s| && s[x] == q && s[x - 1] == '\\'
  }

  /** The title closes at the first quote not preceded by a backslash. */
  lemma {:induction false} CloseQuoteFirstUnescaped(s: string, p: nat, q: char, e: nat)
    requires IsQuote(q)
    requires UnescapedQuote(s, p, q, e)
    requires forall x :: p <= x < e ==> !UnescapedQuote(s, p, q, x)
    ensures CloseQuote(s, p, q) == Some(e)
    decreases |s| - p
  {
    if s[p] == q {
      assert UnescapedQuote(s, p, q, p);
    } else {
      var n := if s[p] == '\\' && p + 1 < |s| && s[p + 1] == q then p + 2 else p + 1;
      assert e >= n;
      assert UnescapedQuote(s, n, q, e);
      forall x | n <= x < e ensures !UnescapedQuote(s, n, q, x) {
        assert !UnescapedQuote(s, p, q, x);
      }
      CloseQuoteFirstUnescaped(s, n, q, e);
    }
  }

  /** With no unescaped quote, backtracking closes at the last escaped one. */
  lemma {:induction false} CloseQuoteLastEscaped(s: string, p: nat, q: char, e: nat)
    requires IsQuote(q)
    requires forall x :: p <= x < |s| ==> !UnescapedQuote(s, p, q, x)
    requires EscapedQuote(s, p, q, e)
    requires forall x :: e < x < |s| ==> s[x] != q
    ensures CloseQuote(s, p, q) == Some(e)
    decreases |s| - p
  {
    assert !UnescapedQuote(s, p, q, p);
    if s[p] == '\\' && p + 1 < |s| && s[p + 1] == q && e == p + 1 {
      assert CloseQuote(s, p + 2, q) == None;
    } else {
      var n := if s[p] == '\\' && p + 1 < |s| && s[p + 1] == q then p + 2 else p + 1;
      assert !UnescapedQuote(s, p, q, p + 1);
      assert e > n;
      assert EscapedQuote(s, n, q, e);
      forall x | n <= x < |s| ensures !UnescapedQuote(s, n, q, x) {
        assert !UnescapedQuote(s, p, q, x);
      }
      CloseQuoteLastEscaped(s, n, q, e);
    }
  }

  /** The rest begins with white space and then a quote that occurs again
      later: exactly the texts titleRe matches at index 0. */
  ghost predicate TitleOpens(rest: string)
  {
    var w := SpaceRun(rest, 0);
    0 < w < |rest| && IsQuote(rest[w]) && exists x :: w < x < |rest| && rest[x] == rest[w]
  }

  /** A quoted string, quotes kept, whose inner quotes of the same kind are
      all escaped. */
  ghost predicate QuotedTitle(t: string)
  {
    && |t| >= 2 && IsQuote(t[0]) && t[|t| - 1] == t[0]
    && QuotesEscaped(t, 1, |t| - 1, t[0])
  }

  /** t is a title that sits right after the white space run of rest (the
      text from pos), and its end is one past it. */
  ghost predicate TitleAt(rest: string, pos: nat, t: LinkTitle)
  {
    var w := SpaceRun(rest, 0);
    && QuotedTitle(t.title)
    && 0 < w && w + |t.title| <= |rest| && rest[w..w + |t.title|] == t.title
    && t.end == pos + w + |t.title| + 1
  }

  /** parseLinkTitle(src, pos): titleRe must match at index 0 of the rest, so
      the rest starts with white space, then a quoted string. Backtracking
      `\s+` to a shorter run cannot help, since the next character would be
      white space rather than a quote. */
  function ParseLinkTitle(src: string, pos: nat): (r: Option<LinkTitle>)
    ensures r.None? <==> !TitleOpens(SliceFrom(src, pos))
    ensures r.Some? ==> TitleAt(SliceFrom(src, pos), pos, r.value)
  {
    var rest := SliceFrom(src, pos);
    var w := SpaceRun(rest, 0);
    if 0 < w < |rest| && IsQuote(rest[w]) then
      match CloseQuote(rest, w + 1, rest[w])
      case Some(e) =>
        TitleFound(rest, pos, w, e);
        Some(LinkTitle(rest[w..e + 1], pos + (e + 1) + 1))
      case None => None
    else None
  }

  /** The slice from an opening quote to the quote CloseQuote found is the
      title parseLinkTitle returns. */
  lemma TitleFound(rest: string, pos: nat, w: nat, e: nat)
    requires 0 < w < |rest| && SpaceRun(rest, 0) == w && IsQuote(rest[w])
    requires CloseQuote(rest, w + 1, rest[w]) == Some(e)
    ensures TitleOpens(rest)
    ensures TitleAt(rest, pos, LinkTitle(rest[w..e + 1], pos + (e + 1) + 1))
  {
    assert w < e < |rest| && rest[e] == rest[w];
    assert QuotesEscaped(rest, w + 1, e, rest[w]);
    TitleSliceAt(rest, pos, w, e);
  }

  /** The quoted slice after the white space run is a title of rest. */
  lemma TitleSliceAt(rest: string, pos: nat, w: nat, e: nat)
    requires 0 < w < e < |rest| && SpaceRun(rest, 0) == w
    requires IsQuote(rest[w]) && rest[e] == rest[w]
    requires QuotesEscaped(rest, w + 1, e, rest[w])
    ensures TitleOpens(rest)
    ensures TitleAt(rest, pos, LinkTitle(rest[w..e + 1], pos + (e + 1) + 1))
  {
    QuotedSlice(rest, w, e);
    var t := rest[w..e + 1];
    assert rest[w..w + |t|] == t;
  }

  /** From an opening quote to a closing one with every quote between them
      escaped is a quoted title. */
  lemma QuotedSlice(rest: string, w: nat, e: nat)
    requires w < e < |rest| && IsQuote(rest[w]) && rest[e] == rest[w]
    requires QuotesEscaped(rest, w + 1, e, rest[w])
    ensures QuotedTitle(rest[w..e + 1])
  {
    QuotesEscapedSlice(rest, w, e + 1, w + 1, e, rest[w]);
  }

  /** Cutting a window out of s keeps the escapes inside it, shifted. */
  lemma QuotesEscapedSlice(s: string, w: nat, c: nat, from: nat, to: nat, q: char)
    requires w <= from <= to < c <= |s|
    requires QuotesEscaped(s, from, to, q)
    ensures QuotesEscaped(s[w..c], from - w, to - w, q)
  {
    var t := s[w..c];
    forall x, y | from - w <= x && y == x + 1 && y < to - w && y < |t| && t[y] == q ensures t[x] == '\\' {
      assert t[y] == s[w + y] && t[x] == s[w + x];
    }
    if from < to {
      assert t[from - w] == s[from];
    }
  }

  /** A title written as white space, a quote, a body in which every such
      quote is escaped and which does not end in a backslash, and the same
      quote, reads back with both quotes kept and the body untouched. */
  lemma TitleRoundTrip(src: string, pos: nat, ws: string, q: char, body: string, tail: string)
    requires |ws| > 0 && IsBlank(ws) && IsQuote(q)
    requires SliceFrom(src, pos) == ws + [q] + body + [q] + tail
    requires QuotesEscaped(body, 0, |body|, q)
    requires |body| == 0 || body[|body| - 1] != '\\'
    ensures ParseLinkTitle(src, pos) == Some(LinkTitle([q] + body + [q], pos + |ws| + |body| + 3))
  {
    var rest := SliceFrom(src, pos);
    var w := |ws|;
    var p := w + 1;
    var e := p + |body|;
    TitleLayout(rest, ws, q, body, tail);
    SpaceRunStops(rest, 0, w);
    BodyQuotesEscaped(rest, p, q, e, body);
    CloseQuoteFirstUnescaped(rest, p, q, e);
    ParseLinkTitleFound(src, pos, w, e);
    assert rest[w..e + 1] == [q] + body + [q];
    assert LinkTitle(rest[w..e + 1], pos + e + 2) == LinkTitle([q] + body + [q], pos + |ws| + |body| + 3);
  }

  /** The title scan once the white space run and the closing quote are known. */
  lemma ParseLinkTitleFound(src: string, pos: nat, w: nat, e: nat)
    requires var rest := SliceFrom(src, pos);
      && 0 < w < |rest| && SpaceRun(rest, 0) == w && IsQuote(rest[w])
      && CloseQuote(rest, w + 1, rest[w]) == Some(e)
    ensures ParseLinkTitle(src, pos) == Some(LinkTitle(SliceFrom(src, pos)[w..e + 1], pos + e + 2))
  {
  }

  /** Where the pieces of a written title sit in the text after the href. */
  lemma TitleLayout(rest: string, ws: string, q: char, body: string, tail: string)
    requires rest == ws + [q] + body + [q] + tail
    ensures forall k :: 0 <= k < |ws| ==> rest[k] == ws[k]
    ensures rest[|ws|] == q && rest[|ws| + 1 + |body|] == q
    ensures rest[|ws| + 1..|ws| + 1 + |body|] == body
    ensures rest[|ws|..|ws| + |body| + 2] == [q] + body + [q]
  {
  }

  /** The quotes of a body placed at p are all escaped, and the quote after it
      is not. */
  lemma BodyQuotesEscaped(s: string, p: nat, q: char, e: nat, body: string)
    requires 0 < p <= e < |s| && s[p..e] == body && s[e] == q && s[p - 1] == q
    requires QuotesEscaped(body, 0, |body|, q)
    requires |body| == 0 || body[|body| - 1] != '\\'
    ensures UnescapedQuote(s, p, q, e)
    ensures forall x :: p <= x < e ==> !UnescapedQuote(s, p, q, x)
  {
    forall x | p <= x < e ensures !UnescapedQuote(s, p, q, x) {
      assert s[x] == body[x - p];
      if s[x] == q {
        assert s[x - 1] == body[x - p - 1];
      }
    }
    if e > p {
      assert s[e - 1] == body[|body| - 1];
    }
  }

  lemma {:induction false} SpaceRunStops(s: string, i: nat, j: nat)
    requires i <= j < |s|
    requires forall k :: i <= k < j ==> IsSpace(s[k])
    requires !IsSpace(s[j])
    ensures SpaceRun(s, i) == j - i
    decreases j - i
  {
    if i < j {
      SpaceRunStops(s, i + 1, j);
    }
  }
}
