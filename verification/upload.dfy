/** The text arithmetic of pasting or dropping image files: the blank line
    prepared before the images, the filter that keeps image files, the
    placeholder text inserted for each file while it uploads, and the
    substitution of the uploaded address into the placeholder once the
    upload is done. Documents are strings whose lines are separated by
    `\n`; positions are offsets into them. */
module Upload {
  import opened Wrappers
  import opened JsString
  import opened ParseImage
  import opened LinkTextFix

  // ---------------------------------------------------------------------
  // Lines
  // ---------------------------------------------------------------------

  /** Start of the line holding position p: just after the last `\n` before p. */
  function LineStart(doc: string, p: nat): (r: nat)
    requires p <= |doc|
    ensures r <= p
    ensures r == 0 || doc[r - 1] == '\n'
  {
    if p == 0 || doc[p - 1] == '\n' then p else LineStart(doc, p - 1)
  }

  /** End of the line holding position p: the first `\n` at or after p, or the end. */
  function LineEnd(doc: string, p: nat): (r: nat)
    requires p <= |doc|
    ensures p <= r <= |doc|
    ensures r == |doc| || doc[r] == '\n'
    decreases |doc| - p
  {
    if p == |doc| || doc[p] == '\n' then p else LineEnd(doc, p + 1)
  }

  /** No `\n` lies between p and the end of its line. */
  lemma {:induction false} LineEndNoNewline(doc: string, p: nat, k: nat)
    requires p <= |doc| && p <= k < LineEnd(doc, p)
    ensures doc[k] != '\n'
    decreases k - p
  {
    if p < k {
      LineEndNoNewline(doc, p + 1, k);
    }
  }

  /** A line of the document: [from, to), without its `\n`. */
  datatype Line = Line(from: nat, to: nat)

  /** `doc.lineAt(p)`. */
  function LineAt(doc: string, p: nat): (l: Line)
    requires p <= |doc|
    ensures l.from <= p <= l.to <= |doc|
    ensures l.from == 0 || doc[l.from - 1] == '\n'
  {
    Line(LineStart(doc, p), LineEnd(doc, p))
  }

  function LineText(doc: string, l: Line): string
    requires l.from <= l.to <= |doc|
  {
    doc[l.from..l.to]
  }

  /** `doc.line(line.number - 1)` for a line that is not the first: the line
      ending at the `\n` just before it. */
  function PrevLine(doc: string, l: Line): (r: Line)
    requires 0 < l.from <= l.to <= |doc| && doc[l.from - 1] == '\n'
    ensures r.to == l.from - 1
    ensures r.from <= r.to
  {
    LineAt(doc, l.from - 1)
  }

  /** The line holding p is blank (whitespace only). */
  predicate CurBlank(doc: string, p: nat)
    requires p <= |doc|
  {
    IsBlank(LineText(doc, LineAt(doc, p)))
  }

  /** The line before the one holding p is blank. */
  predicate PrevBlank(doc: string, p: nat)
    requires p <= |doc| && LineAt(doc, p).from != 0
  {
    IsBlank(LineText(doc, PrevLine(doc, LineAt(doc, p))))
  }

  /** The line before the one holding p exists and is blank. */
  predicate BlankLineBefore(doc: string, p: nat)
    requires p <= |doc|
  {
    LineAt(doc, p).from != 0 && PrevBlank(doc, p)
  }

  // ---------------------------------------------------------------------
  // prepareImageBlock
  // ---------------------------------------------------------------------

  /** An insertion and the cursor position after it. */
  datatype Edit = Edit(at: nat, insert: string, cursor: nat)

  /** The outcome of prepareImageBlock: its return value and the edit it
      dispatched, if any. */
  datatype Prepared = Prepared(ok: bool, edit: Option<Edit>)

  function ApplyEdit(doc: string, e: Edit): string
    requires e.at <= |doc|
  {
    doc[..e.at] + e.insert + doc[e.at..]
  }

  /** The document and the selection start after prepareImageBlock; without
      an edit the selection stays where it was. */
  function AfterPrepare(doc: string, from: nat, r: Prepared): (string, nat)
    requires from <= |doc|
    requires r.edit.Some? ==> r.edit.value.at <= |doc|
  {
    match r.edit
    case None => (doc, from)
    case Some(e) => (ApplyEdit(doc, e), e.cursor)
  }

  /** Dispatch of a non-empty insert at the end of line l, cursor after it. */
  function Place(l: Line, insert: string): Prepared
  {
    if |insert| == 0 then Prepared(true, None)
    else Prepared(true, Some(Edit(l.to, insert, l.to + |insert|)))
  }

  /** The newlines inserted as written: one for a current line with text and
      one for a previous line with text. */
  function PrepareInsert(curBlank: bool, prevBlank: bool): string
  {
    (if !curBlank then "\n" else "") + (if !prevBlank then "\n" else "")
  }

  /** prepareImageBlock, as written, for a selection whose first range starts
      at `from`. */
  function PrepareImageBlock(doc: string, from: nat): (r: Prepared)
    requires from <= |doc|
    ensures r.ok <==> LineAt(doc, from).from != 0
    ensures r.edit.None? <==> !r.ok || (CurBlank(doc, from) && PrevBlank(doc, from))
    ensures r.edit.Some? ==>
      var l := LineAt(doc, from);
      && r.edit.value.at == l.to
      && |r.edit.value.insert| == (if CurBlank(doc, from) then 0 else 1) + (if PrevBlank(doc, from) then 0 else 1)
      && (forall k :: 0 <= k < |r.edit.value.insert| ==> r.edit.value.insert[k] == '\n')
      && r.edit.value.cursor == l.to + |r.edit.value.insert|
  {
    var l := LineAt(doc, from);
    if l.from != 0 then Place(l, PrepareInsert(CurBlank(doc, from), PrevBlank(doc, from)))
    else Prepared(false, None)
  }

  /** Inserting nothing, one `\n` or two at the end of the line of `from`:
      the line before the cursor's line is blank after two; after one it is
      the line of `from`; after none it is the line before that one. */
  lemma BlankLineAfterPlace(doc: string, from: nat, insert: string)
    requires from <= |doc| && LineAt(doc, from).from != 0
    requires insert == "" || insert == "\n" || insert == "\n\n"
    ensures var after := AfterPrepare(doc, from, Place(LineAt(doc, from), insert));
      && after.1 <= |after.0|
      && (BlankLineBefore(after.0, after.1) <==>
           || insert == "\n\n"
           || (insert == "\n" && CurBlank(doc, from))
           || (insert == "" && PrevBlank(doc, from)))
  {
    if |insert| == 2 {
      PlaceTwo(doc, from);
    } else if |insert| == 1 {
      PlaceOne(doc, from);
    }
  }

  lemma PlaceTwo(doc: string, from: nat)
    requires from <= |doc| && LineAt(doc, from).from != 0
    ensures var after := AfterPrepare(doc, from, Place(LineAt(doc, from), "\n\n"));
      after.1 <= |after.0| && BlankLineBefore(after.0, after.1)
  {
    var l := LineAt(doc, from);
    PlaceAfter(doc, from, "\n\n");
    TwoNewlinesLeaveBlankLine(doc, l.to);
  }

  /** A non-empty insert lands at the end of the line of `from`, the cursor after it. */
  lemma PlaceAfter(doc: string, from: nat, insert: string)
    requires from <= |doc| && |insert| > 0
    ensures var to := LineAt(doc, from).to;
      AfterPrepare(doc, from, Place(LineAt(doc, from), insert)) == (doc[..to] + insert + doc[to..], to + |insert|)
  {
  }

  /** After one `\n` at the end of the line of `from`, the line before the cursor is
      blank exactly when the line of `from` is. */
  lemma PlaceOne(doc: string, from: nat)
    requires from <= |doc| && LineAt(doc, from).from != 0
    ensures var after := AfterPrepare(doc, from, Place(LineAt(doc, from), "\n"));
      after.1 <= |after.0| && (BlankLineBefore(after.0, after.1) <==> CurBlank(doc, from))
  {
    PlaceAfter(doc, from, "\n");
    OneNewlineAfterLine(doc, from, LineAt(doc, from).to);
  }

  /** As written, a blank line ends up before the cursor's line except when
      the current line has text and the line before it is blank: then only
      one `\n` is inserted and the line before the cursor is the current
      line, so the images join its paragraph. */
  lemma PrepareBlankLineBeforeIff(doc: string, from: nat)
    requires from <= |doc| && LineAt(doc, from).from != 0
    ensures var after := AfterPrepare(doc, from, PrepareImageBlock(doc, from));
      && after.1 <= |after.0|
      && (BlankLineBefore(after.0, after.1) <==> !(!CurBlank(doc, from) && PrevBlank(doc, from)))
  {
    BlankLineAfterPlace(doc, from, PrepareInsert(CurBlank(doc, from), PrevBlank(doc, from)));
  }

  /** The corrected rule: two `\n` after a line with text, so that an empty
      line separates it from the images; after a blank line, one `\n` when
      the line before it has text; nothing otherwise. */
  function IntendedInsert(curBlank: bool, prevBlank: bool): string
  {
    if !curBlank then "\n\n" else if !prevBlank then "\n" else ""
  }

  /** prepareImageBlock with the corrected rule. */
  function PrepareImageBlockIntended(doc: string, from: nat): (r: Prepared)
    requires from <= |doc|
    ensures r.ok <==> LineAt(doc, from).from != 0
    ensures r.edit.Some? ==> r.edit.value.at == LineAt(doc, from).to
  {
    var l := LineAt(doc, from);
    if l.from != 0 then Place(l, IntendedInsert(CurBlank(doc, from), PrevBlank(doc, from)))
    else Prepared(false, None)
  }

  /** After the corrected preparation, on any line but the first, the line
      before the cursor's line is blank. */
  lemma PrepareIntendedLeavesBlankLine(doc: string, from: nat)
    requires from <= |doc| && LineAt(doc, from).from != 0
    ensures var after := AfterPrepare(doc, from, PrepareImageBlockIntended(doc, from));
      after.1 <= |after.0| && BlankLineBefore(after.0, after.1)
  {
    BlankLineAfterPlace(doc, from, IntendedInsert(CurBlank(doc, from), PrevBlank(doc, from)));
  }

  /** `\n\n` inserted at the end of a line: the cursor after them starts a
      line, and the line before it is the empty one between them. */
  lemma TwoNewlinesLeaveBlankLine(doc: string, to: nat)
    requires to <= |doc|
    ensures var d := doc[..to] + "\n\n" + doc[to..];
      to + 2 <= |d| && BlankLineBefore(d, to + 2)
  {
    var d := doc[..to] + "\n\n" + doc[to..];
    assert d[to] == '\n' && d[to + 1] == '\n';
    assert LineStart(d, to + 2) == to + 2;
    assert LineStart(d, to + 1) == to + 1;
    assert LineEnd(d, to + 1) == to + 1;
    assert LineText(d, PrevLine(d, LineAt(d, to + 2))) == [];
  }

  /** `\n` inserted at the end of the line holding `from`: the cursor after it
      starts a line, and the line before it is the line of `from`, with the
      same text. */
  lemma OneNewlineAfterLine(doc: string, from: nat, to: nat)
    requires from <= |doc| && to == LineAt(doc, from).to
    ensures var d := doc[..to] + "\n" + doc[to..];
      && to + 1 <= |d|
      && LineAt(d, to + 1).from == to + 1
      && PrevLine(d, LineAt(d, to + 1)) == LineAt(doc, from)
      && LineText(d, LineAt(doc, from)) == LineText(doc, LineAt(doc, from))
  {
    var d := doc[..to] + "\n" + doc[to..];
    var l := LineAt(doc, from);
    assert d[to] == '\n';
    assert LineStart(d, to + 1) == to + 1;
    assert LineEnd(d, to) == to;
    assert d[..to] == doc[..to];
    LineStartSamePrefix(doc, d, to);
    LineStartWithin(doc, from, to);
    assert d[l.from..l.to] == doc[l.from..l.to];
  }

  /** The line start of p reads only the text before p. */
  lemma {:induction false} LineStartSamePrefix(a: string, b: string, p: nat)
    requires p <= |a| && p <= |b| && a[..p] == b[..p]
    ensures LineStart(a, p) == LineStart(b, p)
    decreases p
  {
    if p > 0 {
      assert a[p - 1] == a[..p][p - 1] == b[..p][p - 1] == b[p - 1];
      if a[p - 1] != '\n' {
        assert a[..p - 1] == a[..p][..p - 1];
        assert b[..p - 1] == b[..p][..p - 1];
        LineStartSamePrefix(a, b, p - 1);
      }
    }
  }

  /** Every position of a line between `from` and its end has the same start. */
  lemma {:induction false} LineStartWithin(doc: string, from: nat, p: nat)
    requires from <= |doc| && from <= p <= LineEnd(doc, from)
    ensures LineStart(doc, p) == LineStart(doc, from)
    decreases p - from
  {
    if p > from {
      LineEndNoNewline(doc, from, p - 1);
      LineStartWithin(doc, from, p - 1);
    }
  }

  /** On `a\n\nb` with the cursor at the end, the line before the cursor is
      blank, but the text line `b` gets a single `\n` and the cursor lands
      right after it, so the line before the cursor is `b`. */
  lemma PrepareMissesBlankLine(doc: string)
    requires doc == "a\n\nb"
    ensures !CurBlank(doc, 4) && BlankLineBefore(doc, 4)
    ensures var after := AfterPrepare(doc, 4, PrepareImageBlock(doc, 4));
      after.0 == "a\n\nb\n" && after.1 == 5 && !BlankLineBefore(after.0, after.1)
  {
    assert LineStart(doc, 4) == 3;
    assert LineEnd(doc, 4) == 4;
    assert LineStart(doc, 2) == 2;
    assert LineEnd(doc, 2) == 2;
    assert LineText(doc, LineAt(doc, 4)) == "b";
    assert !IsSpace('b');
    PrepareBlankLineBeforeIff(doc, 4);
    assert ApplyEdit(doc, Edit(4, "\n", 5)) == "a\n\nb\n";
  }

  // ---------------------------------------------------------------------
  // uploadImages: the image filter
  // ---------------------------------------------------------------------

  /** A dropped or pasted file: its name and its MIME type. */
  datatype File = File(name: string, mime: string)

  /** `/^image\//.test(type)`. */
  predicate IsImageType(mime: string)
  {
    |mime| >= 6 && mime[..6] == "image/"
  }

  /** The image files of a list, in order: the reference for the filter loop. */
  function ImagesOf(files: seq<File>): (r: seq<File>)
    ensures |r| <= |files|
    ensures forall k :: 0 <= k < |r| ==> IsImageType(r[k].mime)
  {
    if |files| == 0 then []
    else ImagesOf(files[..|files| - 1]) + (if IsImageType(files[|files| - 1].mime) then [files[|files| - 1]] else [])
  }

  /** Filtering a concatenation filters each part. */
  lemma {:induction false} ImagesOfAppend(a: seq<File>, b: seq<File>)
    ensures ImagesOf(a + b) == ImagesOf(a) + ImagesOf(b)
    decreases |b|
  {
    if |b| == 0 {
      assert a + b == a;
    } else {
      var b' := b[..|b| - 1];
      assert (a + b)[..|a + b| - 1] == a + b';
      ImagesOfAppend(a, b');
    }
  }

  /** A file is kept exactly when it is in the list and has an image type. */
  lemma {:induction false} ImagesOfMembers(files: seq<File>, f: File)
    ensures f in ImagesOf(files) <==> f in files && IsImageType(f.mime)
    decreases |files|
  {
    if |files| > 0 {
      var init := files[..|files| - 1];
      ImagesOfMembers(init, f);
      assert files == init + [files[|files| - 1]];
    }
  }

  /** The filter loop of uploadImages, with its return value: true exactly
      when at least one image file was kept. */
  method UploadImages(files: seq<File>) returns (images: seq<File>, ok: bool)
    ensures images == ImagesOf(files)
    ensures ok <==> |images| > 0
  {
    images := [];
    var i := 0;
    while i < |files|
      invariant 0 <= i <= |files|
      invariant images == ImagesOf(files[..i])
    {
      if IsImageType(files[i].mime) {
        images := images + [files[i]];
      }
      assert files[..i + 1][..i] == files[..i];
      i := i + 1;
    }
    assert files[..|files|] == files;
    ok := |images| > 0;
  }

  // ---------------------------------------------------------------------
  // handleUpload: placeholders and their substitution
  // ---------------------------------------------------------------------

  /** `![name](<url>)`. */
  function ImageLink(name: string, url: string): string
  {
    "![" + name + "](<" + url + ">)"
  }

  /** What handleUpload inserts for file `index` of `count`: a space before
      every file but the first, and a blank line after the last. */
  function Replacement(placeholder: string, index: nat, count: nat): string
  {
    (if index != 0 then " " else "") + placeholder + (if index == count - 1 then "\n\n" else "")
  }

  /** The replacements of the first n placeholders, in insertion order. */
  function Replacements(placeholders: seq<string>, n: nat): string
    requires n <= |placeholders|
  {
    if n == 0 then ""
    else Replacements(placeholders, n - 1) + Replacement(placeholders[n - 1], n - 1, |placeholders|)
  }

  /** Before the last file the inserted text is the placeholders joined by
      single spaces. */
  lemma {:induction false} ReplacementsPrefix(placeholders: seq<string>, n: nat)
    requires 0 < n < |placeholders|
    ensures Replacements(placeholders, n) == Join(placeholders[..n], ' ')
    decreases n
  {
    if n == 1 {
      assert placeholders[..1] == [placeholders[0]];
    } else {
      ReplacementsPrefix(placeholders, n - 1);
      InitLast(placeholders[..n]);
      assert placeholders[..n][..n - 1] == placeholders[..n - 1];
      JoinSnoc(placeholders[..n - 1], placeholders[n - 1], ' ');
    }
  }

  /** All the inserted text together is the placeholders joined by single
      spaces, then a blank line. */
  lemma ReplacementsJoin(placeholders: seq<string>)
    requires |placeholders| > 0
    ensures Replacements(placeholders, |placeholders|) == Join(placeholders, ' ') + "\n\n"
  {
    var n := |placeholders|;
    if n == 1 {
      ReplacementsJoinOne(placeholders);
    } else {
      ReplacementsJoinMore(placeholders);
    }
  }

  lemma ReplacementsJoinOne(placeholders: seq<string>)
    requires |placeholders| == 1
    ensures Replacements(placeholders, 1) == Join(placeholders, ' ') + "\n\n"
  {
    JoinSingle(placeholders, ' ');
    assert Replacements(placeholders, 1) == Replacements(placeholders, 0) + Replacement(placeholders[0], 0, 1);
  }

  lemma ReplacementsJoinMore(placeholders: seq<string>)
    requires |placeholders| > 1
    ensures Replacements(placeholders, |placeholders|) == Join(placeholders, ' ') + "\n\n"
  {
    var n := |placeholders|;
    var last := placeholders[n - 1];
    var init := placeholders[..n - 1];
    ReplacementsLast(placeholders);
    ReplacementsPrefix(placeholders, n - 1);
    JoinSnoc(init, last, ' ');
    InitLast(placeholders);
    SpacedThenBlank(Join(init, ' '), last);
  }

  /** The last file's insert is a space, its placeholder and a blank line. */
  lemma ReplacementsLast(placeholders: seq<string>)
    requires |placeholders| > 1
    ensures var n := |placeholders|;
      Replacements(placeholders, n) == Replacements(placeholders, n - 1) + (" " + placeholders[n - 1] + "\n\n")
  {
  }

  lemma SpacedThenBlank(a: string, b: string)
    ensures a + (" " + b + "\n\n") == a + [' '] + b + "\n\n"
  {
  }

  /** A non-empty list is its first elements and then its last. */
  lemma InitLast<T>(s: seq<T>)
    requires |s| > 0
    ensures s == s[..|s| - 1] + [s[|s| - 1]]
  {
  }

  /** The placeholder and the final link differ only inside the angle brackets. */
  lemma ImageLinkDiffersOnlyInHref(name: string, preview: string, url: string)
    ensures var pre := "![" + name + "](<";
      && ImageLink(name, preview) == pre + preview + ">)"
      && ImageLink(name, url) == pre + url + ">)"
  {
  }

  /** A syntax node of the tree taken when the upload finished. */
  datatype NodeSpan = NodeSpan(name: string, from: nat, to: nat)

  /** What the substitution leaves behind: the document when the walk
      stopped, and the error that stopped it, if any. Each dispatch commits
      before the next node is visited, so a failing change keeps the
      replacements made before it. */
  datatype Substituted = Substituted(doc: string, error: Option<string>)

  /** The error a change with an invalid range throws. */
  const InvalidRange := "RangeError: Invalid change range"

  /** The substitution after the upload: every `Image` node of the tree
      taken at that moment whose text in the current document is exactly the
      placeholder is replaced by the final link. The spans come from that
      one tree while the document is re-read after each replacement; a
      change whose span does not lie inside the document throws, which ends
      the walk. */
  function Substitute(doc: string, nodes: seq<NodeSpan>, placeholder: string, target: string): Substituted
    decreases |nodes|
  {
    if |nodes| == 0 then Substituted(doc, None)
    else
      var n := nodes[0];
      if n.name == "Image" && Slice(doc, n.from, n.to) == placeholder then
        if n.from <= n.to <= |doc| then
          Substitute(doc[..n.from] + target + doc[n.to..], nodes[1..], placeholder, target)
        else Substituted(doc, Some(InvalidRange))
      else Substitute(doc, nodes[1..], placeholder, target)
  }

  /** An `Image` node whose text is the placeholder. */
  ghost predicate MatchesPlaceholder(doc: string, n: NodeSpan, placeholder: string)
  {
    n.name == "Image" && Slice(doc, n.from, n.to) == placeholder
  }

  /** Node m is the first node whose text is the placeholder. */
  ghost predicate FirstMatch(doc: string, nodes: seq<NodeSpan>, m: int, placeholder: string)
  {
    && 0 <= m < |nodes| && MatchesPlaceholder(doc, nodes[m], placeholder)
    && forall k :: 0 <= k < m ==> !MatchesPlaceholder(doc, nodes[k], placeholder)
  }

  /** The document with the span of n replaced by the final link. */
  function Replaced(doc: string, n: NodeSpan, target: string): string
    requires n.from <= n.to <= |doc|
  {
    doc[..n.from] + target + doc[n.to..]
  }

  /** When no node's text is the placeholder, the document is unchanged and
      nothing fails. */
  lemma {:induction false} SubstituteNoMatch(doc: string, nodes: seq<NodeSpan>, placeholder: string, target: string)
    requires forall k :: 0 <= k < |nodes| ==> !MatchesPlaceholder(doc, nodes[k], placeholder)
    ensures Substitute(doc, nodes, placeholder, target) == Substituted(doc, None)
    decreases |nodes|
  {
    if |nodes| > 0 {
      assert !MatchesPlaceholder(doc, nodes[0], placeholder);
      SubstituteNoMatch(doc, nodes[1..], placeholder, target);
    }
  }

  /** The nodes before the first match are passed over, and a first match
      inside the document is replaced before the walk goes on with the nodes
      after it, on the new document. */
  lemma {:induction false} SubstituteSkipTo(doc: string, nodes: seq<NodeSpan>, m: nat, placeholder: string, target: string)
    requires FirstMatch(doc, nodes, m, placeholder)
    requires nodes[m].from <= nodes[m].to <= |doc|
    ensures Substitute(doc, nodes, placeholder, target)
      == Substitute(Replaced(doc, nodes[m], target), nodes[m + 1..], placeholder, target)
    decreases m
  {
    if m > 0 {
      assert !MatchesPlaceholder(doc, nodes[0], placeholder);
      assert forall k :: 0 <= k < |nodes[1..]| ==> nodes[1..][k] == nodes[k + 1];
      assert nodes[1..][m - 1 + 1..] == nodes[m + 1..];
      SubstituteSkipTo(doc, nodes[1..], m - 1, placeholder, target);
    }
  }

  /** A first match whose span does not lie inside the document stops the
      walk with the range error, and the document is the one the walk had
      reached: the replacements made before it stay. */
  lemma {:induction false} SubstituteStopsAt(doc: string, nodes: seq<NodeSpan>, m: nat, placeholder: string, target: string)
    requires FirstMatch(doc, nodes, m, placeholder)
    requires !(nodes[m].from <= nodes[m].to <= |doc|)
    ensures Substitute(doc, nodes, placeholder, target) == Substituted(doc, Some(InvalidRange))
    decreases m
  {
    if m > 0 {
      assert !MatchesPlaceholder(doc, nodes[0], placeholder);
      assert forall k :: 0 <= k < |nodes[1..]| ==> nodes[1..][k] == nodes[k + 1];
      SubstituteStopsAt(doc, nodes[1..], m - 1, placeholder, target);
    }
  }

  /** One matching node, and no node after it matches in the new text: the
      result is the old text with that span replaced by the final link. */
  lemma SubstituteOne(doc: string, nodes: seq<NodeSpan>, m: nat, placeholder: string, target: string)
    requires FirstMatch(doc, nodes, m, placeholder)
    requires nodes[m].from <= nodes[m].to <= |doc|
    requires forall k :: m < k < |nodes| ==> !MatchesPlaceholder(Replaced(doc, nodes[m], target), nodes[k], placeholder)
    ensures Substitute(doc, nodes, placeholder, target) == Substituted(Replaced(doc, nodes[m], target), None)
  {
    var d := Replaced(doc, nodes[m], target);
    SubstituteSkipTo(doc, nodes, m, placeholder, target);
    var rest := nodes[m + 1..];
    assert forall k :: 0 <= k < |rest| ==> rest[k] == nodes[m + 1 + k];
    SubstituteNoMatch(d, rest, placeholder, target);
  }

  /** Two stale spans: the first replacement shortens the document, the
      second span then reads the placeholder again but reaches past the end.
      The change throws and the first replacement stays. */
  lemma SubstituteKeepsEarlier(doc: string, nodes: seq<NodeSpan>)
    requires doc == "abab" && nodes == [NodeSpan("Image", 0, 2), NodeSpan("Image", 1, 4)]
    ensures Substitute(doc, nodes, "ab", "x") == Substituted("xab", Some(InvalidRange))
  {
    assert MatchesPlaceholder(doc, nodes[0], "ab") by { assert Slice(doc, 0, 2) == doc[0..2] == "ab"; }
    SubstituteSkipTo(doc, nodes, 0, "ab", "x");
    var d := Replaced(doc, nodes[0], "x");
    assert d == "xab";
    var rest := nodes[1..];
    assert rest == [NodeSpan("Image", 1, 4)];
    assert MatchesPlaceholder(d, rest[0], "ab") by { assert Slice(d, 1, 4) == d[1..3] == "ab"; }
    SubstituteStopsAt(d, rest, 0, "ab", "x");
  }

  /** The placeholder reads back through the link scanners: with a name free
      of brackets and backslashes, the text scan at 2 gives the name and ends
      where the destination starts, and the destination scan there gives the
      preview address, ending one past the closing parenthesis. */
  lemma PlaceholderParsesBack(p: string, name: string, url: string)
    requires p == ImageLink(name, url)
    requires forall k :: 0 <= k < |name| ==> name[k] != '\\' && !IsBracket(name[k])
    requires forall k :: 0 <= k < |url| ==> !AngleForbidden(url[k])
    ensures ParseLinkText(p, 2) == Some(LinkText(name, |name| + 4))
    ensures ParseLinkTextIntended(p, 2) == Some(LinkText(name, |name| + 4))
    ensures ParseLinkHref(p, |name| + 4) == Some(LinkHref(url, |p|))
  {
    var tail := "(<" + url + ">)";
    assert p == "![" + name + "]" + tail;
    LabelParsesBack(p, name, tail);
    LabelParsesBackIntended(p, name, tail);
    PlaceholderHref(p, name, url);
  }

  /** The destination of the placeholder reads back as the preview address. */
  lemma PlaceholderHref(p: string, name: string, url: string)
    requires p == ImageLink(name, url)
    requires forall k :: 0 <= k < |url| ==> !AngleForbidden(url[k])
    ensures ParseLinkHref(p, |name| + 4) == Some(LinkHref(url, |p|))
  {
    var pre := "![" + name + "](";
    var link := "<" + url + ">";
    assert p == pre + link + ")";
    assert SliceFrom(p, |pre|)[..|link|] == link by {
      assert p[|pre|..][..|link|] == link;
    }
    AngleHrefParsesBack(p, |pre|, url);
    assert |pre| == |name| + 4 && |p| == |pre| + |url| + 3;
  }

  /** `![label]` followed by anything, with a plain label: the text scan at
      2 gives the label. */
  lemma LabelParsesBack(p: string, name: string, tail: string)
    requires p == "![" + name + "]" + tail
    requires forall k :: 0 <= k < |name| ==> name[k] != '\\' && !IsBracket(name[k])
    ensures ParseLinkText(p, 2) == Some(LinkText(name, |name| + 4))
  {
    var b := |name| + 2;
    assert p[0] == '!' && p[1] == '[' && p[b] == ']';
    NoMatchAtPlain(p, 0);
    PlainBracketMatch(p, 1);
    NextMatchAt(p, 0, 1);
    PlainBracketMatch(p, b);
    forall j | 2 <= j < b ensures !BracketMatchAt(p, j) {
      assert p[j] == name[j - 2];
      NoMatchAtPlain(p, j);
    }
    NextMatchAt(p, 2, b);
    LinkTextLoopStep(p, 2, 0, 2, 0, 1);
    LinkTextLoopStep(p, 2, 2, 2, 1, b);
    assert Slice(p, 2, b) == name;
  }

  /** The same label through the corrected text scan. */
  lemma LabelParsesBackIntended(p: string, name: string, tail: string)
    requires p == "![" + name + "]" + tail
    requires forall k :: 0 <= k < |name| ==> name[k] != '\\' && !IsBracket(name[k])
    ensures ParseLinkTextIntended(p, 2) == Some(LinkText(name, |name| + 4))
  {
    var b := |name| + 2;
    assert p[1] == '[' && p[b] == ']';
    assert forall x :: 2 <= x < b ==> p[x] == name[x - 2];
    assert BackslashesBefore(p, b) == 0;
    PlainLabelReadsBack(p, 2, b);
    assert p[2..b] == name;
  }

  /** A text whose rest from pos is `<url>` and more: the destination scan
      at pos gives the url. */
  lemma AngleHrefParsesBack(p: string, pos: nat, url: string)
    requires |SliceFrom(p, pos)| >= |url| + 2 && SliceFrom(p, pos)[..|url| + 2] == "<" + url + ">"
    requires forall k :: 0 <= k < |url| ==> !AngleForbidden(url[k])
    ensures ParseLinkHref(p, pos) == Some(LinkHref(url, pos + |url| + 3))
  {
    var rest := SliceFrom(p, pos);
    assert rest[..|url| + 2][1..|url| + 1] == url;
    assert rest[1..|url| + 1] == url;
    AngleHrefRoundTrip(p, pos, url);
  }
}
