# markmirror image plugin: a Dafny model

This project models the pure logic of the image plugin for the CodeMirror 6
markdown editor. The plugin has four parts:

- **Link scanners** (`src/parseImage.ts`). These are the three sub-scanners of a
  markdown image link `![text](href "title")`:
  - `parseLinkText` is a bracket-depth scan driven by the global regular
    expression `/(?<!\\)(?:\\\\)*[\[\]]/g`.
  - `parseLinkHref` reads either an angle-bracket destination or a bare one.
  - `parseLinkTitle` reads a quoted title through `titleRe`.
- **Gallery identity** (`src/widgets.ts`, and the earlier flat version in
  `src/widget.ts`). CodeMirror asks a widget's `eq` whether it can be reused
  instead of rebuilt. `eq` compares string keys built from the images' `src`
  fields: items are joined by `|` and rows by `$`.
- **`decorate`** (`src/main.ts`, and the earlier version in `src/widget.ts`).
  A single flag is threaded through the enter and leave callbacks of a syntax
  tree walk. A paragraph still flagged at its end gets a gallery widget at its
  start. The state field's `update` recomputes the set when the document
  changed; otherwise it only maps the set through the changes.
- **Upload text arithmetic** (`src/upload.ts`):
  - the newlines `prepareImageBlock` inserts before pasted images, and where
    the cursor ends up;
  - the MIME filter of `uploadImages`;
  - the placeholder and replacement strings of `handleUpload`;
  - the substitution of the final address into the placeholder once the
    upload is done.

Modules:

| module | role |
|---|---|
| `Wrappers` | `Option` for scanners that return a record or `undefined` |
| `JsString` | JavaScript's `\s`, `slice`, `trim`, `Array.prototype.join` and integer-to-decimal conversion, with lemmas about `join` |
| `ImageTypes` | the `ImageNode` record |
| `ParseImage` | the three scanners as written |
| `LinkTextFix` | the corrected link-text scan, plus the inputs on which the scan as written differs |
| `GalleryWidget`, `FlatWidget` | the two widget versions (`FlatWidget` also holds the older `decorate`) |
| `SyntaxWalk`, `Decorations`, `Decorate` | the event stream, the decoration set with `update`, and `decorate` |
| `Upload` | `src/upload.ts` |

How the source is represented:

- **Regular expressions** are hand-written matchers. Each follows the
  backtracking semantics of JavaScript regular expressions on its particular
  pattern:
  - `NextMatch` is `exec` with a `lastIndex` cursor.
  - `CloseQuote` is the body of `titleRe`. It closes at the first unescaped
    quote; when there is none, it backtracks to the last escaped quote.
- **The syntax tree walk** is a sequence of enter and leave events, exactly
  as the callbacks receive them.
- **Host parts** are parameters:
  - `decorate`'s paragraph parser;
  - the position mapping of a change set;
  - the spans of the syntax tree.

## Model

| member | source | states |
|---|---|---|
| ParseImage.NextMatch | src/parseImage.ts:13-20 | `exec` on the global bracket pattern returns the leftmost match at or after `lastIndex`. No match starts between the cursor and it, and `None` means no match starts anywhere after the cursor. |
| ParseImage.MatchesComplete | src/parseImage.ts:13-20 | Every position at or after the cursor where the pattern matches is among the matches the exec loop visits, so lookbehind and the non-overlap of matches never hide a bracket. |
| ParseImage.NoMatchInside | src/parseImage.ts:13 | No match starts strictly inside another match, that is, between its first backslash and its bracket. |
| ParseImage.CountedIffEvenEscapes | src/parseImage.ts:13 | A bracket ends some match exactly when the run of backslashes right before it has even length. |
| ParseImage.OddEscapedNeverCounted | src/parseImage.ts:13-34 | A bracket preceded by an odd run of backslashes never ends a match, so it never changes the level. |
| ParseImage.EscapedPairCountsAsOpening | src/parseImage.ts:24-34 | A match that begins with an escaped backslash pair and ends with `]` has a backslash as `src[match.index]`. The loop counts it as an opening: it raises the level and resumes after the `]`, so at any level that `]` never closes the text. |
| ParseImage.ScanClosesSpec | src/parseImage.ts:19-35 | The level-counting scan over a list of matches returns a match exactly when some match closes at level 1, and it returns the first such match. This is stated against a declarative level defined on prefixes. |
| ParseImage.LinkTextLoopScans | src/parseImage.ts:19-41 | The while loop, driven by `exec` and the `pos < posMax` guard, equals that declarative scan over the matches from the cursor. It cuts the text at the `]` where the scan stops. |
| ParseImage.ParseLinkTextSucceeds | src/parseImage.ts:12-43 | `parseLinkText(src, pos)` returns a record exactly when `pos < src.length` and some `]`, reading every match of `src` from index 0 at level 0, takes the level from 1 back to 0. |
| ParseImage.ParseLinkTextValue | src/parseImage.ts:24-41 | For the first such `]`, at index b: `text == src.slice(pos, b)` and `end == b + 2`. |
| ParseImage.ParseLinkTextIgnoresPos | src/parseImage.ts:13-20 | Two starting positions inside the string agree on success and on `end`, because the fresh pattern always scans from index 0. Only the start of `text` depends on `pos`. |
| ParseImage.NestedBracketsKept | src/parseImage.ts:26-41 | On `![a[b]c](` with pos 2, the nested pair stays inside the text: the result is `a[b]c` with end 9. |
| ParseImage.AngleMatchIff | src/parseImage.ts:47-50 | The angle pattern matches at index 0 of the rest exactly when the rest starts with `<`, then characters other than `<`, `>`, newline, backslash and NUL, then `>`. |
| ParseImage.HrefEndAtZero | src/parseImage.ts:56-59 | The bare pattern `\S*(?:\s\|\))` matches somewhere exactly when some character of the rest is white space or `)`. When it matches, the leftmost match is at index 0. |
| ParseImage.ParseLinkHref | src/parseImage.ts:46-66 | With an angle destination, `href` is the enclosed text and `end == pos + href.length + 3`. Otherwise the result exists exactly when the rest holds white space or `)`, and it is then the empty href with end 0. |
| ParseImage.BareHrefIsEmpty | src/parseImage.ts:56-64 | The bare form always gives `end == 0`, an index into the rest, and the href `src.slice(pos, 0).trim()`, which is empty. No scheme or content check happens. |
| ParseImage.AngleHrefRoundTrip | src/parseImage.ts:47-55 | A destination written as `<h>` with no forbidden character in h reads back as exactly h, with end `pos + h.length + 3`. |
| ParseImage.CloseQuote | src/parseImage.ts:68 | The quoted body of `titleRe` ends at a quote of the same kind, after the start, with every such quote before it escaped. It fails exactly when no such quote follows. |
| ParseImage.CloseQuoteFirstUnescaped | src/parseImage.ts:68 | The body closes at the first quote not preceded by a backslash. |
| ParseImage.CloseQuoteLastEscaped | src/parseImage.ts:68 | With no unescaped quote, backtracking makes the body close at the last escaped quote. |
| ParseImage.ParseLinkTitle | src/parseImage.ts:68-79 | A title is returned exactly when the rest starts with white space, then a quote that occurs again later. The title keeps both quotes, its inner quotes of that kind are all escaped, and it sits right after the white space. `end` is `pos` plus the length of the white space and title, plus one. |
| ParseImage.TitleRoundTrip | src/parseImage.ts:68-78 | Take white space, a quote, a body whose quotes of that kind are all escaped and which does not end in a backslash, then the quote. This reads back with the quotes kept, the body untouched and `end == pos + ws.length + body.length + 3`. |
| LinkTextFix.LabelLoopScans | src/parseImage.ts:19-41 | The corrected loop is the generic scan over the matches from pos, at depth 1, with each match classified by the bracket it ends with. |
| LinkTextFix.ParseLinkTextIntendedSucceeds | src/parseImage.ts:12-43 | The corrected scan succeeds exactly when a match ending in `]` brings the depth from 1 to 0. |
| LinkTextFix.ParseLinkTextIntendedValue | src/parseImage.ts:37-41 | For the first such match, ending at bracket b with `pos <= b`: the text is `src[pos..b]` and end is `b + 2`. |
| LinkTextFix.PlainLabelReadsBack | src/parseImage.ts:12-43 | A label with no bracket inside, whose `]` has an even run of backslashes before it, reads back whole through the corrected scan. |
| LinkTextFix.EscapedPairLabel | src/parseImage.ts:25-34 | `![a\\](x)`: the scan as written finds no text, while the corrected scan reads `a\\` with end 7. |
| LinkTextFix.SecondImageLabel | src/parseImage.ts:13-20 | `![a](x) ![b](y)` with pos 10: the scan as written returns an empty text with end 5, while the corrected scan reads `b` with end 13. |
| GalleryWidget.EqReflexive | src/widgets.ts:50-58 | Every gallery is `eq` to itself. |
| GalleryWidget.EqSymmetric | src/widgets.ts:50-58 | `eq(a, b) == eq(b, a)`. |
| GalleryWidget.EqTransitive | src/widgets.ts:50-58 | `eq` is transitive. |
| GalleryWidget.ColumnsIffSameShape | src/widgets.ts:46-56 | The `columns` keys are equal exactly when the galleries have as many rows, of the same lengths. So the row-count test in `eq` decides nothing beyond `columns`. |
| GalleryWidget.EqSameShape | src/widgets.ts:50-56 | `eq` implies the same number of rows and the same length for each row. |
| GalleryWidget.SameSrcsEq | src/widgets.ts:40-58 | Galleries whose `src` matrices agree are `eq`, whatever their alt texts, titles and offsets. |
| GalleryWidget.EqIffSameSrcs | src/widgets.ts:40-58 | When no `src` contains `\|` or `$`, `eq` holds exactly when the `src` matrices are identical. |
| GalleryWidget.SeparatorInSrcCollides | src/widgets.ts:40-44 | Without that condition `eq` is coarser: rows `x\|y, z` and `x, y\|z` are `eq`. |
| FlatWidget.SameSrcsEq | src/widget.ts:5-22 | `eq` ignores alt texts and titles. |
| FlatWidget.EqIffSameSrcs | src/widget.ts:16-22 | For non-empty lists with no `\|` in any `src`, `eq` holds exactly when the `src` lists are equal. |
| FlatWidget.EmptyListCollides | src/widget.ts:16-18 | The non-empty condition is needed: no image and a single image with an empty `src` have the same id. |
| FlatWidget.OnEnter | src/widget.ts:42-53 | Entering `Document` descends and keeps the flag. Entering `Paragraph` sets it and descends. Entering an image keeps it and anything else clears it, and neither descends. |
| FlatWidget.WalkWidgets | src/widget.ts:55-66 | The walk pushes one widget per paragraph that is flagged at its end, at the paragraph's `from`, each with the empty list the `parseImages` stub returns. |
| FlatWidget.DecorateDoc | src/widget.ts:37-74 | The result is `Decoration.none` exactly when no paragraph end is flagged. Otherwise the widgets are in paragraph-end order, at the paragraphs' starts, each with an empty image list. |
| SyntaxWalk.FlagAfterIff | src/main.ts:12-30 | The flag after a run of events is set exactly when some event raised it and no later event lowered it. |
| Decorate.OnEnter | src/main.ts:14-30 | Entering `Paragraph` sets the flag. Another block keeps it, an image keeps it, and anything else clears it. Only paragraphs and blocks are descended into. |
| Decorate.WalkFlag | src/main.ts:12-30 | The flag the callbacks thread is the declarative flag of the events read so far. |
| Decorate.WalkEmits | src/main.ts:31-44 | The callbacks collect exactly the widgets of the paragraph ends where the flag is set and the parser finds at least one row, in event order. |
| Decorate.EmittedEmpty | src/main.ts:47-49 | No widget is collected exactly when no paragraph end emits one. |
| Decorate.EmittedMembers | src/main.ts:31-42 | A widget is collected exactly when it is the widget, at the paragraph's `from`, of some emitting paragraph end. |
| Decorate.DecorateDoc | src/main.ts:9-52 | `decorate` returns `Decoration.none` exactly when no paragraph end emits. Otherwise it returns the range set of the emitted widgets, in order. |
| Decorate.ParagraphOfImagesQualifies | src/main.ts:14-29 | In a paragraph whose children are inline, the flag survives to the paragraph's end exactly when every child is an image. |
| Decorations.Build | src/main.ts:47-51 | The result is `Decoration.none` exactly when there is no widget; otherwise the set holds the widgets as given. |
| Decorations.Update | src/main.ts:81-86 | A document change recomputes the set. Otherwise the set keeps its kind, its size and its galleries, and each position is mapped. |
| Decorations.UpdateWithoutChangeKeepsSet | src/main.ts:81-86 | A transaction that leaves the document alone has an identity mapping, so the set comes back unchanged. |
| Decorate.UpdateField | src/main.ts:76-86 | After a document change the field holds exactly what `decorate` gives for the new state: `Decoration.none` when no paragraph end emits, otherwise the emitted widgets in order. Otherwise each old widget keeps its gallery and moves through the position mapping. |
| Upload.LineEndNoNewline | src/upload.ts:51 | `lineAt` ends at the first `\n` after the position: none lies between them. |
| Upload.PrepareImageBlock | src/upload.ts:49-70 | It returns false exactly when the line holding the selection's start starts at offset 0. It inserts nothing exactly then, or when both lines are blank. Otherwise the insert is one `\n` per non-blank line among the current and previous lines, at `line.to`, with the cursor at `line.to + insert.length`. |
| Upload.BlankLineAfterPlace | src/upload.ts:53-65 | Inserting zero, one or two `\n` at the end of the line determines whether the line before the cursor is blank afterwards: always after two, after one exactly when the current line was blank, after none exactly when the previous line was blank. |
| Upload.PrepareBlankLineBeforeIff | src/upload.ts:52-65 | As written, the line before the cursor ends up blank unless the current line has text and the previous line is blank. |
| Upload.PrepareMissesBlankLine | src/upload.ts:53-60 | On `a\n\nb` with the cursor at 4, the result is `a\n\nb\n` with the cursor at 5, and the line before the cursor is `b`, not blank. |
| Upload.PrepareIntendedLeavesBlankLine | src/upload.ts:49-70 | With the corrected rule, the line before the cursor is blank after the preparation on every line but the first. |
| Upload.ImagesOfMembers | src/upload.ts:74-79 | A file is kept exactly when it is in the list and its type starts with `image/`. |
| Upload.ImagesOfAppend | src/upload.ts:74-79 | The filter keeps the original order: filtering a concatenation concatenates the filtered parts. |
| Upload.UploadImages | src/upload.ts:72-90 | The loop collects exactly the image files, in order, and the return value is true exactly when at least one was kept. |
| Upload.ReplacementsPrefix | src/upload.ts:93-99 | Before the last file, the inserted texts together are the placeholders joined by single spaces. |
| Upload.ReplacementsJoin | src/upload.ts:93-99 | All the inserted texts together are the placeholders joined by single spaces, followed by a blank line. |
| Upload.ImageLinkDiffersOnlyInHref | src/upload.ts:95-108 | The placeholder and the final link share everything but the text between `<` and `>`. |
| Upload.PlaceholderParsesBack | src/upload.ts:95 | With a name free of brackets and backslashes, the placeholder reads back through the link scanners. The scan as written and the corrected scan both give the name, and the destination scan gives the preview address. |
| Upload.SubstituteNoMatch | src/upload.ts:105-114 | When no `Image` node's text is exactly the placeholder, the document is unchanged and nothing fails. |
| Upload.SubstituteSkipTo | src/upload.ts:105-110 | Nodes before the first match are passed over. A first match inside the document is replaced, and the walk goes on with the later spans over the edited document. |
| Upload.SubstituteOne | src/upload.ts:105-114 | Suppose node m is the first whose text is the placeholder, and no later span reads the placeholder in the edited text. Then the result is the old text with m's span replaced by the final link. |
| Upload.SubstituteStopsAt | src/upload.ts:105-112 | A first match whose span does not lie inside the current document makes the change throw. The walk stops with the document as it stood, so the replacements already dispatched stay. |
| Upload.SubstituteKeepsEarlier | src/upload.ts:105-112 | On `abab` with spans [0,2) and [1,4) and placeholder `ab`, the first replacement gives `xab`. The second span then reads `ab` but reaches past the end, so the change throws and `xab` stays. |

## Left out

- The DOM, `toDOM`, `galleryTheme` and CSS: presentation only.
- The floating-point layout (aspect ratios, flex sizes): floating point and rendering.
- `await upload(file)`, promises, `URL.createObjectURL`/`revokeObjectURL` and `console.log`: these are asynchrony and foreign calls. The preview and final addresses are plain string parameters.
- Event-handler wiring, `view.dispatch` and `src/gallery.ts`: these are dispatch over host APIs. The model returns the edits instead of dispatching them.
- `replaceSelection`, `posAtCoords` and the selection: host internals. `prepareImageBlock` depends only on the start of the first range, which is its parameter. Without an edit the selection is left as it was.
- The top-level `parse` of `src/parseImage.ts` (lines 1-9): its loop body is empty and it returns nothing.
- The image parser that `decorate` in `src/main.ts` calls with three arguments: it is a parameter, `Decorate.Parser`. The default export shown takes one argument and returns nothing.
- Lezer's tree traversal: the model takes the sequence of enter and leave events as given, including which nodes are skipped.
- UTF-16: strings are sequences of Dafny characters, so offsets count characters rather than UTF-16 code units.
- Decorations.Update: the change set is seen only as a position mapping. How `RangeSet.map` drops widgets inside deleted ranges is not modelled.
- Upload.Substitute: the syntax tree is a given list of node spans taken once. The model does not say which spans the markdown parser produces for the inserted text; `Upload.PlaceholderParsesBack` shows only that the placeholder reads back through the link scanners.
- Upload.UploadImages: it returns the filtered files and the return value. Its calls to `prepareImageBlock` and `handleUpload` are separate members (`Upload.PrepareImageBlock`, `Upload.Replacements`), because they only dispatch editor transactions.
- The thumbnail function `decorate` receives is passed on to the parser and is not modelled.

## Findings

| source | as written | input that shows it | evidently intended | confidence | as-written member | corrected member |
|---|---|---|---|---|---|---|
| src/parseImage.ts:25 | A match is classified by `src[match.index]`, its first character, which is a backslash when the match begins with escaped backslash pairs. | `![a\\](x)` with pos 2: the `]` after `\\` is a real closing bracket, but the match starting at the pair counts as an opening, so no text is found. | Classify a match by the bracket it ends with. | not executed | LinkTextFix.EscapedPairLabel | LinkTextFix.PlainLabelReadsBack |
| src/parseImage.ts:13 | The pattern is created on each call with `lastIndex` 0 and the level starts at 0, so the scan reads every bracket of `src` before `pos`. | `![a](x) ![b](y)` with pos 10 returns an empty text with end 5, which is taken from the first image. | Scan from `pos`, just after the image's `[`, at depth 1. | not executed | LinkTextFix.SecondImageLabel | LinkTextFix.ParseLinkTextIntendedValue |
| src/upload.ts:53-60 | A current line with text gets one `\n`, and a previous line with text gets one more. If the current line has text and the previous line is blank, only one `\n` is inserted, and the line before the cursor is the current line. | `a\n\nb` with the cursor at 4 becomes `a\n\nb\n` with the cursor at 5. The images join the paragraph `b`, against the comment at line 82. | Two `\n` after a line with text; after a blank line, one `\n` when the line before it has text. | not executed | Upload.PrepareMissesBlankLine | Upload.PrepareIntendedLeavesBlankLine |
