/** The earlier, flat version of the gallery widget and its `decorate`: a
    widget is a plain list of images keyed by their sources joined with
    `|`, and every qualifying paragraph gets one, built from a parser that
    does not yet parse anything. */
module FlatWidget {
  import opened Wrappers
  import opened JsString
  import opened SyntaxWalk
  import opened Decorations

  /** An image as this version sees it. */
  datatype ImageAttrs = ImageAttrs(src: string, alt: Option<string>, title: Option<string>)

  function Srcs(images: seq<ImageAttrs>): (r: seq<string>)
    ensures |r| == |images|
    ensures forall k :: 0 <= k < |images| ==> r[k] == images[k].src
  {
    if |images| == 0 then [] else [images[0].src] + Srcs(images[1..])
  }

  /** `id`: the sources joined with `|`. */
  function Id(images: seq<ImageAttrs>): string
  {
    Join(Srcs(images), '|')
  }

  /** `eq`: the ids are equal. */
  function Eq(a: seq<ImageAttrs>, b: seq<ImageAttrs>): bool
  {
    Id(a) == Id(b)
  }

  /** `eq` ignores alt texts and titles: lists with the same sources are equal. */
  lemma SameSrcsEq(a: seq<ImageAttrs>, b: seq<ImageAttrs>)
    requires Srcs(a) == Srcs(b)
    ensures Eq(a, b)
  {
  }

  /** With at least one image on each side and no `|` in any source, `eq`
      holds exactly when the source lists are equal. */
  lemma EqIffSameSrcs(a: seq<ImageAttrs>, b: seq<ImageAttrs>)
    requires |a| > 0 && |b| > 0
    requires forall k :: 0 <= k < |a| ==> '|' !in a[k].src
    requires forall k :: 0 <= k < |b| ==> '|' !in b[k].src
    ensures Eq(a, b) <==> Srcs(a) == Srcs(b)
  {
    if Eq(a, b) {
      JoinInjective(Srcs(a), Srcs(b), '|');
    }
  }

  /** The non-empty condition is needed: no image and one image with an
      empty source have the same id. */
  lemma EmptyListCollides()
    ensures Eq([], [ImageAttrs("", None, None)])
    ensures Srcs([]) != Srcs([ImageAttrs("", None, None)])
  {
    assert Srcs([ImageAttrs("", None, None)]) == [""];
  }

  /** `parseImages`: a stub that finds no image in any text. */
  function ParseImages(text: string): seq<ImageAttrs>
  {
    []
  }

  /** What entering a node does to the flag here: the document keeps it, a
      paragraph raises it, an image keeps it, anything else lowers it. */
  function EnterEffect(t: NodeType): Effect
  {
    if t.name == "Document" then Keep
    else if t.name == "Paragraph" then Raise
    else if t.name != "Image" then Lower
    else Keep
  }

  /** The enter callback: descend into the document and into paragraphs only. */
  function OnEnter(t: NodeType, flag: bool): (r: EnterResult)
    ensures r.descend <==> t.name == "Document" || t.name == "Paragraph"
    ensures r.flag == Apply(EnterEffect(t), flag)
  {
    if t.name == "Document" then EnterResult(flag, true)
    else if t.name == "Paragraph" then EnterResult(true, true)
    else EnterResult(if t.name != "Image" then false else flag, false)
  }

  /** The leave callback: every flagged paragraph gets a widget, whatever the
      parser returned. */
  function Step(doc: string, s: WalkState<seq<ImageAttrs>>, e: Event): WalkState<seq<ImageAttrs>>
  {
    match e
    case Enter(t) => WalkState(OnEnter(t, s.flag).flag, s.widgets)
    case Leave(t, from, to) =>
      if s.flag && t.name == "Paragraph" then
        WalkState(s.flag, s.widgets + [WidgetRange(from, ParseImages(Slice(doc, from, to)))])
      else s
  }

  function Walk(doc: string, events: seq<Event>): WalkState<seq<ImageAttrs>>
  {
    if |events| == 0 then WalkState(false, [])
    else Step(doc, Walk(doc, events[..|events| - 1]), events[|events| - 1])
  }

  /** Event k is the end of a paragraph while the flag is set. */
  ghost predicate FlaggedParagraphEnd(events: seq<Event>, k: int)
  {
    && 0 <= k < |events|
    && events[k].Leave? && events[k].node.name == "Paragraph"
    && RaisedAndNotLowered(Effects(EnterEffect, events[..k]))
  }

  /** The positions of the flagged paragraph ends among the first n events. */
  ghost function FlaggedStarts(events: seq<Event>, n: nat): seq<nat>
    requires n <= |events|
  {
    if n == 0 then []
    else
      var last := if FlaggedParagraphEnd(events, n - 1) then [events[n - 1].from] else [];
      FlaggedStarts(events, n - 1) + last
  }

  /** This `decorate`: `Decoration.none` without widgets, else their range set. */
  function DecorateDoc(doc: string, events: seq<Event>): (d: DecorationSet<seq<ImageAttrs>>)
    ensures d.NoDecorations? <==> forall k :: 0 <= k < |events| ==> !FlaggedParagraphEnd(events, k)
    ensures |Ranges(d)| == |FlaggedStarts(events, |events|)|
    ensures forall k :: 0 <= k < |Ranges(d)| ==>
      Ranges(d)[k].pos == FlaggedStarts(events, |events|)[k] && Ranges(d)[k].gallery == []
  {
    WalkWidgets(doc, events, |events|);
    FlaggedStartsEmpty(events, |events|);
    assert events[..|events|] == events;
    Build(Walk(doc, events).widgets)
  }

  /** A callback changes the flag by its event's effect. */
  lemma StepFlag(doc: string, s: WalkState<seq<ImageAttrs>>, e: Event)
    ensures Step(doc, s, e).flag == Apply(EventEffect(EnterEffect, e), s.flag)
  {
  }

  lemma {:induction false} WalkFlag(doc: string, events: seq<Event>)
    ensures Walk(doc, events).flag == FlagAfter(Effects(EnterEffect, events))
    decreases |events|
  {
    if |events| > 0 {
      var n := |events| - 1;
      WalkFlag(doc, events[..n]);
      StepFlag(doc, Walk(doc, events[..n]), events[n]);
      FlagAfterSnoc(EnterEffect, events);
    }
  }

  /** The fold pushes one widget per flagged paragraph end, at the
      paragraph's start, each with an empty image list. */
  lemma {:induction false} WalkWidgets(doc: string, events: seq<Event>, n: nat)
    requires n <= |events|
    ensures var ws := Walk(doc, events[..n]).widgets;
      && |ws| == |FlaggedStarts(events, n)|
      && forall k :: 0 <= k < |ws| ==> ws[k].pos == FlaggedStarts(events, n)[k] && ws[k].gallery == []
    decreases n
  {
    if n > 0 {
      var prefix := events[..n];
      assert prefix[..n - 1] == events[..n - 1];
      WalkWidgets(doc, events, n - 1);
      WalkFlag(doc, events[..n - 1]);
      FlagAfterIff(Effects(EnterEffect, events[..n - 1]));
    }
  }

  lemma {:induction false} FlaggedStartsEmpty(events: seq<Event>, n: nat)
    requires n <= |events|
    ensures |FlaggedStarts(events, n)| == 0 <==> forall k :: 0 <= k < n ==> !FlaggedParagraphEnd(events, k)
    decreases n
  {
    if n > 0 {
      FlaggedStartsEmpty(events, n - 1);
    }
  }
}
