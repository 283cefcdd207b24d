/** `decorate` of the plugin's entry point: walk the syntax tree with one
    flag that says whether the current paragraph still qualifies as a
    gallery paragraph, and at the end of each qualifying paragraph ask the
    image parser for its rows; a paragraph with at least one row gets a
    gallery widget at its start. The parser and the tree walk are supplied
    by the caller. */
module Decorate {
  import opened JsString
  import opened SyntaxWalk
  import opened Decorations
  import opened GalleryWidget

  /** The paragraph parser: text of the paragraph and its offset in the
      document, to rows of images. */
  type Parser = (string, nat) -> Gallery

  /** The enter callback. */
  function OnEnter(t: NodeType, flag: bool): (r: EnterResult)
    ensures r.descend <==> t.name == "Paragraph" || t.isBlock
    ensures r.flag == Apply(EnterEffect(t), flag)
  {
    if t.name == "Paragraph" then EnterResult(true, true)
    else if t.isBlock then EnterResult(flag, true)
    else if t.name == "Image" then EnterResult(flag, false)
    else EnterResult(false, false)
  }

  /** What entering a node does to the flag: a paragraph raises it, another
      block or an image keeps it, anything else lowers it. */
  function EnterEffect(t: NodeType): Effect
  {
    if t.name == "Paragraph" then Raise
    else if t.isBlock || t.name == "Image" then Keep
    else Lower
  }

  /** The leave callback: at the end of a paragraph while the flag is set,
      parse the paragraph's text and keep a widget at its start when the
      parser found at least one row. */
  function OnLeave(doc: string, parse: Parser, s: WalkState<Gallery>, t: NodeType, from: nat, to: nat): WalkState<Gallery>
  {
    if s.flag && t.name == "Paragraph" then
      var images := parse(Slice(doc, from, to), from);
      if |images| > 0 then WalkState(s.flag, s.widgets + [WidgetRange(from, images)]) else s
    else s
  }

  function Step(doc: string, parse: Parser, s: WalkState<Gallery>, e: Event): WalkState<Gallery>
  {
    match e
    case Enter(t) => WalkState(OnEnter(t, s.flag).flag, s.widgets)
    case Leave(t, from, to) => OnLeave(doc, parse, s, t, from, to)
  }

  /** The callbacks applied to the events in order, from a cleared flag and
      no widgets. */
  function Walk(doc: string, parse: Parser, events: seq<Event>): WalkState<Gallery>
  {
    if |events| == 0 then WalkState(false, [])
    else Step(doc, parse, Walk(doc, parse, events[..|events| - 1]), events[|events| - 1])
  }

  /** `decorate`: `Decoration.none` without widgets, else the range set of
      the widgets in the order they were collected. */
  function DecorateDoc(doc: string, parse: Parser, events: seq<Event>): (d: DecorationSet<Gallery>)
    ensures d.NoDecorations? <==> forall k :: 0 <= k < |events| ==> !EmitsAt(doc, parse, events, k)
    ensures Ranges(d) == Emitted(doc, parse, events, |events|)
  {
    var ws := Walk(doc, parse, events).widgets;
    WalkEmits(doc, parse, events, |events|);
    EmittedEmpty(doc, parse, events, |events|);
    assert events[..|events|] == events;
    Build(ws)
  }

  // ---------------------------------------------------------------------
  // The widgets decorate should produce, stated without the fold
  // ---------------------------------------------------------------------

  /** Before event k the flag is set: some earlier event raised it and none
      since lowered it. */
  ghost predicate FlagSetBefore(events: seq<Event>, k: nat)
    requires k <= |events|
  {
    RaisedAndNotLowered(Effects(EnterEffect, events[..k]))
  }

  /** Event k is the end of a paragraph that gets a widget: the flag is set
      and the parser finds at least one row in the paragraph's text. */
  ghost predicate EmitsAt(doc: string, parse: Parser, events: seq<Event>, k: int)
  {
    && 0 <= k < |events|
    && events[k].Leave? && events[k].node.name == "Paragraph"
    && FlagSetBefore(events, k)
    && |parse(Slice(doc, events[k].from, events[k].to), events[k].from)| > 0
  }

  /** The widget for the paragraph that ends at event k. */
  function WidgetAt(doc: string, parse: Parser, e: Event): WidgetRange<Gallery>
    requires e.Leave?
  {
    WidgetRange(e.from, parse(Slice(doc, e.from, e.to), e.from))
  }

  /** The widgets of the first n events, in event order. */
  ghost function Emitted(doc: string, parse: Parser, events: seq<Event>, n: nat): seq<WidgetRange<Gallery>>
    requires n <= |events|
  {
    if n == 0 then []
    else
      var last := if EmitsAt(doc, parse, events, n - 1) then [WidgetAt(doc, parse, events[n - 1])] else [];
      Emitted(doc, parse, events, n - 1) + last
  }

  /** The state field: `create` is `decorate` of the state. After a
      transaction, `update` is `decorate` of the new state when the document
      changed, and otherwise the old set mapped through the changes. The new
      state's document and syntax events are `doc` and `events`. */
  function UpdateField(current: DecorationSet<Gallery>, docChanged: bool, doc: string, parse: Parser,
                       events: seq<Event>, mapPos: nat -> nat): (r: DecorationSet<Gallery>)
    ensures docChanged ==>
      && (r.NoDecorations? <==> forall k :: 0 <= k < |events| ==> !EmitsAt(doc, parse, events, k))
      && Ranges(r) == Emitted(doc, parse, events, |events|)
    ensures !docChanged ==>
      && r.NoDecorations? == current.NoDecorations?
      && |Ranges(r)| == |Ranges(current)|
      && forall k :: 0 <= k < |Ranges(current)| ==>
           Ranges(r)[k] == WidgetRange(mapPos(Ranges(current)[k].pos), Ranges(current)[k].gallery)
  {
    Update(current, docChanged, DecorateDoc(doc, parse, events), mapPos)
  }

  /** A callback changes the flag by its event's effect. */
  lemma StepFlag(doc: string, parse: Parser, s: WalkState<Gallery>, e: Event)
    ensures Step(doc, parse, s, e).flag == Apply(EventEffect(EnterEffect, e), s.flag)
  {
  }

  /** The fold's flag is the declarative one. */
  lemma {:induction false} WalkFlag(doc: string, parse: Parser, events: seq<Event>)
    ensures Walk(doc, parse, events).flag == FlagAfter(Effects(EnterEffect, events))
    decreases |events|
  {
    if |events| > 0 {
      var n := |events| - 1;
      WalkFlag(doc, parse, events[..n]);
      StepFlag(doc, parse, Walk(doc, parse, events[..n]), events[n]);
      FlagAfterSnoc(EnterEffect, events);
    }
  }

  /** The fold collects exactly the widgets of the declarative account. */
  lemma {:induction false} WalkEmits(doc: string, parse: Parser, events: seq<Event>, n: nat)
    requires n <= |events|
    ensures Walk(doc, parse, events[..n]).widgets == Emitted(doc, parse, events, n)
    decreases n
  {
    if n > 0 {
      var prefix := events[..n];
      assert prefix[..n - 1] == events[..n - 1];
      WalkEmits(doc, parse, events, n - 1);
      WalkFlag(doc, parse, events[..n - 1]);
      FlagAfterIff(Effects(EnterEffect, events[..n - 1]));
    }
  }

  /** No widget at all exactly when no paragraph end emits one. */
  lemma {:induction false} EmittedEmpty(doc: string, parse: Parser, events: seq<Event>, n: nat)
    requires n <= |events|
    ensures |Emitted(doc, parse, events, n)| == 0 <==> forall k :: 0 <= k < n ==> !EmitsAt(doc, parse, events, k)
    decreases n
  {
    if n > 0 {
      EmittedEmpty(doc, parse, events, n - 1);
    }
  }

  /** A widget is in the result exactly when it is the widget of some
      paragraph end that emits one. */
  lemma {:induction false} EmittedMembers(doc: string, parse: Parser, events: seq<Event>, n: nat, w: WidgetRange<Gallery>)
    requires n <= |events|
    ensures w in Emitted(doc, parse, events, n) <==>
      exists k :: 0 <= k < n && EmitsAt(doc, parse, events, k) && w == WidgetAt(doc, parse, events[k])
    decreases n
  {
    if n > 0 {
      EmittedMembers(doc, parse, events, n - 1, w);
    }
  }

  /** A paragraph whose children are entered without descending (none of
      them is a block) qualifies exactly when every child is an image: any
      other inline node lowers the flag for the rest of the paragraph. */
  lemma ParagraphOfImagesQualifies(events: seq<Event>, p: nat, n: nat)
    requires p < n < |events|
    requires events[p].Enter? && events[p].node.name == "Paragraph"
    requires forall k :: p < k < n ==>
      events[k].Enter? && events[k].node.name != "Paragraph" && !events[k].node.isBlock
    ensures FlagSetBefore(events, n) <==> forall k :: p < k < n ==> events[k].node.name == "Image"
  {
    var es := Effects(EnterEffect, events[..n]);
    assert forall k :: 0 <= k < n ==> es[k] == EventEffect(EnterEffect, events[k]);
    if forall k :: p < k < n ==> events[k].node.name == "Image" {
      assert es[p] == Raise && forall k :: p < k < n ==> es[k] != Lower;
    }
    if FlagSetBefore(events, n) {
      var j :| 0 <= j < n && es[j] == Raise && forall k :: j < k < n ==> es[k] != Lower;
      forall k | p < k < n ensures events[k].node.name == "Image" {
        assert es[k] == EnterEffect(events[k].node);
      }
    }
  }
}
