/** The decoration set a state field holds: either `Decoration.none` or a
    range set of block widgets, each placed at a document position. */
module Decorations {
  /** A block widget at a document position, carrying its gallery. */
  datatype WidgetRange<G> = WidgetRange(pos: nat, gallery: G)

  datatype DecorationSet<G> = NoDecorations | RangeSetOf(ranges: seq<WidgetRange<G>>)

  /** The widgets a set holds, in order. */
  function Ranges<G>(d: DecorationSet<G>): seq<WidgetRange<G>>
  {
    match d
    case NoDecorations => []
    case RangeSetOf(ranges) => ranges
  }

  /** The state of `decorate`'s callbacks while the tree is walked: the flag
      and the widgets collected so far. */
  datatype WalkState<G> = WalkState(flag: bool, widgets: seq<WidgetRange<G>>)

  /** The end of `decorate`: `Decoration.none` when no widget was collected,
      otherwise `RangeSet.of(widgets)`. */
  function Build<G>(widgets: seq<WidgetRange<G>>): (d: DecorationSet<G>)
    ensures d.NoDecorations? <==> |widgets| == 0
    ensures Ranges(d) == widgets
  {
    if |widgets| == 0 then NoDecorations else RangeSetOf(widgets)
  }

  /** Moving every widget through a position mapping; the galleries stay. */
  function MapRanges<G>(ws: seq<WidgetRange<G>>, mapPos: nat -> nat): (r: seq<WidgetRange<G>>)
    ensures |r| == |ws|
    ensures forall k :: 0 <= k < |ws| ==> r[k] == WidgetRange(mapPos(ws[k].pos), ws[k].gallery)
  {
    if |ws| == 0 then [] else [WidgetRange(mapPos(ws[0].pos), ws[0].gallery)] + MapRanges(ws[1..], mapPos)
  }

  /** `widgets.map(changes)`, with the change set seen only as the position
      mapping it induces. */
  function MapSet<G>(d: DecorationSet<G>, mapPos: nat -> nat): DecorationSet<G>
  {
    match d
    case NoDecorations => NoDecorations
    case RangeSetOf(ranges) => RangeSetOf(MapRanges(ranges, mapPos))
  }

  /** The state field's `update`: a document change recomputes the set from
      the new state, anything else only maps the old set through the
      transaction's changes. */
  function Update<G>(current: DecorationSet<G>, docChanged: bool, recomputed: DecorationSet<G>, mapPos: nat -> nat): (r: DecorationSet<G>)
    ensures docChanged ==> r == recomputed
    ensures !docChanged ==> r.NoDecorations? == current.NoDecorations?
    ensures !docChanged ==> |Ranges(r)| == |Ranges(current)|
    ensures !docChanged ==> forall k :: 0 <= k < |Ranges(current)| ==>
      Ranges(r)[k].gallery == Ranges(current)[k].gallery && Ranges(r)[k].pos == mapPos(Ranges(current)[k].pos)
  {
    if docChanged then recomputed else MapSet(current, mapPos)
  }

  /** A transaction that does not change the document has an empty change
      set, whose mapping is the identity: the old set comes back as it was. */
  lemma UpdateWithoutChangeKeepsSet<G>(current: DecorationSet<G>, recomputed: DecorationSet<G>, mapPos: nat -> nat)
    requires forall p :: mapPos(p) == p
    ensures Update(current, false, recomputed, mapPos) == current
  {
    if current.RangeSetOf? {
      assert MapRanges(current.ranges, mapPos) == current.ranges;
    }
  }
}
