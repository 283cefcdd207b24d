/** The walk `decorate` makes over the syntax tree, reduced to what the
    callbacks see: a sequence of enter and leave events, in the order the
    tree iteration delivers them, and a single boolean flag threaded through
    them. Each event raises the flag, keeps it or lowers it; the flag at any
    point is set exactly when some event raised it and none lowered it
    since. */
module SyntaxWalk {
  /** A node type: its name and whether it belongs to the `Block` group. */
  datatype NodeType = NodeType(name: string, isBlock: bool)

  /** One callback: entering a node, or leaving one that spans [from, to). */
  datatype Event = Enter(node: NodeType) | Leave(node: NodeType, from: nat, to: nat)

  /** What an event does to the flag. */
  datatype Effect = Raise | Keep | Lower

  function Apply(e: Effect, flag: bool): bool
  {
    match e
    case Raise => true
    case Keep => flag
    case Lower => false
  }

  /** The enter callback's outcome: the new flag and whether to visit the
      node's children. */
  datatype EnterResult = EnterResult(flag: bool, descend: bool)

  /** What an event does to the flag, given what entering each node type
      does: leaving a node never touches the flag. */
  function EventEffect(enter: NodeType -> Effect, e: Event): Effect
  {
    match e
    case Enter(t) => enter(t)
    case Leave(_, _, _) => Keep
  }

  /** The effects of a run of events, one per event, in order. */
  function Effects(enter: NodeType -> Effect, events: seq<Event>): (r: seq<Effect>)
    ensures |r| == |events|
    ensures forall k :: 0 <= k < |events| ==> r[k] == EventEffect(enter, events[k])
  {
    if |events| == 0 then [] else Effects(enter, events[..|events| - 1]) + [EventEffect(enter, events[|events| - 1])]
  }

  /** The flag after the given effects, starting from false, applied in order. */
  function FlagAfter(effects: seq<Effect>): bool
  {
    if |effects| == 0 then false
    else Apply(effects[|effects| - 1], FlagAfter(effects[..|effects| - 1]))
  }

  /** Some effect raised the flag and no later one lowered it. */
  ghost predicate RaisedAndNotLowered(effects: seq<Effect>)
  {
    exists j :: 0 <= j < |effects| && effects[j] == Raise
      && forall k :: j < k < |effects| ==> effects[k] != Lower
  }

  /** One more event applies its effect to the flag of the events before it. */
  lemma FlagAfterSnoc(enter: NodeType -> Effect, events: seq<Event>)
    requires |events| > 0
    ensures var n := |events| - 1;
      FlagAfter(Effects(enter, events)) == Apply(EventEffect(enter, events[n]), FlagAfter(Effects(enter, events[..n])))
  {
    var n := |events| - 1;
    assert Effects(enter, events)[..n] == Effects(enter, events[..n]);
  }

  /** The flag is the last Raise not followed by a Lower. */
  lemma {:induction false} FlagAfterIff(effects: seq<Effect>)
    ensures FlagAfter(effects) <==> RaisedAndNotLowered(effects)
    decreases |effects|
  {
    if |effects| > 0 {
      var n := |effects| - 1;
      var init := effects[..n];
      FlagAfterIff(init);
      assert forall k :: 0 <= k < n ==> init[k] == effects[k];
      match effects[n]
      case Raise =>
        assert effects[n] == Raise;
      case Lower =>
      case Keep =>
        if RaisedAndNotLowered(init) {
          var j :| 0 <= j < n && init[j] == Raise
            && forall k :: j < k < n ==> init[k] != Lower;
          assert effects[j] == Raise && forall k :: j < k < |effects| ==> effects[k] != Lower;
        }
        if RaisedAndNotLowered(effects) {
          var j :| 0 <= j < |effects| && effects[j] == Raise
            && forall k :: j < k < |effects| ==> effects[k] != Lower;
          assert init[j] == Raise && forall k :: j < k < n ==> init[k] != Lower;
        }
    }
  }
}
