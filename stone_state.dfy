/** The stone tile of the sample game (`StoneState`): a tile that starts
    locked and unable to hold an item, is opened by completing it and is
    closed again by resetting it. */
module StoneTile {

  /** The tile groups a stone tile reports; their integer values are not modelled. */
  datatype TileGroup = Stone | Available

  /** The three fields of a stone tile, as a value. */
  datatype TileState = TileState(isLocked: bool, canContainItem: bool, group: TileGroup)

  /** The events the tile's base class forwards to it. */
  datatype Event = Complete | Reset

  /** The field initialisers: locked, unable to hold an item, group Stone. */
  const Initial: TileState := TileState(true, false, Stone)

  /** The state `OnComplete` writes: unlocked, able to hold an item, group Available. */
  const Completed: TileState := TileState(false, true, Available)

  /** The fields after handling `e` in state `s`: both handlers overwrite all
      three fields, whatever they held. */
  function Apply(s: TileState, e: Event): TileState {
    match e
    case Complete => Completed
    case Reset => Initial
  }

  /** The state after the events `es`, from a fresh tile. */
  function Run(es: seq<Event>): TileState
    decreases |es|
  {
    if es == [] then Initial else Apply(Run(es[..|es| - 1]), es[|es| - 1])
  }

  /** A tile is locked exactly when it cannot hold an item. */
  predicate LockedIffEmpty(s: TileState) {
    s.isLocked == !s.canContainItem
  }

  /** Handling the same event twice is handling it once. */
  lemma ApplyIdempotent(s: TileState, e: Event)
    ensures Apply(Apply(s, e), e) == Apply(s, e)
  {
  }

  /** `OnReset` restores the initial state from any state, and `OnComplete`
      leaves the tile open from any state. */
  lemma ApplyOverwrites(s: TileState)
    ensures Apply(s, Reset) == Initial
    ensures var t := Apply(s, Complete);
      !t.isLocked && t.canContainItem && t.group == Available
  {
  }

  /** The state after any events depends only on the last one: a fresh or
      reset tile is in the initial state, a completed one in the completed
      state. So every reachable state is one of those two. */
  lemma {:induction false} RunIsLastEvent(es: seq<Event>)
    ensures Run(es) == (if es == [] || es[|es| - 1] == Reset then Initial else Completed)
    ensures Run(es) == Initial || Run(es) == Completed
    decreases |es|
  {
    if es != [] {
      RunIsLastEvent(es[..|es| - 1]);
    }
  }

  /** In every reachable state the tile is locked exactly when it cannot hold
      an item, and locked exactly when its group is Stone. */
  lemma {:induction false} RunKeepsLock(es: seq<Event>)
    ensures LockedIffEmpty(Run(es))
    ensures Run(es).isLocked <==> Run(es).group == Stone
  {
    RunIsLastEvent(es);
  }

  /** `StoneState`: the fields are updated in place by the two handlers. */
  class StoneState {
    var isLocked: bool
    var canContainItem: bool
    var group: TileGroup

    /** The fields as a value. */
    function State(): TileState
      reads this
    {
      TileState(isLocked, canContainItem, group)
    }

    /** The tile is in a state some sequence of events reaches. */
    predicate Valid()
      reads this
    {
      State() == Initial || State() == Completed
    }

    constructor ()
      ensures Valid() && State() == Initial
    {
      isLocked := true;
      canContainItem := false;
      group := Stone;
    }

    /** `OnComplete`. */
    method OnComplete()
      modifies this
      ensures Valid() && State() == Apply(old(State()), Complete)
    {
      isLocked := false;
      canContainItem := true;
      group := Available;
    }

    /** `OnReset`. */
    method OnReset()
      modifies this
      ensures Valid() && State() == Apply(old(State()), Reset)
    {
      isLocked := true;
      canContainItem := false;
      group := Stone;
    }

    /** The `IsLocked` getter: on a tile in a reachable state, locked exactly
        when it cannot hold an item and exactly when its group is Stone. */
    function IsLocked(): (b: bool)
      reads this
      requires Valid()
      ensures b == !canContainItem && (b <==> group == Stone)
    {
      isLocked
    }

    /** The `CanContainItem` getter: on a tile in a reachable state, it can
        hold an item exactly when it is unlocked and its group is Available. */
    function CanContainItem(): (b: bool)
      reads this
      requires Valid()
      ensures b == !isLocked && (b <==> group == Available)
    {
      canContainItem
    }

    /** The `GroupId` getter, as the group itself: on a tile in a reachable
        state, Stone exactly when it is locked. */
    function GroupId(): (gr: TileGroup)
      reads this
      requires Valid()
      ensures gr == Stone <==> isLocked
    {
      group
    }
  }
}
