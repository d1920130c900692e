/**
 * The state-index bookkeeping of the Switch component: on every render it
 * picks the index to show, the animation direction, whether the two index
 * references move and whether `onSwitch` fires; a store subscription asks
 * for a new index when the shared store disagrees with the shown one.
 *
 * The connected states are a sequence of slots, `true` where an element is
 * connected. Indexing outside the sequence yields nothing, as in the source.
 */
module SwitchState {
  import opened Optional

  /** A child element exists at index `i` (out-of-range and empty slots have none). */
  predicate HasChild(children: seq<bool>, i: int) {
    0 <= i < |children| && children[i]
  }

  /** Number of connected states: the slots that survive dropping the empty ones. */
  function StateCount(children: seq<bool>): (n: nat)
    ensures n <= |children|
    ensures n == 0 <==> forall i :: 0 <= i < |children| ==> !children[i]
  {
    if children == [] then 0
    else StateCount(children[1..]) + (if children[0] then 1 else 0)
  }

  /** When every slot is connected, the number of states is the number of slots. */
  lemma {:induction false} StateCountAllConnected(children: seq<bool>)
    requires forall i :: 0 <= i < |children| ==> children[i]
    ensures StateCount(children) == |children|
  {
    if children != [] {
      StateCountAllConnected(children[1..]);
    }
  }

  /** The requested index: the component state when defined, else the initial state. */
  function Current(currentStateIndex: Option<int>, initialState: int): (c: int)
    ensures c == currentStateIndex.GetOr(initialState)
    ensures currentStateIndex.None? ==> c == initialState
  {
    match currentStateIndex
    case Some(i) => i
    case None => initialState
  }

  /** Moving between the first and the last state, in either order. */
  predicate AtWrapBoundary(previous: int, current: int, count: int) {
    (previous == count - 1 && current == 0) || (previous == 0 && current == count - 1)
  }

  /**
   * Animation direction: forwards (1) when the index does not decrease,
   * backwards (-1) otherwise, reversed at the wrap boundary.
   */
  function Direction(previous: int, current: int, count: int): (d: int)
    ensures d == 1 || d == -1
    ensures AtWrapBoundary(previous, current, count) ==> (d == 1 <==> current < previous)
    ensures !AtWrapBoundary(previous, current, count) ==> (d == 1 <==> previous <= current)
  {
    var d := if previous <= current then 1 else -1;
    if AtWrapBoundary(previous, current, count) then -d else d
  }

  /** Going back undoes going forth: swapping the two indices flips the direction. */
  lemma DirectionAntisymmetric(previous: int, current: int, count: int)
    requires previous != current
    ensures Direction(current, previous, count) == -Direction(previous, current, count)
  {
  }

  /** Re-rendering the same index goes forwards, except for a lone state at index 0. */
  lemma DirectionSameIndex(i: int, count: int)
    ensures Direction(i, i, count) == -1 <==> count == 1 && i == 0
  {
  }

  /** The index after `i` in a cycle of `count` states. */
  function NextInCycle(i: int, count: int): (j: int)
    requires 0 <= i < count
    ensures 0 <= j < count
    ensures j != i || count == 1
  {
    if i == count - 1 then 0 else i + 1
  }

  /** The index before `i` in a cycle of `count` states. */
  function PreviousInCycle(i: int, count: int): (j: int)
    requires 0 <= i < count
    ensures 0 <= j < count
    ensures NextInCycle(j, count) == i
  {
    if i == 0 then count - 1 else i - 1
  }

  /**
   * With three or more states, stepping to the next state in the cycle always
   * animates forwards and stepping to the previous one always backwards,
   * including across the wrap boundary.
   */
  lemma CyclicSteps(i: int, count: int)
    requires 3 <= count && 0 <= i < count
    ensures Direction(i, NextInCycle(i, count), count) == 1
    ensures Direction(i, PreviousInCycle(i, count), count) == -1
  {
  }

  /**
   * With exactly two states, every switch lies on the wrap boundary, so each
   * animates against index order: 0 to 1 backwards, 1 to 0 forwards.
   */
  lemma TwoStatesReversed(previous: int, current: int)
    requires 0 <= previous < 2 && 0 <= current < 2 && previous != current
    ensures AtWrapBoundary(previous, current, 2)
    ensures Direction(previous, current, 2) == (if previous < current then -1 else 1)
  {
  }

  /**
   * The index the render settles on: the requested one if it has a child,
   * otherwise the previously shown one if it has a child, otherwise the
   * initial state.
   */
  function Resolve(current: int, previous: int, initialState: int, children: seq<bool>): (r: int)
    ensures r == current || r == previous || r == initialState
    ensures HasChild(children, current) ==> r == current
    ensures !HasChild(children, current) && HasChild(children, previous) ==> r == previous
    ensures HasChild(children, r) <==>
      HasChild(children, current) || HasChild(children, previous) || HasChild(children, initialState)
    ensures !HasChild(children, r) ==> r == initialState
  {
    if HasChild(children, current) then current
    else if HasChild(children, previous) then previous
    else initialState
  }

  /**
   * Rendering again with the same inputs, once the reference holds the resolved
   * index, settles on that same index: a re-render never switches again.
   */
  lemma ResolveStable(current: int, previous: int, initialState: int, children: seq<bool>)
    ensures var r := Resolve(current, previous, initialState, children);
      Resolve(current, r, initialState, children) == r
  {
  }

  /** The arguments `onSwitch` is called with: new index, old index, identifier. */
  datatype SwitchCall = SwitchCall(to: int, from: int, identifier: string)

  /** What the render shows: the child at an index, or the empty-state placeholder. */
  datatype View = Child(index: nat) | Placeholder(title: string)

  /** The observable outcome of one render step. */
  datatype Frame = Frame(direction: int, view: View, onSwitch: Option<SwitchCall>)

  const NoStatesTitle: string := "No states"

  /**
   * The component's two persistent references. `history` (ghost) is the
   * sequence of indices the component has switched between; it explains what
   * the references hold.
   */
  class Switch {
    var currentIndexRef: int
    var previousIndexRef: int
    ghost var history: seq<int>

    /** The current reference is the last shown index and the previous reference the one before it. */
    ghost predicate Valid()
      reads this
    {
      && |history| >= 1
      && currentIndexRef == history[|history| - 1]
      && previousIndexRef == (if |history| == 1 then currentIndexRef else history[|history| - 2])
      && (forall k :: 0 < k < |history| ==> history[k - 1] != history[k])
    }

    /** First render: both references start at the requested index. */
    constructor (currentStateIndex: Option<int>, initialState: int)
      ensures Valid()
      ensures currentIndexRef == Current(currentStateIndex, initialState)
      ensures previousIndexRef == currentIndexRef
      ensures history == [currentIndexRef]
    {
      var current := Current(currentStateIndex, initialState);
      currentIndexRef := current;
      previousIndexRef := current;
      history := [current];
    }

    /**
     * One render: compute the direction from the last shown index, resolve
     * the index to show, move the previous reference only on a real switch,
     * fire `onSwitch` on a real switch when a callback is supplied, and show
     * the child or the placeholder.
     */
    method RenderStep(currentStateIndex: Option<int>, initialState: int, children: seq<bool>,
                      onSwitchSupplied: bool, identifier: string) returns (out: Frame)
      requires Valid()
      modifies this
      ensures Valid()
      ensures currentIndexRef ==
        Resolve(Current(currentStateIndex, initialState), old(currentIndexRef), initialState, children)
      ensures currentIndexRef != old(currentIndexRef) ==>
        previousIndexRef == old(currentIndexRef) && history == old(history) + [currentIndexRef]
      ensures currentIndexRef == old(currentIndexRef) ==>
        previousIndexRef == old(previousIndexRef) && history == old(history)
      ensures out.direction ==
        Direction(old(currentIndexRef), Current(currentStateIndex, initialState), StateCount(children))
      ensures out.onSwitch.Some? <==> currentIndexRef != old(currentIndexRef) && onSwitchSupplied
      ensures out.onSwitch.Some? ==>
        out.onSwitch.value == SwitchCall(currentIndexRef, old(currentIndexRef), identifier)
      ensures HasChild(children, currentIndexRef) ==> out.view == Child(currentIndexRef)
      ensures !HasChild(children, currentIndexRef) ==> out.view == Placeholder(NoStatesTitle)
    {
      var current := Current(currentStateIndex, initialState);
      var previous := currentIndexRef;
      var direction := Direction(previous, current, StateCount(children));

      if HasChild(children, current) {
        currentIndexRef := current;
      } else if HasChild(children, previous) {
        currentIndexRef := previous;
      } else {
        currentIndexRef := initialState;
      }

      if currentIndexRef != previous {
        previousIndexRef := previous;
        history := history + [currentIndexRef];
      }

      var call := None;
      if currentIndexRef != previous && onSwitchSupplied {
        call := Some(SwitchCall(currentIndexRef, previous, identifier));
      }

      var view;
      if HasChild(children, currentIndexRef) {
        view := Child(currentIndexRef);
      } else {
        view := Placeholder(NoStatesTitle);
      }
      out := Frame(direction, view, call);
    }
  }

  /** The store's entry for an identifier; a missing entry reads as undefined. */
  function StoreIndex(store: map<string, int>, identifier: string): (v: Option<int>)
    ensures v.Some? <==> identifier in store
    ensures v.Some? ==> v.value == store[identifier]
  {
    if identifier in store then Some(store[identifier]) else None
  }

  /**
   * The store subscription: `Some(v)` asks to set the component state to `v`
   * (`None` inside meaning undefined); `None` asks nothing.
   */
  function StoreRequest(store: map<string, int>, identifier: string, currentIndexRef: int): (req: Option<Option<int>>)
    ensures req.None? <==> identifier in store && store[identifier] == currentIndexRef
    ensures req.Some? ==> req.value == StoreIndex(store, identifier)
  {
    var updated := StoreIndex(store, identifier);
    if updated != Some(currentIndexRef) then Some(updated) else None
  }

  /**
   * Following a store request settles the subscription exactly when the
   * requested index is the one the next render resolves to, which it is
   * whenever that index has a child.
   */
  lemma StoreSettles(store: map<string, int>, identifier: string, previous: int,
                     initialState: int, children: seq<bool>)
    requires identifier in store
    ensures var v := store[identifier];
      var r := Resolve(Current(Some(v), initialState), previous, initialState, children);
      (StoreRequest(store, identifier, r) == None <==> r == v)
      && (HasChild(children, v) ==> StoreRequest(store, identifier, r) == None)
  {
  }

  /**
   * An identifier missing from the store always draws a request to clear the
   * component state, which makes the next render fall back to the initial state.
   */
  lemma StoreMissingEntry(store: map<string, int>, identifier: string, currentIndexRef: int, initialState: int)
    requires identifier !in store
    ensures StoreRequest(store, identifier, currentIndexRef) == Some(None)
    ensures Current(StoreRequest(store, identifier, currentIndexRef).value, initialState) == initialState
  {
  }
}
