# Cells grid and Switch state bookkeeping

This project models two components of a design tool's component runtime.

**Cells** (`cells.dfy`, with `decimal.dfy`) models `Cells.render`. The component gets a `width` x `height` container, `row` rows, `col` columns and a gap `padding`.
- It computes one cell size per axis.
- Two nested loops push a row-major list of `row * col` plain cells. Each has an `x`/`y` offset and a React key `"c:r"`.
- When the number of content items fits in the grid, a second loop overwrites the first entries with the content items. Each item keeps its cell's position and gets key `"i"`.
- `BuildGrid` and `OverlayContent` are the two loops. Each is proved against a specification function (`Grid`, `Overlay`), and the lemmas state what those functions promise.
- `decimal.dfy` models the decimal text that a template literal gives a non-negative integer. It is used for the keys.

**Switch** (`switch_state.dfy`, `switch_controls.dfy`) models two parts of the Switch component.
- The render step is a class with the component's two references, `currentIndexRef` and `previousIndexRef`. One render:
  - picks the requested index;
  - computes the wrap-aware animation direction;
  - resolves the index to show, falling back to the previous index and then to the initial state;
  - moves the previous reference only on a real switch;
  - fires `onSwitch`;
  - shows the child or the "No states" placeholder.
- A ghost history of shown indices explains what both references hold.
- The store subscription's guard is a pure function.
- `switch_controls.dfy` models the `hidden` predicates of the transition property controls, with lemmas about which controls can be shown together.

## Model

| member | source | states |
|---|---|---|
| Cells.CellsSpanAxis | node_modules/@framer/benjamin.cells/code/Cells.tsx:65-68 | For `count >= 1`, `count` cells of the computed size plus `count - 1` gaps span exactly the axis length. |
| Cells.LayoutSteps | node_modules/@framer/benjamin.cells/code/Cells.tsx:65-68 | One cell plus one gap, taken `col` (`row`) times, is the width (height) plus one gap. The step is positive iff width (height) plus padding is positive. |
| Cells.Grid | node_modules/@framer/benjamin.cells/code/Cells.tsx:92-98 | The pushed list has exactly `row * col` entries. |
| Cells.GridAt | node_modules/@framer/benjamin.cells/code/Cells.tsx:92-97 | Entry `r * col + c` is the plain cell at `x = c * (w + padding)`, `y = r * (h + padding)` with key `c:r`, for every row `r` and column `c`. |
| Cells.GridIndex | node_modules/@framer/benjamin.cells/code/Cells.tsx:92-97 | Every entry `k` is the plain cell of row `k / col` and column `k % col` (row-major order). |
| Cells.KeyTextInjective | node_modules/@framer/benjamin.cells/code/Cells.tsx:127-128 | Two keys have the same text iff they are the same key. This holds across the `"c:r"` and `"i"` forms. |
| Cells.GridKeysDistinct | node_modules/@framer/benjamin.cells/code/Cells.tsx:96 | No two entries of the plain grid share a key. |
| Cells.RowIncreasing | node_modules/@framer/benjamin.cells/code/Cells.tsx:94 | When `w + padding > 0`, `x` strictly increases from left to right along every row. |
| Cells.ColumnIncreasing | node_modules/@framer/benjamin.cells/code/Cells.tsx:95 | When `h + padding > 0`, `y` strictly increases from top to bottom down every column. |
| Cells.LayoutEdges | node_modules/@framer/benjamin.cells/code/Cells.tsx:94-95 | If the cells and gaps span `width` x `height`, the last column's right edge is `width` and the last row's bottom edge is `height`. |
| Cells.GridEdges | node_modules/@framer/benjamin.cells/code/Cells.tsx:65-68 | For the computed sizes, the last cell of every row ends at the right edge and the last cell of every column at the bottom edge. |
| Cells.DefaultGrid | node_modules/@framer/benjamin.cells/code/Cells.tsx:19-25 | The default 300 x 300, 2 x 2, padding 15 gives 142.5 x 142.5 cells. The second column and row start at 157.5. The four entries and their keys are given. |
| Cells.BuildGrid | node_modules/@framer/benjamin.cells/code/Cells.tsx:92-98 | The nested push loops produce exactly the row-major grid. |
| Cells.Overlay | node_modules/@framer/benjamin.cells/code/Cells.tsx:100-131 | The overlay keeps the list length and every entry's `x` and `y`. |
| Cells.OverlayContent | node_modules/@framer/benjamin.cells/code/Cells.tsx:100-131 | The overwrite loop, guarded by a non-zero count and a count that fits, produces exactly the overlaid list. |
| Cells.Render | node_modules/@framer/benjamin.cells/code/Cells.tsx:55-134 | For `row, col >= 1`, render returns the grid of the computed layout with the content overlaid. |
| Cells.RenderedCells | node_modules/@framer/benjamin.cells/code/Cells.tsx:100-131 | The result has `row * col` entries. Entry `k` is content item `k` (same position, key `"k"`) exactly when `0 < count <= row * col` and `k < count`; otherwise it is the plain cell. All key texts are distinct. |
| Cells.NoOverlayWhenNoFit | node_modules/@framer/benjamin.cells/code/Cells.tsx:100-104 | With no content, or more content than cells, the list is the plain grid and every entry is plain. |
| Decimal.NatToString | node_modules/@framer/benjamin.cells/code/Cells.tsx:96 | The text of a non-negative integer is a non-empty string of digits. |
| Decimal.NatToStringInjective | node_modules/@framer/benjamin.cells/code/Cells.tsx:96 | Two numbers have the same decimal text iff they are equal. The proof uses the parse round trip `ParseNatToString`. |
| SwitchState.StateCount | node_modules/@framer/tishogeorgiev.switch/code/Switch.tsx:72 | The number of states is at most the number of slots. It is zero iff no slot is connected. |
| SwitchState.StateCountAllConnected | node_modules/@framer/tishogeorgiev.switch/code/Switch.tsx:72 | When every slot is connected, the number of states equals the number of slots. |
| SwitchState.Current | node_modules/@framer/tishogeorgiev.switch/code/Switch.tsx:74-77 | The requested index is the component state when it is defined, otherwise `initialState`. |
| SwitchState.Direction | node_modules/@framer/tishogeorgiev.switch/code/Switch.tsx:83-94 | The direction is 1 or -1. Off the wrap boundary it is 1 iff `previous <= current`. On the boundary it is 1 iff `current < previous`. |
| SwitchState.DirectionAntisymmetric | node_modules/@framer/tishogeorgiev.switch/code/Switch.tsx:84-94 | For distinct indices, swapping source and target flips the direction. |
| SwitchState.DirectionSameIndex | node_modules/@framer/tishogeorgiev.switch/code/Switch.tsx:84-94 | Re-rendering the same index gives -1 iff there is exactly one state and the index is 0. |
| SwitchState.CyclicSteps | node_modules/@framer/tishogeorgiev.switch/code/Switch.tsx:89-94 | With three or more states, a step to the next state in the cycle animates forwards and a step to the previous one backwards, including across the wrap. |
| SwitchState.TwoStatesReversed | node_modules/@framer/tishogeorgiev.switch/code/Switch.tsx:84-94 | With two states every switch is on the wrap boundary: 0 to 1 animates backwards and 1 to 0 forwards. |
| SwitchState.Resolve | node_modules/@framer/tishogeorgiev.switch/code/Switch.tsx:96-102 | The resolved index is `current` when it has a child, else `previous` when that has one, else `initialState`. It has a child iff one of the three has. A childless result is `initialState`. |
| SwitchState.ResolveStable | node_modules/@framer/tishogeorgiev.switch/code/Switch.tsx:96-109 | Resolving again from the resolved index gives the same index, so a re-render neither switches nor moves the references. |
| SwitchState.Switch.constructor | node_modules/@framer/tishogeorgiev.switch/code/Switch.tsx:74-81 | Both references start at the first requested index. |
| SwitchState.Switch.RenderStep | node_modules/@framer/tishogeorgiev.switch/code/Switch.tsx:83-118 | The new current reference is the resolved index. The previous reference becomes the old current only on a real switch. The direction is taken from the old reference. `onSwitch(resolved, old, identifier)` fires iff the index changed and a callback is supplied. The view is the child or the "No states" placeholder. The invariant ties both references to the history. |
| SwitchState.StoreIndex | node_modules/@framer/tishogeorgiev.switch/code/Switch.tsx:122 | The store's index for the identifier is defined iff the identifier is in the store. |
| SwitchState.StoreRequest | node_modules/@framer/tishogeorgiev.switch/code/Switch.tsx:121-125 | The subscription requests nothing iff the store holds exactly `currentIndexRef`. Otherwise it requests the store's value, possibly undefined. |
| SwitchState.StoreSettles | node_modules/@framer/tishogeorgiev.switch/code/Switch.tsx:121-125 | After rendering the requested index, the subscription is quiet iff the render resolved to that index. It is always quiet when that index has a child. |
| SwitchState.StoreMissingEntry | node_modules/@framer/tishogeorgiev.switch/code/Switch.tsx:121-125 | A missing identifier always requests an undefined state, which makes the next render fall back to `initialState`. |
| SwitchControls.ParameterVisibility | node_modules/@framer/tishogeorgiev.switch/code/Switch.tsx:400-404 | A spring parameter (a duration or ease control) is shown iff the group is active, the transition is not instant, the configuration is not default and the type is spring (tween). |
| SwitchControls.SpringTweenExclusive | node_modules/@framer/tishogeorgiev.switch/code/Switch.tsx:400-445 | No spring parameter is ever shown together with a tween parameter. |
| SwitchControls.ParametersTogether | node_modules/@framer/tishogeorgiev.switch/code/Switch.tsx:400-431 | Damping, mass and stiffness are shown together, and so are duration and easing. |
| SwitchControls.VisibilityNests | node_modules/@framer/tishogeorgiev.switch/code/Switch.tsx:379-532 | A custom curve is shown only with easing set to custom. Every parameter needs the type selector, and the type selector needs the configuration switch. |
| SwitchControls.NestedGroupsNeedAutoAnimate | node_modules/@framer/tishogeorgiev.switch/code/Switch.tsx:655-672 | A control of the enter or exit group is shown only when the transition is auto-animate. The auto-animate options are then shown too. |
| SwitchControls.DefaultConfigHidesParameters | node_modules/@framer/tishogeorgiev.switch/code/Switch.tsx:389-392 | With the default configuration, only the configuration switch can be shown. |
| SwitchControls.InstantHidesMain | node_modules/@framer/tishogeorgiev.switch/code/Switch.tsx:379-380 | An instant main transition hides all main transition controls. |

## Left out

- The compiled bundle `node_modules/@framer/benjamin.cells/dist/index.js` duplicates `Cells.tsx` and adds loader plumbing. Only the TypeScript source is modelled.
- Floating point: sizes and offsets are ideal reals, with no IEEE rounding.
- Cells: React elements, styles, `radius`, `color`, the `Cell` closures and `cloneElement` are host rendering and are not modelled.
  - A content item is modelled by its index.
  - `React.Children.count` is the `count` parameter.
- Cells.Render: the controls' maximum of 25 rows and columns is not required. The model holds for any `row, col >= 1`.
- Cells.Render: the list is a local value that nothing else refers to, so the pushes and the in-place overwrite are modelled as `seq` updates. Array identity is not captured.
- Switch: every hook and effect is left out because it is host machinery:
  - the identifier state and `randomID`;
  - the effect that writes `initialState` to the store;
  - registering the states;
  - event-handler extraction, hotkeys and timeouts.
- Switch: the animation engine (`TRANSITIONS`, `AutoAnimatedState`, transition props) and the thumbnail are left out. The direction is computed, but its use by the animation is not modelled.
- Switch: `sanitizePropName` and `prefixPropName` are not part of this model. The render step receives the already sanitized identifier. The control predicates take the group's prefixing function `p` as a parameter.
- Switch: children are modelled as connected or empty slots, without the element values or the state names.
- Switch: React re-rendering after a state update is not modelled. The store callback's guard is a pure function.
- SwitchState.Switch.RenderStep: indices are integers. Fractional or non-numeric JavaScript values are not modelled.
- SwitchControls: the `hidden` predicate of the identifier control (`props.autoAssignIdentifier`) is not modelled.
