# Keyed list positioning, modelled in Dafny

A model of the two pieces of logic in a Yew demonstration of keyed-list
reordering (`src/main.rs`):

- **`DummyList`** (`dummy_list.dfy`). The component pairs each of its byte-valued
  fields with the index at which it sits. That index is used as both the
  `left` and the `top` coordinate. It then sorts the triples by field, largest
  first. The nodes come out in an order fixed by the values alone, so a swap
  never changes the order in which they are emitted. Each node's coordinates still name the index
  where its value currently sits. The enumerate/map/collect chain is the function
  `WithPositioning`. The in-place `sort_by` is the array method
  `SortByFieldDescending`, an insertion sort. `Render` puts the two together.
  The predicate `IsRendering(fields, placed)` says what any correct run
  produces: the positioned triples, in some order, largest field first. The
  lemmas about rendering are stated over that predicate.
- **`App`** (`app.dfy`). The state starts as `[0, 1, ..., 9]`. The two button
  callbacks copy the array, swap indices 2 and 3 (or 2 and 5) in the copy, and
  install the copy. `FieldsState` is a class whose array field is replaced by a
  freshly swapped copy on every click. Its ghost `History` records the buttons
  clicked so far. `Valid()` ties the array to `Run(History)`, the functional
  meaning of that click sequence.

Swapping indices 2 and 5 after the neighbour swap turns
`[0, 1, 3, 2, 4, 5, 6, 7, 8, 9]` into `[0, 1, 5, 2, 4, 3, 6, 7, 8, 9]`, which is
what the code does. Index 2 holds 3 at that point, so value 3, not value 2,
moves to index 5. `DemoStates` and `SwapFarRendering` state this.
`[0, 1, 5, 3, 4, 2, ...]` would be `swap(2, 5)` applied to the initial state,
skipping the neighbour swap. The code does not do that.

## Model

| member | source | states |
|---|---|---|
| `DummyList.IndexOf` | src/main.rs:11-12 | The reference "index at which a value sits". It is an index holding the value, and no earlier index holds it. |
| `DummyList.WithPositioning` | src/main.rs:13-17 | One triple per field, in input order. The triples' fields read back as the input, and the triple at index `k` has `left == top == k`. |
| `DummyList.PositioningMembership` | src/main.rs:13-17 | A triple is among the built triples if and only if `left == top`, that coordinate is an index of the input, and the input holds the triple's field there. |
| `DummyList.PositioningByValue` | src/main.rs:13-17 | With distinct fields, a triple is built if and only if its field occurs in the input and both coordinates equal that field's index. |
| `DummyList.KeysOfPositioning` | src/main.rs:13-17 | Reading the fields back off the built triples gives the input, in input order. |
| `DummyList.SortByFieldDescending` | src/main.rs:22 | After the in-place sort, the triples are in non-increasing order of field and are a permutation of what they were. |
| `DummyList.InsertIntoPrefix` | src/main.rs:22 | One sorting step. If the first `i` triples are ordered, the first `i + 1` are ordered afterwards. The triples after index `i` are untouched, and the array stays a permutation. |
| `DummyList.Render` | src/main.rs:13-22 | The result is a rendering of the fields. Keys are non-increasing and are exactly the input's values. Keys are strictly decreasing when the input has no repeats. Every node has `left == top`, an index where the input holds the node's key. |
| `DummyList.RenderingKeys` | src/main.rs:13-22 | Any rendering has one node per field. Its keys are non-increasing and form the same multiset as the input, with no repeated key when the input has none. |
| `DummyList.RenderingCoordinates` | src/main.rs:18-22 | In any rendering, each node's `left` equals its `top`, and the input holds the node's key at that index. |
| `DummyList.EmittedOrderIndependent` | src/main.rs:18-22 | Two inputs holding the same values in any arrangement emit the same key sequence. Only coordinates can differ. |
| `DummyList.RenderingDeterministic` | src/main.rs:13-22 | With distinct fields there is exactly one rendering, so re-rendering an unchanged state emits identical nodes. |
| `App.Initial` | src/main.rs:43 | The initial state has ten fields, each equal to its index, with no repeats. |
| `App.InitialValues` | src/main.rs:43 | The initial state holds exactly the values 0 to 9. |
| `App.Swapped` | src/main.rs:50 | `swap(i, j)` keeps the length, exchanges positions `i` and `j`, and leaves every other position unchanged. |
| `App.SwappedInvolution` | src/main.rs:50 | Swapping the same two indices twice restores the array. |
| `App.SwappedPermutes` | src/main.rs:49-60 | A swap preserves the multiset of values. This holds for both callbacks (lines 49-51 and 58-60). |
| `App.SwappedDistinct` | src/main.rs:49-60 | If an array has no repeated values, it still has none after a swap. This holds for both callbacks (lines 49-51 and 58-60). |
| `App.SwapPair` | src/main.rs:50-59 | Defined as (2, 3) for "Swap neighbors" and (2, 5) for "Swap further apart". The contract states that both indices are in range and different. |
| `App.Click` | src/main.rs:48-60 | A click of either button (lines 48-51 and 57-60) leaves a state of ten fields. |
| `App.Run` | src/main.rs:43-62 | Every state reachable by clicks has ten fields. |
| `App.RunKeepsValues` | src/main.rs:43-60 | After any sequence of clicks, the state is a permutation of the initial one, has no repeats, and holds exactly the values 0 to 9. |
| `App.ClickTwiceRestores` | src/main.rs:49-60 | Clicking the same button twice in a row restores the previous state. |
| `App.DemoStates` | src/main.rs:43-60 | "Swap neighbors" gives `[0,1,3,2,4,5,6,7,8,9]`. A following "Swap further apart" gives `[0,1,5,2,4,3,6,7,8,9]`. |
| `App.SwapMovesOnlyTwoNodes` | src/main.rs:18-22 | For distinct values, a swap of indices `i` and `j` keeps the emitted key order. The node keyed by the old `g[i]` moves to `j`, the node keyed by the old `g[j]` moves to `i`, and every other node is emitted unchanged. |
| `App.InitialRendering` | src/main.rs:13-22 | The initial state renders as nodes keyed 9 down to 0, each with `left = top =` its own key. |
| `App.SwapNeighborsRendering` | src/main.rs:46-53 | After "Swap neighbors", the emitted order is still 9 down to 0. Node 3 has `left = top = 2` and node 2 has 3. Every other node keeps `left = top =` its key. |
| `App.SwapFarRendering` | src/main.rs:55-62 | A following "Swap further apart" keeps the emitted order. Node 5 moves to 2 and node 3 moves to 5. Every other node is unchanged. |
| `App.FieldsState.constructor` | src/main.rs:43-44 | The state starts as `[0, ..., 9]` with an empty click history. |
| `App.FieldsState.Press` | src/main.rs:48-51 | Installs a fresh copy of the array with the button's two indices exchanged, records the click, and keeps `Valid()`. |
| `App.FieldsState.SwapNeighbors` | src/main.rs:46-53 | The new array is the old one with indices 2 and 3 exchanged. |
| `App.FieldsState.SwapFar` | src/main.rs:55-62 | The new array is the old one with indices 2 and 5 exchanged. |

## Left out

- The `html!` output (the wrapper `div`, one `div` per triple with `key={field}`), Yew's keyed diffing and the `#[function_component]` machinery are view-library behaviour. The model stops at the ordered triple list, which is the data each node is built from. `Keys` gives the emitted key sequence.
- The CSS `format!` string, the `rem` unit and the one-second transition are presentation only.
- `use_state`, re-render scheduling after `fields.set`, and the `Callback`/`onclick` wiring belong to the event loop. `set` is modelled as replacing the array field.
- `wasm_logger::init`, `info!` and `yew::Renderer` in `main` are I/O and bootstrap.
- `DummyList.SortByFieldDescending`: the contract does not state the stability of the standard library's `sort_by`. The ordering is an insertion sort, not the library's merge sort. It only moves a triple past a strictly smaller field, so it is stable too, but the contract does not promise this. With repeated field values, the contract leaves the relative order of equal fields open, and `RenderingDeterministic` requires distinct fields.
- `DummyList.Render`: the fixed length of the `[u8; 10]` input is not enforced. The model accepts any number of fields.
- `App.Swapped`: the panic of `swap` on an out-of-range index is not modelled. It is excluded by a precondition, because both callbacks use constant indices in range.
