# Library seat occupancy: a Dafny model

The application shows a 3D model of a library floor. The main screen
keeps, in memory, a map from keys `"seat_1"` .. `"seat_57"` to seat
records (`SeatUi`: number, occupied flag, occupant, start time, validity).
It also keeps the currently selected seat and two form fields, the
occupant name and "valid until". Tapping a model node whose name is one of
those keys selects that seat and loads the form from it. The
Occupy/Release button flips the selected seat and writes it back. Once,
on the first frame, a depth-first walk over the model's scene graph
renames `seat_1`, `seat_2`, ..., in pre-order, every node it reaches whose
scale marks it as a potential seat. The walk reaches the root and, below a
reached node, each child that is a model node; nothing under any other
child is visited.

This project lifts that logic out of its UI callbacks into pure
functions over an explicit state and proves what they guarantee.

- `options.dfy`: module `Options`. Kotlin's nullable values and `?:`.
- `decimal.dfy`: module `Decimal`. How `"seat_$i"` renders an integer, with a parser proving the rendering injective.
- `seats.dfy`: module `Seats`. The seat record, its key, and the toggle on one record.
- `screen.dfy`: module `Screen`. The screen state: initialisation, selection by touch, form edits, the toggle, and the invariant every reachable state keeps.
- `seat_tree.dfy`: module `SeatTree`. The seat-naming walk, checked against a reference numbering of the pre-order node list.
- `scene.dfy`: module `Scene`. How the walk's names meet the 57-seat map.

Parameters stand in for what the framework supplies. The clock reading is
`now`. The touch action is an integer, with `ACTION_UP = 1` as in
Android's `MotionEvent`. The hit test is the name of the model node under
the finger, or `None` when there is no model node or it has no name. The
scale threshold that marks a node as a potential seat is a per-node flag.

## Model

| member | source | states |
|---|---|---|
| Options.GetOr | app/src/main/java/eu/tutorials/kl_boox_house/Mainscreen.kt:125-126 | definition of Kotlin's `?:` on a nullable value; its use is stated by the Screen.Select row (the form gets "" for a null occupant or validity) |
| Decimal.NatToString | app/src/main/java/eu/tutorials/kl_boox_house/Mainscreen.kt:63 | definition of the decimal rendering of a non-negative number in string templates; its properties are the Decimal.NatToStringDigits and Decimal.ParseIntToString rows |
| Decimal.IntToString | app/src/main/java/eu/tutorials/kl_boox_house/Mainscreen.kt:63 | definition of the rendering of any integer in `"seat_$i"`, with a leading minus sign for negatives; its properties are the Decimal.ParseIntToString and Decimal.IntToStringInjective rows |
| Decimal.NatToStringDigits | app/src/main/java/eu/tutorials/kl_boox_house/Mainscreen.kt:63 | the rendering of a non-negative seat number is a non-empty digit string with no leading zero |
| Decimal.ParseIntToString | app/src/main/java/eu/tutorials/kl_boox_house/Mainscreen.kt:63 | reading the rendering of any integer back gives the same integer |
| Decimal.IntToStringInjective | app/src/main/java/eu/tutorials/kl_boox_house/Mainscreen.kt:63 | two integers render to the same string exactly when they are equal |
| Seats.StartsWith | app/src/main/java/eu/tutorials/kl_boox_house/Mainscreen.kt:121 | definition of Kotlin's `startsWith`: the prefix is no longer than the string and equals its first characters; its uses are stated by the Seats.SeatKeyHasPrefix, Screen.KeysCarryPrefix and Screen.PrefixTestRedundant rows |
| Seats.SeatKey | app/src/main/java/eu/tutorials/kl_boox_house/Mainscreen.kt:63 | definition of the key `"seat_$i"`; its properties are the Seats.SeatKeyHasPrefix, Seats.KeyNumberOfSeatKey and Seats.SeatKeyInjective rows |
| Seats.SeatKeyHasPrefix | app/src/main/java/eu/tutorials/kl_boox_house/Mainscreen.kt:63 | every seat key starts with "seat_" and has at least one character after it |
| Seats.KeyNumberOfSeatKey | app/src/main/java/eu/tutorials/kl_boox_house/Mainscreen.kt:195 | the seat number can be read back out of the key "seat_<n>" |
| Seats.SeatKeyInjective | app/src/main/java/eu/tutorials/kl_boox_house/Mainscreen.kt:195 | "seat_<a>" and "seat_<b>" are the same key exactly when a == b, so each key identifies one seat |
| Seats.NewSeat | app/src/main/java/eu/tutorials/kl_boox_house/Mainscreen.kt:63-66 | a freshly created seat has the given number and is available: not occupied, no occupant, no start time, no validity |
| Seats.ToggleSeat | app/src/main/java/eu/tutorials/kl_boox_house/Mainscreen.kt:188-193 | the button keeps the seat number and flips the flag; occupying records the form's name and validity and the given time; releasing gives back a fresh available seat; the result's occupancy data always agrees with its flag |
| Seats.ReleaseUndoesOccupy | app/src/main/java/eu/tutorials/kl_boox_house/Mainscreen.kt:188-193 | occupying an available seat and then releasing it gives back the original seat, whatever the form held at either press |
| Seats.OccupyAfterRelease | app/src/main/java/eu/tutorials/kl_boox_house/Mainscreen.kt:188-193 | releasing and re-occupying leaves the seat occupied and equal to the original exactly when the second press supplies the data that was recorded |
| Screen.SeatsUpTo | app/src/main/java/eu/tutorials/kl_boox_house/Mainscreen.kt:61-67 | the seats map built for n seats has exactly the keys "seat_1".."seat_n", n entries, and the key "seat_i" holds available seat i |
| Screen.KeysUpToMembership | app/src/main/java/eu/tutorials/kl_boox_house/Mainscreen.kt:62-63 | "seat_i" is one of the first n keys exactly when 1 <= i <= n |
| Screen.KeysUpToCount | app/src/main/java/eu/tutorials/kl_boox_house/Mainscreen.kt:62-63 | the first n keys are n distinct strings |
| Screen.HoldsSeatsUpToUnique | app/src/main/java/eu/tutorials/kl_boox_house/Mainscreen.kt:62-66 | only one map holds available seats 1..n under their keys and nothing else, so the loop's result is the declared initial map |
| Screen.InitSeats | app/src/main/java/eu/tutorials/kl_boox_house/Mainscreen.kt:61-67 | the 1..57 loop run on the empty map yields the 57-seat map |
| Screen.Init | app/src/main/java/eu/tutorials/kl_boox_house/Mainscreen.kt:53-67 | the first state has exactly the 57 keys, with key "seat_i" holding seat number i and every seat available; nothing is selected and both form fields are empty |
| Screen.StoredNumberInRange | app/src/main/java/eu/tutorials/kl_boox_house/Mainscreen.kt:62-64 | in a well-formed state every stored seat number lies in 1..57 |
| Screen.Select | app/src/main/java/eu/tutorials/kl_boox_house/Mainscreen.kt:117-131 | the state changes only on ACTION_UP over a node whose name is a key. For a "seat_" name that is a key, the map entry becomes the selection and the form is loaded from its occupant and validity, with "" for null. The map is never changed |
| Screen.EditName | app/src/main/java/eu/tutorials/kl_boox_house/Mainscreen.kt:170-175 | typing in the name field sets that field and nothing else |
| Screen.EditValidUntil | app/src/main/java/eu/tutorials/kl_boox_house/Mainscreen.kt:177-182 | typing in the validity field sets that field and nothing else |
| Screen.Toggle | app/src/main/java/eu/tutorials/kl_boox_house/Mainscreen.kt:186-196 | with no selection nothing changes. Otherwise only key "seat_<seatNumber>" is written: it holds the flipped seat, with the form data and the time when occupying and cleared fields when releasing. Every other entry is unchanged, and the selection is the record written |
| Screen.ToggleKeepsInv | app/src/main/java/eu/tutorials/kl_boox_house/Mainscreen.kt:186-196 | the toggle keeps the state well formed and never adds a key, because the selection is always the record stored under its own key |
| Screen.SelectKeepsInv | app/src/main/java/eu/tutorials/kl_boox_house/Mainscreen.kt:117-131 | selection keeps the state well formed, because the new selection is read from the map under its own key |
| Screen.Step | app/src/main/java/eu/tutorials/kl_boox_house/Mainscreen.kt:117-196 | definition of the screen's response to one event: a touch is Screen.Select, a button press Screen.Toggle, typing Screen.EditName or Screen.EditValidUntil; its property is the Screen.StepKeepsInv row |
| Screen.Run | app/src/main/java/eu/tutorials/kl_boox_house/Mainscreen.kt:117-196 | definition of a run as events applied one after another from a state; its properties are the Screen.RunKeepsInv and Screen.ReachableInv rows |
| Screen.StepKeepsInv | app/src/main/java/eu/tutorials/kl_boox_house/Mainscreen.kt:117-196 | every touch, button press and field edit keeps the state well formed |
| Screen.RunKeepsInv | app/src/main/java/eu/tutorials/kl_boox_house/Mainscreen.kt:117-196 | any sequence of events keeps the state well formed |
| Screen.ReachableInv | app/src/main/java/eu/tutorials/kl_boox_house/Mainscreen.kt:53-196 | every state reachable from the first one by touches, presses and edits is well formed |
| Screen.InvHoldsAllSeats | app/src/main/java/eu/tutorials/kl_boox_house/Mainscreen.kt:62-64 | a well-formed map has exactly 57 entries, and key "seat_i" holds seat number i |
| Screen.SelectByNumber | app/src/main/java/eu/tutorials/kl_boox_house/Mainscreen.kt:121-127 | a lift over the node "seat_<n>" selects seat n when 1 <= n <= 57, and leaves the state unchanged otherwise |
| Screen.KeysCarryPrefix | app/src/main/java/eu/tutorials/kl_boox_house/Mainscreen.kt:63 | in a well-formed state every key starts with "seat_" |
| Screen.PrefixTestRedundant | app/src/main/java/eu/tutorials/kl_boox_house/Mainscreen.kt:121-123 | when every key starts with "seat_", as in every well-formed state, the prefix test never changes the outcome of selection; map membership alone decides |
| Screen.OccupyThenRelease | app/src/main/java/eu/tutorials/kl_boox_house/Mainscreen.kt:186-196 | pressing the button twice on an available selected seat gives back the earlier state |
| SeatTree.MarkNode | app/src/main/java/eu/tutorials/kl_boox_house/Mainscreen.kt:219-229 | walking a subtree names each reached potential seat as the reference numbering of its pre-order list does. The counter advances by the number of nodes named, and nothing but names changes |
| SeatTree.MarkChildren | app/src/main/java/eu/tutorials/kl_boox_house/Mainscreen.kt:230-241 | the child loop walks model-node children in order with the counter threaded through, and skips any other child with everything below it |
| SeatTree.SetupSeats | app/src/main/java/eu/tutorials/kl_boox_house/Mainscreen.kt:217-244 | starting from 1, the final counter is one more than the number of nodes named, and the tree keeps its shape and flags |
| SeatTree.SetupSeatsNames | app/src/main/java/eu/tutorials/kl_boox_house/Mainscreen.kt:218-243 | at pre-order position i, a reached potential seat is named "seat_<k+1>", where k counts such nodes before it. Every other node keeps its name |
| SeatTree.RenumberAt | app/src/main/java/eu/tutorials/kl_boox_house/Mainscreen.kt:224-227 | in the reference numbering, a qualifying entry is named after the count of qualifying entries before it, and other entries are unchanged |
| SeatTree.RenumberAppend | app/src/main/java/eu/tutorials/kl_boox_house/Mainscreen.kt:235-240 | numbering a concatenation numbers the second part from where the first stopped |
| SeatTree.UnreachedBelow | app/src/main/java/eu/tutorials/kl_boox_house/Mainscreen.kt:237-239 | nothing below a node the walk does not enter is reached |
| SeatTree.RenumberNoneReached | app/src/main/java/eu/tutorials/kl_boox_house/Mainscreen.kt:237-239 | a part the walk does not reach is neither counted nor renamed |
| SeatTree.SkippedSubtreeUnchanged | app/src/main/java/eu/tutorials/kl_boox_house/Mainscreen.kt:237-239 | a child that is not a model node contributes nothing to the count and none of its nodes is renamed |
| Scene.NamedNodeSelectable | app/src/main/java/eu/tutorials/kl_boox_house/Mainscreen.kt:121-127 | tapping the node the walk named "seat_k" selects seat k when k <= 57 and changes nothing when k > 57 |

## Left out

- Screen layout, cards, text fields, the logo and the login page layout: declarative UI with no state beyond what is modelled.
- 3D engine use: loading the model and the HDR environment, the camera node, the camera manipulator and the frame callback. The callback's one relevant effect, running the naming walk once, is `SeatTree.SetupSeats`.
- The one-off 360-degree camera animation: floating-point animation timing.
- The world-scale test `< 1.2` on all three axes and the `* 1.1` rescale of each named node (Mainscreen.kt:220-227): floating point. `potentialSeat` is the outcome of the test at the moment the walk visits the node. Because a named node is enlarged before its children are tested (lines 226 and 233-240), its children's world scale includes that enlargement; the model takes each node's outcome as given rather than deriving it from scales.
- Typing in the form fields: the fields exist only while a seat is selected (lines 156 and 170-182), but `Screen.Step` accepts `TypeName` and `TypeValidUntil` in any state. The model's runs are therefore a superset of the screen's, so the invariant proved for every run covers every run the screen can produce.
- The reflective lookup of `getChildCount`/`getChild`: each node has an explicit child sequence. A node without those methods has no children in the model.
- `addOnNodeTouchListener` is never called by the screen. `formatTime` is never called either, and reads the wall clock.
- `System.currentTimeMillis()` is the `now` parameter of the toggle.
- The consumed-event result (`true`) of the touch callback, which only matters to the framework.
- Before the initialising effect runs, the map is empty and a touch selects nothing. The model starts from the populated map.
- The button's handler closes over the seat composed into it. The model assumes a recomposition between two presses, so each press sees the current selection.
- The hardcoded `admin`/`1234` login check and the navigation graph. The graph's start destination `"loginPage"` does not match its route `"loginpage"` (MainActivity.kt:38-39). This is framework routing outside the seat logic.
- Asynchronous model loading in screens.kt.
- Integer widths: Kotlin's `Int` is 32 bits and its `Long` timestamps 64 bits, but the model uses unbounded integers. Seat numbers stay in 1..57. The walk's counter would pass `Int.MAX_VALUE` only after 2^31 - 1 named nodes, since it starts at 1.
