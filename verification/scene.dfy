/** How the naming walk and the screen's seat map fit together: the walk
    has no upper bound, the map holds 57 seats, so only the first 57
    nodes the walk names can ever be selected. */
module Scene {
  import opened Options
  import opened Seats
  import opened Screen
  import opened SeatTree

  /** A finger lift on the node at pre-order position i of the renamed
      model, when the walk named that node `"seat_k"`: it selects seat k
      if k <= 57 and leaves the screen exactly as it was otherwise. */
  lemma NamedNodeSelectable(s: State, root: Node, i: int)
    requires Inv(s)
    requires 0 <= i < |Labels(root, true)|
    requires Qualifies(Labels(root, true)[i])
    ensures var k := 1 + Counted(Labels(root, true)[..i]);
      var hit := Labels(SetupSeats(root).0, true)[i].name;
      var r := Select(s, ActionUp, hit);
      && (k <= SeatCount ==> r.selected.Some? && r.selected.value.seatNumber == k)
      && (k > SeatCount ==> r == s)
  {
    var k := 1 + Counted(Labels(root, true)[..i]);
    SetupSeatsNames(root, i);
    var hit := Labels(SetupSeats(root).0, true)[i].name;
    assert hit == Some(SeatKey(k));
    SelectByNumber(s, k);
  }
}
