/**
 * The colour of a seat's button: one of five states, chosen by a fixed
 * precedence, occupied over selected over recommended over business class
 * over standard.
 */
module Display {
  import opened Seats
  import opened Selection

  datatype SeatState = Occupied | Selected | Recommended | Business | Standard

  /** The state's place in the precedence, highest first. */
  function Rank(st: SeatState): nat {
    match st
    case Occupied => 0
    case Selected => 1
    case Recommended => 2
    case Business => 3
    case Standard => 4
  }

  /** When a seat qualifies for a state, ignoring the states above it. */
  predicate Applies(st: SeatState, seat: Seat, selected: seq<Seat>, recommended: seq<Seat>) {
    match st
    case Occupied => seat.occupied
    case Selected => ContainsId(selected, seat.id)
    case Recommended => ContainsId(recommended, seat.id)
    case Business => seat.businessClass
    case Standard => true
  }

  /**
   * The colour conditional of a seat's button: the state shown is one the
   * seat qualifies for, and it qualifies for none that ranks above it.
   */
  function StateOf(seat: Seat, selected: seq<Seat>, recommended: seq<Seat>): (st: SeatState)
    ensures Applies(st, seat, selected, recommended)
    ensures forall other :: Rank(other) < Rank(st) ==> !Applies(other, seat, selected, recommended)
  {
    if seat.occupied then Occupied
    else if ContainsId(selected, seat.id) then Selected
    else if ContainsId(recommended, seat.id) then Recommended
    else if seat.businessClass then Business
    else Standard
  }

  /** The precedence leaves no choice: exactly one state fits it. */
  lemma PrecedenceUnique(seat: Seat, selected: seq<Seat>, recommended: seq<Seat>, st: SeatState)
    requires Applies(st, seat, selected, recommended)
    requires forall other :: Rank(other) < Rank(st) ==> !Applies(other, seat, selected, recommended)
    ensures st == StateOf(seat, selected, recommended)
  {
  }

  /** Clicking a free seat that is not selected shows it as selected, even if it is recommended. */
  lemma ToggleShowsSelected(seat: Seat, selected: seq<Seat>, recommended: seq<Seat>)
    requires !seat.occupied && !ContainsId(selected, seat.id)
    ensures StateOf(seat, Toggle(selected, seat), recommended) == Selected
  {
  }

  /** Clicking a selected seat shows it as it would be with nothing selected. */
  lemma ToggleShowsDeselected(seat: Seat, selected: seq<Seat>, recommended: seq<Seat>)
    requires !seat.occupied && ContainsId(selected, seat.id)
    ensures StateOf(seat, Toggle(selected, seat), recommended) == StateOf(seat, [], recommended)
  {
  }

  /** Clicking a seat never changes how a seat with another id is shown. */
  lemma ToggleLeavesOthers(seat: Seat, other: Seat, selected: seq<Seat>, recommended: seq<Seat>)
    requires other.id != seat.id
    ensures StateOf(other, Toggle(selected, seat), recommended) == StateOf(other, selected, recommended)
  {
  }
}
