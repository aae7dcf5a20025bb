/** The seat record of a flight's seat plan and the id lookup the view uses on seat lists. */
module Seats {

  /**
   * One seat of the plan. `seatNumber` is the row digits followed by the
   * column letter ("12C"); `price` is in euro cents.
   */
  datatype Seat = Seat(id: int, seatNumber: string, occupied: bool, businessClass: bool, price: int)

  /** `seats.some((s) => s.id === id)`. */
  predicate ContainsId(seats: seq<Seat>, id: int) {
    exists i :: 0 <= i < |seats| && seats[i].id == id
  }

  /** No two entries share an id. */
  predicate DistinctIds(seats: seq<Seat>) {
    forall i, j :: 0 <= i < j < |seats| ==> seats[i].id != seats[j].id
  }
}
