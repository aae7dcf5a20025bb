/**
 * The seat-map view's own state transitions: toggling a seat in the
 * selection, flipping one of the three recommendation filters, and the
 * running total of the selection.
 */
module Selection {
  import opened Seats
  import opened Sequences

  // ----- Selection -----

  /** The filter predicates on ids, `(s) => s.id !== id` and `(s) => s.id === id`. */
  function NotId(id: int): Seat -> bool {
    (s: Seat) => s.id != id
  }

  function IsId(id: int): Seat -> bool {
    (s: Seat) => s.id == id
  }

  /** `selected.filter((s) => s.id !== id)`. */
  function WithoutId(selected: seq<Seat>, id: int): (r: seq<Seat>)
    ensures !ContainsId(r, id)
    ensures forall s :: s in r <==> s in selected && s.id != id
  {
    var r := Filter(selected, NotId(id));
    forall s ensures s in r <==> s in selected && s.id != id {
      FilterMembers(selected, NotId(id), s);
    }
    assert forall i :: 0 <= i < |r| ==> r[i] in r;
    r
  }

  /** The entries carrying `id`: what WithoutId drops. */
  function OnlyId(selected: seq<Seat>, id: int): (r: seq<Seat>)
    ensures forall s :: s in r <==> s in selected && s.id == id
  {
    var r := Filter(selected, IsId(id));
    forall s ensures s in r <==> s in selected && s.id == id {
      FilterMembers(selected, IsId(id), s);
    }
    r
  }

  /**
   * `toggleSeatSelection`: an occupied seat is ignored; otherwise a seat whose
   * id is selected is removed, and any other seat is appended.
   */
  function Toggle(selected: seq<Seat>, seat: Seat): (r: seq<Seat>)
    ensures seat.occupied ==> r == selected
    ensures !seat.occupied ==> (ContainsId(r, seat.id) <==> !ContainsId(selected, seat.id))
    ensures forall id :: id != seat.id ==> (ContainsId(r, id) <==> ContainsId(selected, id))
  {
    if seat.occupied then selected
    else if ContainsId(selected, seat.id) then
      var r := WithoutId(selected, seat.id);
      assert forall id :: id != seat.id && ContainsId(selected, id) ==> ContainsId(r, id) by {
        forall id | id != seat.id && ContainsId(selected, id) ensures ContainsId(r, id) {
          var i :| 0 <= i < |selected| && selected[i].id == id;
          assert selected[i] in r;
          var k :| 0 <= k < |r| && r[k] == selected[i];
        }
      }
      assert forall id :: ContainsId(r, id) ==> ContainsId(selected, id) by {
        forall id | ContainsId(r, id) ensures ContainsId(selected, id) {
          var k :| 0 <= k < |r| && r[k].id == id;
          assert r[k] in r;
          var i :| 0 <= i < |selected| && selected[i] == r[k];
        }
      }
      r
    else
      var r := selected + [seat];
      assert r[|selected|].id == seat.id;
      assert forall id :: ContainsId(selected, id) ==> ContainsId(r, id) by {
        forall id | ContainsId(selected, id) ensures ContainsId(r, id) {
          var i :| 0 <= i < |selected| && selected[i].id == id;
          assert r[i] == selected[i];
        }
      }
      r
  }

  /** What the view keeps true of its selection: distinct ids and no occupied seat. */
  predicate ValidSelection(selected: seq<Seat>) {
    && DistinctIds(selected)
    && forall i :: 0 <= i < |selected| ==> !selected[i].occupied
  }

  /** Every selected seat was taken from `plan`, the seat list on screen. */
  predicate FromPlan(selected: seq<Seat>, plan: seq<Seat>) {
    forall i :: 0 <= i < |selected| ==> selected[i] in plan
  }

  /** Selecting a seat that is not selected appends exactly it, after the untouched earlier entries. */
  lemma ToggleAbsent(selected: seq<Seat>, seat: Seat)
    requires !seat.occupied && !ContainsId(selected, seat.id)
    ensures var r := Toggle(selected, seat);
            |r| == |selected| + 1 && r[..|selected|] == selected && r[|selected|] == seat
  {
  }

  /**
   * Deselecting removes every entry with the seat's id and keeps the others in
   * their original order: whatever the split of the selection into `a` and `b`,
   * the survivors of `a` come before those of `b`.
   */
  lemma ToggleRemovesInOrder(a: seq<Seat>, b: seq<Seat>, seat: Seat)
    requires !seat.occupied && ContainsId(a + b, seat.id)
    ensures Toggle(a + b, seat) == WithoutId(a, seat.id) + WithoutId(b, seat.id)
  {
    FilterConcat(a, b, NotId(seat.id));
  }

  /** With distinct ids, deselecting removes exactly the one entry with that id. */
  lemma {:induction false} TogglePresent(selected: seq<Seat>, seat: Seat) returns (k: nat)
    requires !seat.occupied && ContainsId(selected, seat.id) && DistinctIds(selected)
    ensures k < |selected| && selected[k].id == seat.id
    ensures Toggle(selected, seat) == selected[..k] + selected[k + 1..]
  {
    k :| 0 <= k < |selected| && selected[k].id == seat.id;
    FilterDropOne(selected, k, NotId(seat.id));
  }

  /** Removing one entry keeps a selection valid. */
  lemma RemoveAtValid(selected: seq<Seat>, k: nat)
    requires ValidSelection(selected) && k < |selected|
    ensures ValidSelection(selected[..k] + selected[k + 1..])
  {
    var r := selected[..k] + selected[k + 1..];
    forall i | 0 <= i < |r| ensures r[i] == selected[if i < k then i else i + 1] {
    }
  }

  /** Toggling keeps the selection valid. */
  lemma TogglePreservesValid(selected: seq<Seat>, seat: Seat)
    requires ValidSelection(selected)
    ensures ValidSelection(Toggle(selected, seat))
  {
    if !seat.occupied {
      if ContainsId(selected, seat.id) {
        var k := TogglePresent(selected, seat);
        RemoveAtValid(selected, k);
      } else {
        assert Toggle(selected, seat) == selected + [seat];
      }
    }
  }

  /** Toggling a seat of the plan keeps every selected seat one of the plan's. */
  lemma TogglePreservesFromPlan(selected: seq<Seat>, seat: Seat, plan: seq<Seat>)
    requires FromPlan(selected, plan) && seat in plan
    ensures FromPlan(Toggle(selected, seat), plan)
  {
    var r := Toggle(selected, seat);
    forall i | 0 <= i < |r| ensures r[i] in plan {
      assert r[i] in r;
    }
  }

  /** Selecting then deselecting a seat that was not selected restores the exact selection. */
  lemma ToggleTwiceAbsent(selected: seq<Seat>, seat: Seat)
    requires !seat.occupied && !ContainsId(selected, seat.id)
    ensures Toggle(Toggle(selected, seat), seat) == selected
  {
    var p := NotId(seat.id);
    FilterSnoc(selected, seat, p);
    FilterAll(selected, p);
  }

  /**
   * Deselecting then reselecting a selected seat restores the set of ids but
   * not the sequence: the seat moves to the end.
   */
  lemma ToggleTwicePresent(selected: seq<Seat>, seat: Seat)
    requires !seat.occupied && ContainsId(selected, seat.id) && DistinctIds(selected)
    ensures var r := Toggle(Toggle(selected, seat), seat);
            && r == WithoutId(selected, seat.id) + [seat]
            && forall id :: ContainsId(r, id) <==> ContainsId(selected, id)
  {
  }

  // ----- Recommendation filters -----

  /** The three checkboxes that parameterise the recommendation request. */
  datatype Filters = Filters(isWindow: bool, hasExtraLegroom: bool, isNearExit: bool)

  /** `keyof typeof filters`. */
  datatype FilterName = IsWindow | HasExtraLegroom | IsNearExit

  /** The filters the view starts with: all off. */
  const NoFilters := Filters(false, false, false)

  /** `filters[name]`. */
  function Flag(f: Filters, name: FilterName): bool {
    match name
    case IsWindow => f.isWindow
    case HasExtraLegroom => f.hasExtraLegroom
    case IsNearExit => f.isNearExit
  }

  /** `handleFilterChange`: `{ ...prev, [name]: !prev[name] }`. */
  function ChangeFilter(f: Filters, name: FilterName): (r: Filters)
    ensures Flag(r, name) == !Flag(f, name)
    ensures forall other :: other != name ==> Flag(r, other) == Flag(f, other)
  {
    match name
    case IsWindow => f.(isWindow := !f.isWindow)
    case HasExtraLegroom => f.(hasExtraLegroom := !f.hasExtraLegroom)
    case IsNearExit => f.(isNearExit := !f.isNearExit)
  }

  /** Two filter records with the same flags are the same record. */
  lemma FiltersByFlags(f: Filters, g: Filters)
    requires forall name :: Flag(f, name) == Flag(g, name)
    ensures f == g
  {
    assert Flag(f, IsWindow) == Flag(g, IsWindow);
    assert Flag(f, HasExtraLegroom) == Flag(g, HasExtraLegroom);
    assert Flag(f, IsNearExit) == Flag(g, IsNearExit);
  }

  /** Changing the same filter twice is the identity. */
  lemma ChangeFilterTwice(f: Filters, name: FilterName)
    ensures ChangeFilter(ChangeFilter(f, name), name) == f
  {
    FiltersByFlags(ChangeFilter(ChangeFilter(f, name), name), f);
  }

  /** Changes to different filters do not interfere: their order does not matter. */
  lemma ChangeFilterCommutes(f: Filters, a: FilterName, b: FilterName)
    ensures ChangeFilter(ChangeFilter(f, a), b) == ChangeFilter(ChangeFilter(f, b), a)
  {
    FiltersByFlags(ChangeFilter(ChangeFilter(f, a), b), ChangeFilter(ChangeFilter(f, b), a));
  }

  // ----- Total -----

  /** `selectedSeats.reduce((sum, seat) => sum + seat.price, 0)`, in cents. */
  function TotalPrice(selected: seq<Seat>): (total: int)
    ensures selected == [] ==> total == 0
    ensures (forall i :: 0 <= i < |selected| ==> selected[i].price >= 0) ==> total >= 0
  {
    if selected == [] then 0
    else TotalPrice(selected[..|selected| - 1]) + selected[|selected| - 1].price
  }

  /** The total of a concatenation is the sum of the totals. */
  lemma {:induction false} TotalPriceConcat(a: seq<Seat>, b: seq<Seat>)
    ensures TotalPrice(a + b) == TotalPrice(a) + TotalPrice(b)
    decreases |b|
  {
    if b == [] {
      assert a + b == a;
    } else {
      assert (a + b)[..|a + b| - 1] == a + b[..|b| - 1];
      TotalPriceConcat(a, b[..|b| - 1]);
    }
  }

  /** Splitting a selection by a predicate and its negation splits its total. */
  lemma {:induction false} TotalPriceFilterSplit(selected: seq<Seat>, keep: Seat -> bool, drop: Seat -> bool)
    requires forall s :: drop(s) == !keep(s)
    ensures TotalPrice(selected) == TotalPrice(Filter(selected, keep)) + TotalPrice(Filter(selected, drop))
  {
    if selected != [] {
      var init, last := selected[..|selected| - 1], selected[|selected| - 1];
      assert selected == init + [last];
      TotalPriceFilterSplit(init, keep, drop);
      FilterSnoc(init, last, keep);
      FilterSnoc(init, last, drop);
      assert drop(last) == !keep(last);
      var kept, dropped := Filter(init, keep), Filter(init, drop);
      assert TotalPrice([last]) == last.price;
      TotalPriceConcat(init, [last]);
      if keep(last) {
        assert Filter(selected, keep) == kept + [last];
        assert Filter(selected, drop) == dropped;
        TotalPriceConcat(kept, [last]);
      } else {
        assert Filter(selected, keep) == kept;
        assert Filter(selected, drop) == dropped + [last];
        TotalPriceConcat(dropped, [last]);
      }
    }
  }

  /** Splitting a selection by one id splits its total. */
  lemma TotalPriceSplit(selected: seq<Seat>, id: int)
    ensures TotalPrice(selected) == TotalPrice(WithoutId(selected, id)) + TotalPrice(OnlyId(selected, id))
  {
    TotalPriceFilterSplit(selected, NotId(id), IsId(id));
  }

  /**
   * Toggling an unoccupied seat adds its price when it was not selected, and
   * otherwise subtracts the prices of the entries it removes.
   */
  lemma TotalPriceToggle(selected: seq<Seat>, seat: Seat)
    requires !seat.occupied
    ensures !ContainsId(selected, seat.id) ==>
              TotalPrice(Toggle(selected, seat)) == TotalPrice(selected) + seat.price
    ensures ContainsId(selected, seat.id) ==>
              TotalPrice(Toggle(selected, seat)) == TotalPrice(selected) - TotalPrice(OnlyId(selected, seat.id))
  {
    if ContainsId(selected, seat.id) {
      TotalPriceSplit(selected, seat.id);
    } else {
      TotalPriceConcat(selected, [seat]);
    }
  }

  /** Selecting 12A at 50.00 and then 14C at 75.00 gives a total of 125.00. */
  lemma TwoSeatTotal()
    ensures var a := Seat(1, "12A", false, false, 5000);
            var c := Seat(2, "14C", false, false, 7500);
            TotalPrice(Toggle(Toggle([], a), c)) == 12500
  {
    var a := Seat(1, "12A", false, false, 5000);
    var c := Seat(2, "14C", false, false, 7500);
    assert !ContainsId([a], c.id);
    assert Toggle(Toggle([], a), c) == [a, c];
  }
}
