/**
 * How the seat plan becomes rows on screen: the seats are grouped by row key
 * in a dictionary built by a loop, the row keys are sorted by their numeric
 * value, and each row's seats are sorted by seat number.
 */
module Layout {
  import opened Wrappers
  import opened Sequences
  import opened SeatNumbers
  import opened Seats

  /** The row of a seat: the first digit run of its number, if it has one. */
  function RowOf(seat: Seat): Option<DigitString> {
    RowKey(seat.seatNumber)
  }

  function InRow(k: DigitString): Seat -> bool {
    (s: Seat) => RowOf(s) == Some(k)
  }

  function HasRow(): Seat -> bool {
    (s: Seat) => RowOf(s).Some?
  }

  /** The seats of row `k`, in plan order. */
  function SeatsInRow(seats: seq<Seat>, k: DigitString): seq<Seat>
  {
    Filter(seats, InRow(k))
  }

  /** The seats whose number has a digit, in plan order: the ones the grouping keeps. */
  function SeatsWithRow(seats: seq<Seat>): seq<Seat>
  {
    Filter(seats, HasRow())
  }

  predicate Distinct<T(==)>(s: seq<T>) {
    forall i, j :: 0 <= i < j < |s| ==> s[i] != s[j]
  }

  /**
   * The row keys in the order the grouping loop first creates them: each key
   * once (RowOrderKeys says which keys).
   */
  function RowOrder(seats: seq<Seat>): (rows: seq<DigitString>)
    ensures Distinct(rows)
  {
    if seats == [] then []
    else
      var rows := RowOrder(seats[..|seats| - 1]);
      match RowOf(seats[|seats| - 1])
      case None => rows
      case Some(k) => if k in rows then rows else rows + [k]
  }

  /** The rows are exactly the keys of rows that have a seat. */
  lemma {:induction false} RowOrderKeys(seats: seq<Seat>, k: DigitString)
    ensures k in RowOrder(seats) <==> SeatsInRow(seats, k) != []
  {
    if seats != [] {
      var init, last := seats[..|seats| - 1], seats[|seats| - 1];
      assert seats == init + [last];
      RowOrderKeys(init, k);
      SeatsInRowSnoc(init, last, k);
    }
  }

  lemma SeatsInRowSnoc(seats: seq<Seat>, seat: Seat, k: DigitString)
    ensures SeatsInRow(seats + [seat], k) == SeatsInRow(seats, k) + (if RowOf(seat) == Some(k) then [seat] else [])
  {
    FilterSnoc(seats, seat, InRow(k));
  }

  /** The dictionary `groupedSeats`, as a function of the plan. */
  function Grouped(seats: seq<Seat>): (groups: map<DigitString, seq<Seat>>)
  {
    map k | k in RowOrder(seats) :: SeatsInRow(seats, k)
  }

  /** One more seat without a row changes neither the rows nor the groups. */
  lemma {:induction false} GroupedSnocNoRow(seats: seq<Seat>, seat: Seat)
    requires RowOf(seat).None?
    ensures RowOrder(seats + [seat]) == RowOrder(seats)
    ensures Grouped(seats + [seat]) == Grouped(seats)
  {
    var all := seats + [seat];
    assert all[..|all| - 1] == seats;
    forall k | k in RowOrder(seats) ensures SeatsInRow(all, k) == SeatsInRow(seats, k) {
      SeatsInRowSnoc(seats, seat, k);
    }
  }

  /** One step of the grouping loop: create the entry for `k` if it is missing, then push `seat` onto it. */
  function AddSeat(groups: map<DigitString, seq<Seat>>, k: DigitString, seat: Seat): (r: map<DigitString, seq<Seat>>)
    ensures r.Keys == groups.Keys + {k}
    ensures r[k] == (if k in groups then groups[k] else []) + [seat]
    ensures forall j :: j in groups && j != k ==> r[j] == groups[j]
  {
    var created := if k in groups then groups else groups[k := []];
    created[k := created[k] + [seat]]
  }

  /** One more seat of row `k` creates the row if it is new and goes at the end of its group. */
  lemma {:induction false} GroupedSnocRow(seats: seq<Seat>, seat: Seat, k: DigitString)
    requires RowOf(seat) == Some(k)
    ensures RowOrder(seats + [seat]) == if k in RowOrder(seats) then RowOrder(seats) else RowOrder(seats) + [k]
    ensures Grouped(seats + [seat]) == AddSeat(Grouped(seats), k, seat)
  {
    var all := seats + [seat];
    assert all[..|all| - 1] == seats;
    var rows, rows' := RowOrder(seats), RowOrder(all);
    assert rows' == if k in rows then rows else rows + [k];
    var before, after := Grouped(seats), Grouped(all);
    var expected := AddSeat(before, k, seat);
    assert forall j :: j in after <==> j in rows';
    assert forall j :: j in before <==> j in rows;
    assert after.Keys == expected.Keys;
    forall j | j in after ensures after[j] == expected[j] {
      SeatsInRowSnoc(seats, seat, j);
      if j == k && k !in before {
        RowOrderKeys(seats, k);
      }
    }
  }

  /**
   * The loop that builds `groupedSeats`: for each seat with a row key, create
   * the key's entry if it is missing, then push the seat onto it. `rows` is
   * the order in which the entries were created.
   */
  method GroupSeats(seats: seq<Seat>) returns (groups: map<DigitString, seq<Seat>>, rows: seq<DigitString>)
    ensures groups == Grouped(seats)
    ensures rows == RowOrder(seats)
  {
    groups, rows := map[], [];
    var i := 0;
    assert seats[..i] == [];
    assert Grouped([]) == map[];
    while i < |seats|
      invariant i <= |seats|
      invariant groups == Grouped(seats[..i])
      invariant rows == RowOrder(seats[..i])
    {
      var seat := seats[i];
      ghost var done := seats[..i];
      assert seats[..i + 1] == done + [seat];
      var row := RowKey(seat.seatNumber);
      if row.Some? {
        var key := row.value;
        GroupedSnocRow(done, seat, key);
        ghost var before := groups;
        if key !in groups {
          groups := groups[key := []];
          rows := rows + [key];
        }
        groups := groups[key := groups[key] + [seat]];
        assert groups == AddSeat(before, key, seat);
      } else {
        GroupedSnocNoRow(done, seat);
      }
      i := i + 1;
    }
    assert seats[..i] == seats;
  }

  /**
   * Every seat of the plan whose number has a digit is in the group of its own
   * row and in no other; a seat without a digit is in no group.
   */
  lemma GroupedPartition(seats: seq<Seat>, seat: Seat)
    requires seat in seats
    ensures RowOf(seat).Some? ==> RowOf(seat).value in Grouped(seats) && seat in Grouped(seats)[RowOf(seat).value]
    ensures forall k :: k in Grouped(seats) && seat in Grouped(seats)[k] ==> RowOf(seat) == Some(k)
  {
    if RowOf(seat).Some? {
      var k := RowOf(seat).value;
      FilterMembers(seats, InRow(k), seat);
      RowOrderKeys(seats, k);
    }
    forall k | k in Grouped(seats) && seat in Grouped(seats)[k] ensures RowOf(seat) == Some(k) {
      FilterMembers(seats, InRow(k), seat);
    }
  }

  /** A group lists its row's seats in plan order: the seats of an earlier part of the plan come first. */
  lemma GroupKeepsPlanOrder(a: seq<Seat>, b: seq<Seat>, k: DigitString)
    ensures SeatsInRow(a + b, k) == SeatsInRow(a, k) + SeatsInRow(b, k)
  {
    FilterConcat(a, b, InRow(k));
  }

  /** The total size of the groups named in `rows`. */
  function GroupSizes(groups: map<DigitString, seq<Seat>>, rows: seq<DigitString>): nat
    requires forall k :: k in rows ==> k in groups
  {
    if rows == [] then 0
    else GroupSizes(groups, rows[..|rows| - 1]) + |groups[rows[|rows| - 1]]|
  }

  lemma {:induction false} GroupSizesSame(g: map<DigitString, seq<Seat>>, h: map<DigitString, seq<Seat>>, rows: seq<DigitString>)
    requires forall k :: k in rows ==> k in g && k in h && |g[k]| == |h[k]|
    ensures GroupSizes(g, rows) == GroupSizes(h, rows)
  {
    if rows != [] {
      GroupSizesSame(g, h, rows[..|rows| - 1]);
    }
  }

  lemma {:induction false} GroupSizesBump(g: map<DigitString, seq<Seat>>, h: map<DigitString, seq<Seat>>, rows: seq<DigitString>, key: DigitString)
    requires Distinct(rows) && key in rows
    requires forall k :: k in rows ==> k in g && k in h
    requires |h[key]| == |g[key]| + 1
    requires forall k :: k in rows && k != key ==> |g[k]| == |h[k]|
    ensures GroupSizes(h, rows) == GroupSizes(g, rows) + 1
  {
    var init, last := rows[..|rows| - 1], rows[|rows| - 1];
    assert rows == init + [last];
    if last == key {
      assert key !in init;
      GroupSizesSame(g, h, init);
    } else {
      GroupSizesBump(g, h, init, key);
    }
  }

  /** The group sizes add up to the number of seats whose number has a digit. */
  lemma {:induction false} GroupSizesSum(seats: seq<Seat>)
    ensures GroupSizes(Grouped(seats), RowOrder(seats)) == |SeatsWithRow(seats)|
  {
    if seats != [] {
      var init, last := seats[..|seats| - 1], seats[|seats| - 1];
      assert seats == init + [last];
      GroupSizesSum(init);
      FilterSnoc(init, last, HasRow());
      var g, h := Grouped(init), Grouped(seats);
      var rows := RowOrder(init);
      match RowOf(last)
      case None =>
        GroupedSnocNoRow(init, last);
      case Some(key) =>
        GroupedSnocRow(init, last, key);
        if key in rows {
          GroupSizesBump(g, h, rows, key);
        } else {
          GroupSizesSame(g, h, rows);
          assert (rows + [key])[..|rows|] == rows;
          RowOrderKeys(init, key);
        }
    }
  }

  // ----- Ordering -----

  /** The comparator `(a, b) => Number(a) - Number(b)`, as "a may come before b". */
  predicate RowLe(a: DigitString, b: DigitString) {
    DecimalValue(a) <= DecimalValue(b)
  }

  /** The comparator `(a, b) => a.seatNumber.localeCompare(b.seatNumber)`, as "a may come before b". */
  predicate SeatLe(a: Seat, b: Seat) {
    LexLe(a.seatNumber, b.seatNumber)
  }

  lemma SeatLeTotalPreorder()
    ensures Total(SeatLe) && Transitive(SeatLe)
  {
    forall a: Seat, b: Seat ensures SeatLe(a, b) || SeatLe(b, a) {
      LexLeTotal(a.seatNumber, b.seatNumber);
    }
    forall a: Seat, b: Seat, c: Seat | SeatLe(a, b) && SeatLe(b, c) ensures SeatLe(a, c) {
      LexLeTransitive(a.seatNumber, b.seatNumber, c.seatNumber);
    }
  }

  /** `sortedRows`: the row keys, by increasing row number. */
  function SortRows(rows: seq<DigitString>): (r: seq<DigitString>)
    ensures multiset(r) == multiset(rows)
    ensures forall i, j :: 0 <= i < j < |r| ==> DecimalValue(r[i]) <= DecimalValue(r[j])
  {
    assert Total(RowLe) && Transitive(RowLe);
    Sort(rows, RowLe)
  }

  /** Every seat comes no later in seat-number order than the seats after it. */
  predicate InSeatOrder(seats: seq<Seat>) {
    forall i, j :: 0 <= i < j < |seats| ==> LexLe(seats[i].seatNumber, seats[j].seatNumber)
  }

  /** The in-row `.sort`: a row's seats, by seat number. */
  function SortRow(row: seq<Seat>): (r: seq<Seat>)
    ensures multiset(r) == multiset(row)
    ensures InSeatOrder(r)
  {
    SeatLeTotalPreorder();
    var r := Sort(row, SeatLe);
    assert forall i, j :: 0 <= i < j < |r| ==> SeatLe(r[i], r[j]);
    r
  }

  // ----- The seat map on screen -----

  /** One displayed row: its key and its seats in display order. */
  datatype Row = Row(key: DigitString, seats: seq<Seat>)

  function Keys(m: seq<Row>): (ks: seq<DigitString>)
    ensures |ks| == |m| && forall i :: 0 <= i < |m| ==> ks[i] == m[i].key
  {
    seq(|m|, i requires 0 <= i < |m| => m[i].key)
  }

  /** One displayed row per key of `ks`, in that order. */
  function RenderRows(groups: map<DigitString, seq<Seat>>, ks: seq<DigitString>): (m: seq<Row>)
    requires forall k :: k in ks ==> k in groups
    ensures |m| == |ks|
    ensures forall i :: 0 <= i < |m| ==> m[i] == Row(ks[i], SortRow(groups[ks[i]]))
  {
    if ks == [] then []
    else RenderRows(groups, ks[..|ks| - 1]) + [Row(ks[|ks| - 1], SortRow(groups[ks[|ks| - 1]]))]
  }

  /** A displayed row shows exactly its group's seats, in seat-number order. */
  predicate ShowsGroup(groups: map<DigitString, seq<Seat>>, row: Row) {
    && row.key in groups
    && multiset(row.seats) == multiset(groups[row.key])
    && InSeatOrder(row.seats)
  }

  /** `sortedRows.map((row) => groupedSeats[row].sort(...))`. */
  function SeatMap(groups: map<DigitString, seq<Seat>>, rows: seq<DigitString>): (m: seq<Row>)
    requires forall k :: k in rows ==> k in groups
    ensures multiset(Keys(m)) == multiset(rows)
    ensures forall i, j :: 0 <= i < j < |m| ==> DecimalValue(m[i].key) <= DecimalValue(m[j].key)
    ensures forall i :: 0 <= i < |m| ==> ShowsGroup(groups, m[i])
  {
    var sorted := SortRows(rows);
    assert forall k :: k in sorted ==> k in multiset(rows);
    var m := RenderRows(groups, sorted);
    RenderRowsShowGroups(groups, sorted);
    RenderRowsKeys(groups, sorted);
    m
  }

  lemma RenderRowsKeys(groups: map<DigitString, seq<Seat>>, ks: seq<DigitString>)
    requires forall k :: k in ks ==> k in groups
    ensures Keys(RenderRows(groups, ks)) == ks
  {
  }

  lemma RenderRowsShowGroups(groups: map<DigitString, seq<Seat>>, ks: seq<DigitString>)
    requires forall k :: k in ks ==> k in groups
    ensures forall i :: 0 <= i < |ks| ==> ShowsGroup(groups, RenderRows(groups, ks)[i])
  {
    var m := RenderRows(groups, ks);
    forall i | 0 <= i < |ks| ensures ShowsGroup(groups, m[i]) {
      assert m[i] == Row(ks[i], SortRow(groups[ks[i]]));
    }
  }

  /** The seat map of a plan: its groups, rows in numeric order, seats in seat-number order. */
  function PlanMap(seats: seq<Seat>): seq<Row> {
    SeatMap(Grouped(seats), RowOrder(seats))
  }

  /**
   * The seat map of a plan shows each row once, in numeric order, and each
   * seat whose number has a digit in exactly its own row; seats without a
   * digit are not shown.
   */
  lemma SeatMapOfPlan(seats: seq<Seat>, seat: Seat)
    ensures var m := PlanMap(seats);
            && Distinct(Keys(m))
            && (forall i :: 0 <= i < |m| ==> (seat in m[i].seats <==> seat in seats && RowOf(seat) == Some(m[i].key)))
            && (seat in seats && RowOf(seat).Some? ==> exists i :: 0 <= i < |m| && seat in m[i].seats)
  {
    var m := PlanMap(seats);
    DistinctByMultiset(RowOrder(seats), Keys(m));
    forall i | 0 <= i < |m| ensures seat in m[i].seats <==> seat in seats && RowOf(seat) == Some(m[i].key) {
      PlanMapRow(seats, seat, i);
    }
    if seat in seats && RowOf(seat).Some? {
      GroupedPartition(seats, seat);
      var i := PlanMapFind(seats, RowOf(seat).value);
      PlanMapRow(seats, seat, i);
    }
  }

  lemma PlanMapRow(seats: seq<Seat>, seat: Seat, i: nat)
    requires i < |PlanMap(seats)|
    ensures var row := PlanMap(seats)[i];
            seat in row.seats <==> seat in seats && RowOf(seat) == Some(row.key)
  {
    var row := PlanMap(seats)[i];
    assert seat in row.seats <==> seat in multiset(row.seats);
    assert seat in multiset(Grouped(seats)[row.key]) <==> seat in SeatsInRow(seats, row.key);
    FilterMembers(seats, InRow(row.key), seat);
  }

  lemma PlanMapFind(seats: seq<Seat>, k: DigitString) returns (i: nat)
    requires k in RowOrder(seats)
    ensures i < |PlanMap(seats)| && PlanMap(seats)[i].key == k
  {
    var m := PlanMap(seats);
    var ks := Keys(m);
    assert multiset(ks) == multiset(RowOrder(seats));
    assert k in multiset(ks);
    i :| 0 <= i < |ks| && ks[i] == k;
  }

  /** A permutation of a sequence without repeats has no repeats. */
  lemma DistinctByMultiset<T>(s: seq<T>, t: seq<T>)
    requires Distinct(s) && multiset(s) == multiset(t)
    ensures Distinct(t)
  {
    forall i, j | 0 <= i < j < |t| ensures t[i] != t[j] {
      if t[i] == t[j] {
        assert t == t[..i] + [t[i]] + t[i + 1..j] + [t[j]] + t[j + 1..];
        assert multiset(t)[t[i]] >= 2;
        MultiplicityDistinct(s, t[i]);
      }
    }
  }

  lemma {:induction false} MultiplicityDistinct<T>(s: seq<T>, x: T)
    requires Distinct(s)
    ensures multiset(s)[x] <= 1
  {
    if s != [] {
      var init := s[..|s| - 1];
      assert s == init + [s[|s| - 1]];
      MultiplicityDistinct(init, x);
      if s[|s| - 1] == x {
        assert x !in init;
      }
    }
  }
}
