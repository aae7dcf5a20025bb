/**
 * Reading a seat number such as "12C": its row is the first maximal run of
 * decimal digits (the match of `/\d+/`), its on-screen label is the seat
 * number with that run removed, and a seat in column C is followed by the
 * aisle gap.
 */
module SeatNumbers {
  import opened Wrappers

  /** `\d` without the unicode flag: the ASCII digits only. */
  predicate IsDigit(c: char) {
    '0' <= c <= '9'
  }

  predicate AllDigits(s: string) {
    forall i :: 0 <= i < |s| ==> IsDigit(s[i])
  }

  /** A row key: a string of digits. */
  type DigitString = s: string | AllDigits(s)

  predicate NoDigits(s: string) {
    forall i :: 0 <= i < |s| ==> !IsDigit(s[i])
  }

  /** The index of the first digit of `s`, where the match of `/\d+/` starts. */
  function FirstDigit(s: string): (r: Option<nat>)
    ensures r.None? <==> NoDigits(s)
    ensures r.Some? ==> r.value < |s| && IsDigit(s[r.value]) && NoDigits(s[..r.value])
  {
    if s == [] then None
    else if IsDigit(s[0]) then Some(0)
    else
      var rest := FirstDigit(s[1..]);
      assert s == [s[0]] + s[1..];
      match rest
      case None => None
      case Some(i) =>
        assert s[..i + 1] == [s[0]] + s[1..][..i];
        Some(i + 1)
  }

  /** Where the digit run starting at `start` ends: `/\d+/` is greedy. */
  function RunEnd(s: string, start: nat): (e: nat)
    requires start <= |s|
    ensures start <= e <= |s|
    ensures AllDigits(s[start..e])
    ensures e == |s| || !IsDigit(s[e])
    decreases |s| - start
  {
    if start == |s| || !IsDigit(s[start]) then start
    else RunEnd(s, start + 1)
  }

  /** `seatNumber.match(/\d+/)?.[0]`: the first maximal run of digits, if any. */
  function RowKey(s: string): (r: Option<DigitString>)
    ensures r.None? <==> NoDigits(s)
    ensures r.Some? ==> r.value != [] && AllDigits(r.value)
  {
    match FirstDigit(s)
    case None => None
    case Some(i) => Some(s[i..RunEnd(s, i)])
  }

  /** `seatNumber.replace(/\d+/, "")`: only the first run is removed. */
  function Label(s: string): (r: string)
    ensures RowKey(s).None? ==> r == s
    ensures RowKey(s).Some? ==> |r| + |RowKey(s).value| == |s|
  {
    match FirstDigit(s)
    case None => s
    case Some(i) => s[..i] + s[RunEnd(s, i)..]
  }

  /** `seatNumber.endsWith("C")`: the seat is followed by the aisle. */
  predicate IsAisle(s: string) {
    |s| > 0 && s[|s| - 1] == 'C'
  }

  /**
   * A seat number made of a digit-free prefix, a run of digits and a rest that
   * does not start with a digit has that run as its row.
   */
  lemma {:induction false} RowKeyOfParts(pre: string, row: string, post: string)
    requires NoDigits(pre)
    requires row != [] && AllDigits(row)
    requires post == [] || !IsDigit(post[0])
    ensures FirstDigit(pre + row + post) == Some(|pre|)
    ensures RunEnd(pre + row + post, |pre|) == |pre| + |row|
    ensures RowKey(pre + row + post) == Some(row)
  {
    var s := pre + row + post;
    FirstDigitAfter(pre, row + post);
    assert s == pre + (row + post);
    var i := |pre|;
    RunEndAt(s, i, i + |row|);
    assert s[i..i + |row|] == row;
  }

  /** The label of such a seat number is the prefix and the rest, joined: "12C" shows as "C". */
  lemma LabelOfParts(pre: string, row: string, post: string)
    requires NoDigits(pre)
    requires row != [] && AllDigits(row)
    requires post == [] || !IsDigit(post[0])
    ensures Label(pre + row + post) == pre + post
  {
    var s := pre + row + post;
    RowKeyOfParts(pre, row, post);
    assert s[..|pre|] == pre;
    assert s[|pre| + |row|..] == post;
  }

  /** A seat number "<row><column>" is followed by the aisle exactly when its column ends in C. */
  lemma AisleOfParts(row: string, column: string)
    requires column != []
    ensures IsAisle(row + column) <==> column[|column| - 1] == 'C'
  {
    assert (row + column)[|row + column| - 1] == column[|column| - 1];
  }

  /** Every seat number that has a digit splits as in RowKeyOfParts, around its row. */
  lemma {:induction false} SeatNumberSplit(s: string)
    requires RowKey(s).Some?
    ensures var i := FirstDigit(s).value;
            var row := RowKey(s).value;
            && i + |row| <= |s|
            && s == s[..i] + row + s[i + |row|..]
            && NoDigits(s[..i])
            && (s[i + |row|..] == [] || !IsDigit(s[i + |row|..][0]))
  {
    var i := FirstDigit(s).value;
    var e := RunEnd(s, i);
    assert s == s[..i] + s[i..e] + s[e..];
  }

  lemma {:induction false} FirstDigitAfter(pre: string, rest: string)
    requires NoDigits(pre)
    requires rest != [] && IsDigit(rest[0])
    ensures FirstDigit(pre + rest) == Some(|pre|)
  {
    if pre != [] {
      assert (pre + rest)[1..] == pre[1..] + rest;
      FirstDigitAfter(pre[1..], rest);
    }
  }

  lemma {:induction false} RunEndAt(s: string, start: nat, e: nat)
    requires start <= e <= |s|
    requires AllDigits(s[start..e])
    requires e == |s| || !IsDigit(s[e])
    ensures RunEnd(s, start) == e
    decreases e - start
  {
    if start < e {
      assert IsDigit(s[start..e][0]);
      assert s[start + 1..e] == s[start..e][1..];
      RunEndAt(s, start + 1, e);
    }
  }

  /** The value of a digit string in base ten, as `Number(row)` reads it. */
  function DecimalValue(s: DigitString): (n: nat)
  {
    if s == [] then 0
    else 10 * DecimalValue(s[..|s| - 1]) + (s[|s| - 1] - '0') as nat
  }

  /** Leading zeros do not change a row's number: "07" and "7" are the same row number. */
  lemma {:induction false} DecimalValueLeadingZero(s: DigitString)
    ensures AllDigits("0" + s) && DecimalValue("0" + s) == DecimalValue(s)
  {
    if s != [] {
      assert ("0" + s)[..|"0" + s| - 1] == "0" + s[..|s| - 1];
      DecimalValueLeadingZero(s[..|s| - 1]);
    }
  }

  /**
   * The order in which seats of one row are shown, standing for
   * `a.localeCompare(b) <= 0`: plain lexicographic order on characters.
   */
  predicate LexLe(a: string, b: string) {
    if a == [] then true
    else if b == [] then false
    else if a[0] != b[0] then a[0] < b[0]
    else LexLe(a[1..], b[1..])
  }

  /** Any two seat numbers are comparable. */
  lemma {:induction false} LexLeTotal(a: string, b: string)
    ensures LexLe(a, b) || LexLe(b, a)
  {
    if a != [] && b != [] && a[0] == b[0] {
      LexLeTotal(a[1..], b[1..]);
    }
  }

  lemma {:induction false} LexLeTransitive(a: string, b: string, c: string)
    requires LexLe(a, b) && LexLe(b, c)
    ensures LexLe(a, c)
  {
    if a != [] && b != [] && c != [] && a[0] == b[0] == c[0] {
      LexLeTransitive(a[1..], b[1..], c[1..]);
    }
  }

  /** Two seat numbers each ordered before the other are equal: the order has no ties. */
  lemma {:induction false} LexLeAntisymmetric(a: string, b: string)
    requires LexLe(a, b) && LexLe(b, a)
    ensures a == b
  {
    if a != [] && b != [] {
      LexLeAntisymmetric(a[1..], b[1..]);
      assert a == [a[0]] + a[1..] && b == [b[0]] + b[1..];
    }
  }
}
