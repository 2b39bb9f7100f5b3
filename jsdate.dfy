/**
 * The upload-date parse of the statistics page: a `Date(y,m,d)` marker found
 * anywhere in the string, turned into a calendar date the way
 * `new Date(year, monthIndex, day)` does (proleptic Gregorian calendar,
 * month overflow carried into the year, day overflow carried into later
 * months, day 0 meaning the last day of the previous month, years 0–99
 * read as 1900–1999), and then into the "YYYY-MM" key it is counted under.
 */
module JsDate {
  import opened Wrappers
  import opened JsString

  /** A calendar date; `month` is 0-based as in `getMonth()`. */
  datatype Date = Date(year: int, month: nat, day: nat)

  predicate IsLeapYear(y: int)
  {
    y % 4 == 0 && (y % 100 != 0 || y % 400 == 0)
  }

  function DaysInMonth(y: int, m: nat): (n: nat)
    requires m < 12
    ensures 28 <= n <= 31
  {
    if m == 1 then (if IsLeapYear(y) then 29 else 28)
    else if m == 3 || m == 5 || m == 8 || m == 10 then 30
    else 31
  }

  predicate ValidDate(d: Date)
  {
    d.month < 12 && 1 <= d.day <= DaysInMonth(d.year, d.month)
  }

  /** Day `d` (1-based, possibly past the month's end) of month `m` of year `y`. */
  function Settle(y: int, m: nat, d: nat): (r: Date)
    requires m < 12 && d >= 1
    ensures ValidDate(r)
    ensures (r.year, r.month) == (y, m) || r.year > y || (r.year == y && r.month > m)
    decreases d
  {
    if d <= DaysInMonth(y, m) then Date(y, m, d)
    else if m == 11 then Settle(y + 1, 0, d - DaysInMonth(y, m))
    else Settle(y, m + 1, d - DaysInMonth(y, m))
  }

  /** `new Date(year, month, day)` for non-negative integer arguments. */
  function MakeDate(year: nat, month: nat, day: nat): (r: Date)
    ensures ValidDate(r)
    ensures r.year >= 99
  {
    var yr := if year <= 99 then 1900 + year else year;
    var y := yr + month / 12;
    var m := month % 12;
    if day >= 1 then Settle(y, m, day)
    else if m == 0 then Date(y - 1, 11, 31)
    else Date(y, m - 1, DaysInMonth(y, m - 1))
  }

  /** A date given in range is taken as it stands. */
  lemma MakeDateInRange(year: nat, month: nat, day: nat)
    requires year >= 100 && month < 12
    requires 1 <= day <= DaysInMonth(year, month)
    ensures MakeDate(year, month, day) == Date(year, month, day)
  {
  }

  /** Two-digit years are read as years of the twentieth century. */
  lemma MakeDateTwoDigitYear(year: nat, month: nat, day: nat)
    requires year <= 99
    ensures MakeDate(year, month, day) == MakeDate(1900 + year, month, day)
  {
  }

  /** Month overflow carries into the year: month 12 is January of the next year. */
  lemma MakeDateMonthCarry(year: nat, month: nat, day: nat)
    requires year >= 100
    ensures MakeDate(year, month + 12, day) == MakeDate(year + 1, month, day)
  {
    assert (month + 12) / 12 == month / 12 + 1 && (month + 12) % 12 == month % 12;
  }

  // ---------------------------------------------------------------------
  // The regular expression /Date\((\d+),(\d+),(\d+)\)/.
  // ---------------------------------------------------------------------

  datatype Captures = Captures(year: string, month: string, day: string)

  /** Length of the run of ASCII digits starting at `i`. */
  function DigitRun(s: string, i: nat): (n: nat)
    requires i <= |s|
    ensures i + n <= |s|
    ensures forall k :: i <= k < i + n ==> IsDigit(s[k])
    ensures i + n == |s| || !IsDigit(s[i + n])
    decreases |s| - i
  {
    if i == |s| || !IsDigit(s[i]) then 0 else 1 + DigitRun(s, i + 1)
  }

  /** A digit group starting at `i` and ending just before the character `stop`. */
  function Group(s: string, i: nat, stop: char): (r: Option<nat>)
    requires i <= |s|
    ensures r.Some? ==> i < r.value < |s| && s[r.value] == stop && AllDigits(s[i..r.value])
  {
    var n := DigitRun(s, i);
    if n >= 1 && i + n < |s| && s[i + n] == stop then Some(i + n) else None
  }

  /** The match of the pattern starting exactly at `i`, if any. */
  function MatchAt(s: string, i: nat): (r: Option<Captures>)
    requires i <= |s|
    ensures r.Some? ==> OccursAt(s, "Date(", i)
    ensures r.Some? ==> && r.value.year != [] && AllDigits(r.value.year)
                        && r.value.month != [] && AllDigits(r.value.month)
                        && r.value.day != [] && AllDigits(r.value.day)
  {
    if !OccursAt(s, "Date(", i) then None
    else
      match Group(s, i + 5, ',')
      case None => None
      case Some(e1) =>
        match Group(s, e1 + 1, ',')
        case None => None
        case Some(e2) =>
          match Group(s, e2 + 1, ')')
          case None => None
          case Some(e3) => Some(Captures(s[i + 5..e1], s[e1 + 1..e2], s[e2 + 1..e3]))
  }

  /** The pattern matches nowhere from `i` up to, but not including, `k`. */
  predicate NoMatchBetween(s: string, i: nat, k: nat)
    requires k <= |s|
    decreases k - i
  {
    i >= k || (MatchAt(s, i).None? && NoMatchBetween(s, i + 1, k))
  }

  /** The pattern matches at `k`, and nowhere from `i` up to `k`. */
  predicate LeftmostFrom(s: string, i: nat, k: nat)
  {
    i <= k <= |s| && MatchAt(s, k).Some? && NoMatchBetween(s, i, k)
  }

  /** The leftmost match at or after `i`: `String.prototype.match` without the `g` flag. */
  function FirstMatch(s: string, i: nat): (r: Option<Captures>)
    requires i <= |s|
    ensures r.None? <==> forall k :: i <= k <= |s| ==> MatchAt(s, k).None?
    ensures r.Some? ==> exists k :: LeftmostFrom(s, i, k) && MatchAt(s, k) == r
    decreases |s| - i
  {
    if MatchAt(s, i).Some? then
      assert LeftmostFrom(s, i, i);
      MatchAt(s, i)
    else if i == |s| then None
    else
      var r := FirstMatch(s, i + 1);
      assert r.Some? ==> exists k :: LeftmostFrom(s, i, k) && MatchAt(s, k) == r by {
        if r.Some? {
          var k :| LeftmostFrom(s, i + 1, k) && MatchAt(s, k) == r;
          assert LeftmostFrom(s, i, k);
        }
      }
      r
  }

  /** The leftmost match is where `FirstMatch` finds it. */
  lemma {:induction false} FirstMatchLeftmost(s: string, i: nat, k: nat)
    requires LeftmostFrom(s, i, k)
    ensures FirstMatch(s, i) == MatchAt(s, k)
    decreases k - i
  {
    if i < k {
      FirstMatchLeftmost(s, i + 1, k);
    }
  }

  /** The date `new Date(year, month, day)` builds from the captured digits. */
  function DateOf(c: Captures): Date
    requires AllDigits(c.year) && AllDigits(c.month) && AllDigits(c.day)
  {
    MakeDate(DigitsValue(c.year), DigitsValue(c.month), DigitsValue(c.day))
  }

  /**
   * `parseFechaSubida`: null when the pattern does not occur; otherwise the
   * date built from the digits of its leftmost occurrence.
   */
  function ParseFechaSubida(subido: string): (r: Option<Date>)
    ensures r.None? <==> forall k :: 0 <= k <= |subido| ==> MatchAt(subido, k).None?
    ensures r.Some? ==> ValidDate(r.value) && r.value.year >= 99
  {
    match FirstMatch(subido, 0)
    case None => None
    case Some(c) => Some(DateOf(c))
  }

  /** A parsed date is the one built from the digits of the leftmost occurrence of the pattern. */
  lemma ParseFechaSubidaLeftmost(subido: string)
    ensures ParseFechaSubida(subido).Some? ==>
      exists k :: LeftmostFrom(subido, 0, k) && ParseFechaSubida(subido).value == DateOf(MatchAt(subido, k).value)
  {
    if ParseFechaSubida(subido).Some? {
      var k :| LeftmostFrom(subido, 0, k) && MatchAt(subido, k) == FirstMatch(subido, 0);
      assert ParseFechaSubida(subido).value == DateOf(MatchAt(subido, k).value);
    }
  }

  /** `${getFullYear()}-${String(getMonth() + 1).padStart(2, "0")}`. */
  function MonthKey(d: Date): (k: string)
    requires d.year >= 0 && d.month < 12
    ensures |k| >= 4 && k[|k| - 3] == '-'
  {
    NatToString(d.year) + "-" + Pad2(NatToString(d.month + 1))
  }

  lemma MonthKeyOfDate(d: Date)
    requires d.year >= 0 && d.month < 12
    ensures MonthKey(d) == NatToString(d.year) + "-" + [DigitChar((d.month + 1) / 10), DigitChar((d.month + 1) % 10)]
  {
    var n := d.month + 1;
    if n < 10 {
      assert NatToString(n) == [DigitChar(n)];
    } else {
      assert NatToString(n / 10) == [DigitChar(n / 10)];
    }
  }

  lemma {:induction false} NatToStringInjective(a: nat, b: nat)
    requires NatToString(a) == NatToString(b)
    ensures a == b
  {
    NatToStringValue(a);
    NatToStringValue(b);
  }

  /** Dates share a key exactly when they fall in the same month of the same year. */
  lemma MonthKeyInjective(d: Date, e: Date)
    requires d.year >= 0 && d.month < 12 && e.year >= 0 && e.month < 12
    ensures MonthKey(d) == MonthKey(e) <==> d.year == e.year && d.month == e.month
  {
    MonthKeyOfDate(d);
    MonthKeyOfDate(e);
    if MonthKey(d) == MonthKey(e) {
      var kd, ke := MonthKey(d), MonthKey(e);
      assert NatToString(d.year) == kd[..|kd| - 3];
      assert NatToString(e.year) == ke[..|ke| - 3];
      NatToStringInjective(d.year, e.year);
      assert kd[|kd| - 2] == ke[|ke| - 2] && kd[|kd| - 1] == ke[|ke| - 1];
      assert (d.month + 1) / 10 == (e.month + 1) / 10;
      assert (d.month + 1) % 10 == (e.month + 1) % 10;
    }
  }

  lemma DigitRunExample()
    ensures DigitRun("Date(2023,4,15)", 5) == 4
  {
    var s := "Date(2023,4,15)";
    assert DigitRun(s, 9) == 0;
    assert DigitRun(s, 8) == 1;
    assert DigitRun(s, 7) == 2;
    assert DigitRun(s, 6) == 3;
  }

  lemma ParseExample()
    ensures ParseFechaSubida("Date(2023,4,15)") == Some(Date(2023, 4, 15))
  {
    var c := Captures("2023", "4", "15");
    MatchExample();
    assert LeftmostFrom("Date(2023,4,15)", 0, 0);
    ParseOfMatch("Date(2023,4,15)", 0, c);
    DigitsExample();
    MakeDateExample();
  }

  lemma MakeDateExample()
    ensures MakeDate(2023, 4, 15) == Date(2023, 4, 15)
  {
    assert DaysInMonth(2023, 4) == 31;
  }

  /** Wherever the leftmost occurrence is, its digits give the parsed date. */
  lemma ParseOfMatch(s: string, k: nat, c: Captures)
    requires LeftmostFrom(s, 0, k) && MatchAt(s, k) == Some(c)
    ensures AllDigits(c.year) && AllDigits(c.month) && AllDigits(c.day)
    ensures ParseFechaSubida(s) == Some(MakeDate(DigitsValue(c.year), DigitsValue(c.month), DigitsValue(c.day)))
  {
    FirstMatchLeftmost(s, 0, k);
  }

  lemma MatchExample()
    ensures MatchAt("Date(2023,4,15)", 0) == Some(Captures("2023", "4", "15"))
  {
    var s := "Date(2023,4,15)";
    assert OccursAt(s, "Date(", 0);
    DigitRunExample();
    assert Group(s, 5, ',') == Some(9);
    assert DigitRun(s, 11) == 0;
    assert Group(s, 10, ',') == Some(11);
    assert DigitRun(s, 14) == 0;
    assert DigitRun(s, 13) == 1;
    assert Group(s, 12, ')') == Some(14);
    assert s[5..9] == "2023" && s[10..11] == "4" && s[12..14] == "15";
  }

  lemma DigitsExample()
    ensures DigitsValue("2023") == 2023 && DigitsValue("4") == 4 && DigitsValue("15") == 15
  {
    assert DigitsValue("2") == 2 by {
      assert "2"[..0] == "";
    }
    assert DigitsValue("20") == 20 by {
      assert "20"[..1] == "2";
    }
    assert DigitsValue("202") == 202 by {
      assert "202"[..2] == "20";
    }
    assert DigitsValue("2023") == 2023 by {
      assert "2023"[..3] == "202";
    }
    assert DigitsValue("1") == 1 by {
      assert "1"[..0] == "";
    }
    assert DigitsValue("15") == 15 by {
      assert "15"[..1] == "1";
    }
    assert DigitsValue("4") == 4 by {
      assert "4"[..0] == "";
    }
  }
}
