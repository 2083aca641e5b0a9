/**
 * The cell clean-up of Project/src/parser.py: hub names and zip codes as
 * the distance sheet writes them, and deadlines as the package sheet
 * writes them. A time of day is whole seconds after midnight.
 */
module CellParser {
  import opened Wrappers
  import opened PyText
  import opened Models

  /** HUB_TEXT: how the sheet names the hub itself. */
  const HubText := "HUB"
  /** EOD_TEXT: the deadline "end of day". */
  const EodText := "EOD"
  /** WGU_ADDRESS: the hub's street address. */
  const HubAddress := "4001 South 700 East"
  /** WGU_ZIPCODE: the hub's zip code. */
  const HubZip := 84107

  /** What `sanitize_hub_names` gives back: a street, a zip code, nothing, or an exception. */
  datatype Cell =
    | Street(text: string)
    | Zip(code: int)
    | NoCell            // the `None` of an index other than 1 and 2
    | NoSecondLine      // `split("\n")[1]` of a one-line cell raises IndexError
    | NotANumber        // `int(...)` of the sliced text raises ValueError

  /** `s[lo:hi]` for non-negative bounds: both are cut down to the length first. */
  function Slice(s: string, lo: nat, hi: nat): (r: string)
    ensures |r| == (if hi <= |s| then hi else |s|) - (if lo <= |s| then lo else |s|) || |r| == 0
  {
    var a := if lo <= |s| then lo else |s|;
    var b := if hi <= |s| then hi else |s|;
    if a <= b then s[a..b] else []
  }

  /**
   * `sanitize_hub_names(cell, cell_index)`: for index 1 the street, for
   * index 2 the zip code, for any other index nothing.
   */
  function SanitizeHubNames(cell: string, cellIndex: int): (r: Cell)
    ensures cellIndex == 1 ==> r.Street? && Strip(r.text) == r.text && '\n' !in r.text
    ensures cellIndex == 2 ==> r.Zip? || r == NoSecondLine || r == NotANumber
    ensures cellIndex == 2 && r == NoSecondLine ==> '\n' !in Strip(cell)
    ensures cellIndex != 1 && cellIndex != 2 ==> r == NoCell
    ensures (cellIndex == 1 || cellIndex == 2) && Strip(cell) == HubText ==>
      r == if cellIndex == 1 then Street(HubAddress) else Zip(HubZip)
  {
    if cellIndex == 1 then Street(StreetOf(cell))
    else if cellIndex == 2 then ZipOf(cell)
    else NoCell
  }

  /**
   * The street of a hub cell: the hub's address when the stripped cell is
   * HUB_TEXT, otherwise the first line of the stripped cell, stripped again.
   */
  function StreetOf(cell: string): (r: string)
    ensures Strip(r) == r && '\n' !in r
    ensures Strip(cell) == HubText ==> r == HubAddress
  {
    var stripped := Strip(cell);
    if stripped == HubText then
      assert HubAddress[0] == '4' && HubAddress[|HubAddress| - 1] == 't';
      StripUnchanged(HubAddress);
      HubAddress
    else
      var lines := Split(stripped, '\n');
      StripIdempotentAt(lines[0]);
      Strip(lines[0])
  }

  /**
   * The zip code of a hub cell: the hub's when the stripped cell is
   * HUB_TEXT, otherwise `int()` of characters 1 to 5 of its second line.
   */
  function ZipOf(cell: string): (r: Cell)
    ensures r.Zip? || r == NoSecondLine || r == NotANumber
    ensures r == NoSecondLine ==> '\n' !in Strip(cell)
    ensures Strip(cell) == HubText ==> r == Zip(HubZip)
  {
    var stripped := Strip(cell);
    if stripped == HubText then Zip(HubZip)
    else
      var lines := Split(stripped, '\n');
      if |lines| < 2 then
        assert Count(stripped, '\n') == 0;
        CountZero(stripped, '\n');
        NoSecondLine
      else
        match ParseInt(Slice(lines[1], 1, 6))
        case Some(code) => Zip(code)
        case None => NotANumber
  }

  /** A stripped piece without a newline keeps none once stripped again, and stripping it again changes nothing. */
  lemma StripIdempotentAt(s: string)
    requires '\n' !in s
    ensures Strip(Strip(s)) == Strip(s) && '\n' !in Strip(s)
  {
    var r := Strip(s);
    assert '\n' !in r by {
      forall k | 0 <= k < |r| ensures r[k] != '\n' {
        assert r[k] == s[Leading(s) + k];
      }
    }
    StripIdempotent(s);
  }

  /** A string with no occurrence of `c` does not contain it. */
  lemma {:induction false} CountZero(s: string, c: char)
    requires Count(s, c) == 0
    ensures c !in s
  {
    if |s| > 0 {
      CountZero(s[1..], c);
      assert s == [s[0]] + s[1..];
    }
  }

  /**
   * A hub cell as the sheet writes it, a street line over a line holding
   * the zip code after one character (as in "(84107)"), gives the street
   * for index 1 and the zip code for index 2.
   */
  lemma HubCell(street: string, zip: string)
    requires |street| > 0 && !IsSpace(street[0]) && !IsSpace(street[|street| - 1]) && '\n' !in street
    requires street != HubText
    requires |zip| == 5 && forall i :: 0 <= i < 5 ==> IsDigit(zip[i])
    ensures var cell := street + "\n(" + zip + ")";
      SanitizeHubNames(cell, 1) == Street(street) && SanitizeHubNames(cell, 2) == Zip(DigitsValue(zip))
  {
    var second := "(" + zip + ")";
    Regroup(street, zip);
    HubCellStreet(street, second);
    HubCellZip(street, zip, second);
  }

  /** The cell written out as its two lines. */
  lemma Regroup(street: string, zip: string)
    ensures street + "\n(" + zip + ")" == street + "\n" + ("(" + zip + ")")
  {
    var l := street + "\n(" + zip + ")";
    var r := street + "\n" + ("(" + zip + ")");
    assert |l| == |r|;
    forall k | 0 <= k < |l| ensures l[k] == r[k] {
    }
  }

  /** The street line of a two-line cell is its street. */
  lemma HubCellStreet(street: string, second: string)
    requires |street| > 0 && !IsSpace(street[0]) && !IsSpace(street[|street| - 1]) && '\n' !in street
    requires street != HubText
    requires |second| > 0 && !IsSpace(second[|second| - 1]) && '\n' !in second
    ensures StreetOf(street + "\n" + second) == street
  {
    HubCellLines(street, second);
    StripUnchanged(street);
  }

  /** The zip line "(ddddd)" of a two-line cell gives the zip code. */
  lemma HubCellZip(street: string, zip: string, second: string)
    requires |street| > 0 && !IsSpace(street[0]) && '\n' !in street && street != HubText
    requires |zip| == 5 && forall i :: 0 <= i < 5 ==> IsDigit(zip[i])
    requires second == "(" + zip + ")"
    ensures ZipOf(street + "\n" + second) == Zip(DigitsValue(zip))
  {
    HubCellLines(street, second);
    assert Slice(second, 1, 6) == zip;
    ParseZip(zip);
  }

  /** Five digits are read as the number they spell. */
  lemma ParseZip(zip: string)
    requires |zip| == 5 && forall i :: 0 <= i < 5 ==> IsDigit(zip[i])
    ensures ParseInt(zip) == Some(DigitsValue(zip))
  {
    assert !IsSpace(zip[0]) && !IsSpace(zip[4]);
    StripUnchanged(zip);
    assert DigitRun(zip);
  }

  /** Two lines, neither blank at its outer end, strip to themselves and split into the two lines. */
  lemma HubCellLines(street: string, second: string)
    requires |street| > 0 && !IsSpace(street[0]) && '\n' !in street && street != HubText
    requires |second| > 0 && !IsSpace(second[|second| - 1]) && '\n' !in second
    ensures var cell := street + "\n" + second;
      Strip(cell) == cell && cell != HubText && Split(cell, '\n') == [street, second]
  {
    var cell := street + "\n" + second;
    assert cell[0] == street[0] && cell[|cell| - 1] == second[|second| - 1];
    StripUnchanged(cell);
    assert cell != HubText by {
      if |street| < 3 { assert |cell| > |HubText| || cell[|street|] == '\n'; }
      else { assert cell[..3] == street[..3]; assert |cell| > 3; }
    }
    SplitOnce(street, second, '\n');
  }

  /** `%I` of `strptime`: "1" to "12", with or without a leading zero. */
  predicate HourText(h: string) {
    (|h| == 1 && '1' <= h[0] <= '9') ||
    (|h| == 2 && ((h[0] == '0' && '1' <= h[1] <= '9') || (h[0] == '1' && '0' <= h[1] <= '2')))
  }

  /** `%M` of `strptime`: one digit, or two digits below 60. */
  predicate MinuteText(m: string) {
    (|m| == 1 && IsDigit(m[0])) || (|m| == 2 && '0' <= m[0] <= '5' && IsDigit(m[1]))
  }

  /** `%p` of `strptime` in the C locale, any case: `Some(false)` for AM, `Some(true)` for PM. */
  function Meridiem(p: string): Option<bool> {
    if |p| != 2 || (p[1] != 'm' && p[1] != 'M') then None
    else if p[0] == 'a' || p[0] == 'A' then Some(false)
    else if p[0] == 'p' || p[0] == 'P' then Some(true)
    else None
  }

  /** The value of a one- or two-digit text. */
  function SmallValue(d: string): (n: int)
    requires |d| <= 2 && forall i :: 0 <= i < |d| ==> IsDigit(d[i])
    ensures 0 <= n < (if |d| == 2 then 100 else 10)
  {
    if |d| == 0 then 0
    else
      assert IsDigit(d[0]);
      var first := d[0] as int - '0' as int;
      if |d| == 1 then first
      else
        assert IsDigit(d[1]);
        first * 10 + (d[1] as int - '0' as int)
  }

  /** The hour of the day of a 12-hour clock reading: 12 AM is 0, and PM adds 12 below 12. */
  function Hour24(hour: int, pm: bool): (h: int)
    requires 1 <= hour <= 12
    ensures 0 <= h < 24 && (h < 12 <==> !pm) && h % 12 == hour % 12
  {
    if !pm then (if hour == 12 then 0 else hour) else if hour != 12 then hour + 12 else hour
  }

  /** How long the `%M` text at the front of `rest` is: two digits when they make a minute, else one digit, else none. */
  function MinuteLength(rest: string): (n: nat)
    ensures n <= |rest| && n <= 2
  {
    if |rest| >= 2 && '0' <= rest[0] <= '5' && IsDigit(rest[1]) then 2
    else if |rest| >= 1 && IsDigit(rest[0]) then 1
    else 0
  }

  /** Where `c` first occurs in `s`, or `|s|` when it does not. */
  function Find(s: string, c: char): (k: nat)
    ensures k <= |s| && c !in s[..k] && (k < |s| ==> s[k] == c)
  {
    if |s| == 0 then 0
    else if s[0] == c then 0
    else
      var k := Find(s[1..], c) + 1;
      assert s[..k] == [s[0]] + s[1..][..k - 1];
      k
  }

  /** The part of a clock reading after the hour: the minute and whether it is PM. */
  datatype Reading = Reading(minute: int, pm: bool)

  /**
   * What follows the ':' of "%I:%M %p": a minute, whitespace, AM or PM and
   * nothing else, or `None`.
   */
  function AfterColon(rest: string): (r: Option<Reading>)
    ensures r.Some? ==> 0 <= r.value.minute < 60
  {
    var n := MinuteLength(rest);
    var after := rest[n..];
    var gap := Leading(after);
    var pm := Meridiem(after[gap..]);
    if MinuteText(rest[..n]) && gap > 0 && pm.Some? then Some(Reading(SmallValue(rest[..n]), pm.value))
    else None
  }

  /**
   * `datetime.strptime(text, "%I:%M %p").time()`: the whole text must be an
   * hour, ':', a minute, whitespace and AM or PM; the result is that time
   * of day, or `None` for the `ValueError` anything else raises.
   */
  function StrpTime(text: string): (r: Option<int>)
    ensures r.Some? ==> 0 <= r.value < DaySeconds && ':' in text
  {
    var k := Find(text, ':');
    if k == |text| || !HourText(text[..k]) then None
    else
      var hour := SmallValue(text[..k]);
      match AfterColon(text[k + 1..])
      case None => None
      case Some(reading) => Some(TimeOfDay(Hour24(hour, reading.pm), reading.minute))
  }

  /**
   * `validate_delivery_time_from_cell`: EOD_TEXT is 17:00; any other cell
   * is read with the format "%I:%M %p".
   */
  function ValidateDeliveryTime(cell: string): (r: Option<int>)
    ensures cell == EodText ==> r == Some(17 * 3600)
    ensures cell != EodText ==> r == StrpTime(cell)
  {
    if cell == EodText then Some(17 * 3600) else StrpTime(cell)
  }

  /** The hour on a 12-hour clock face: midnight and noon are 12. */
  function Hour12(hour: nat): (h: int)
    requires hour < 24
    ensures 1 <= h <= 12 && Hour24(h, hour >= 12) == hour
  {
    if hour == 0 || hour == 12 then 12 else if hour < 12 then hour else hour - 12
  }

  /** `strftime("%I:%M %p")` of a time of day on the hour and minute: two-digit hour 01-12, two-digit minute, AM or PM. */
  function Clock12(hour: nat, minute: nat): (s: string)
    requires hour < 24 && minute < 60
  {
    var h := Hour12(hour);
    TwoDigits(h) + ":" + TwoDigits(minute) + " " + (if hour < 12 then "AM" else "PM")
  }

  /** Reading back what `strftime("%I:%M %p")` writes gives the same time of day. */
  lemma StrpTimeReadsClock12(hour: nat, minute: nat)
    requires hour < 24 && minute < 60
    ensures StrpTime(Clock12(hour, minute)) == Some(TimeOfDay(hour, minute))
  {
    var h := Hour12(hour);
    var text := Clock12(hour, minute);
    var hh := TwoDigits(h);
    var rest := TwoDigits(minute) + " " + (if hour < 12 then "AM" else "PM");
    assert text == hh + ":" + rest;
    assert Find(text, ':') == 2 by {
      assert text[0] != ':' && text[1] != ':' && text[2] == ':';
      assert text[1..][0] != ':' && text[2..][0] == ':';
    }
    assert text[..2] == hh && text[3..] == rest;
    SmallValueTwoDigits(h);
    assert HourText(hh);
    AfterColonReads(minute, hour >= 12);
  }

  /** Two digits are read back as the number they write. */
  lemma SmallValueTwoDigits(n: nat)
    requires n < 100
    ensures forall i :: 0 <= i < 2 ==> IsDigit(TwoDigits(n)[i])
    ensures SmallValue(TwoDigits(n)) == n
  {
  }

  /** A two-digit minute, one space and AM or PM read as that minute and half of the day. */
  lemma AfterColonReads(minute: nat, pm: bool)
    requires minute < 60
    ensures AfterColon(TwoDigits(minute) + " " + (if pm then "PM" else "AM")) == Some(Reading(minute, pm))
  {
    var p := if pm then "PM" else "AM";
    var rest := TwoDigits(minute) + " " + p;
    assert MinuteLength(rest) == 2;
    assert rest[..2] == TwoDigits(minute);
    SmallValueTwoDigits(minute);
    var after := rest[2..];
    assert after == " " + p;
    assert Leading(after) == 1 by {
      assert after[1..][0] == p[0] && !IsSpace(p[0]);
    }
    assert after[1..] == p;
  }

  /** An hour past 12 in the %I field is refused: "13:00 PM" raises. */
  lemma StrpTimeRefusesHour13()
    ensures StrpTime("13:00 PM") == None
  {
    assert Find("13:00 PM", ':') == 2 by {
      assert "13:00 PM"[1..][0] != ':' && "13:00 PM"[2..][0] == ':';
    }
    assert "13:00 PM"[..2] == "13";
  }
}
