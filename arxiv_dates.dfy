/** The dates of the arXiv layer: the user's bounds `_parse_user_date`
    and the Atom timestamps `_parse_atom_date`. The calendar parsing of
    `datetime.strptime` is a parameter: it takes the text and one of the two
    formats used, and gives a date and time or nothing. */
module ArxivDates {
  import opened Wrappers
  import opened Text

  /** A naive `datetime` without its microseconds. */
  datatype DateTime = DateTime(year: int, month: int, day: int, hour: int, minute: int, second: int)

  /** `datetime.__lt__`: lexicographic order on the fields. */
  predicate Before(a: DateTime, b: DateTime)
  {
    if a.year != b.year then a.year < b.year
    else if a.month != b.month then a.month < b.month
    else if a.day != b.day then a.day < b.day
    else if a.hour != b.hour then a.hour < b.hour
    else if a.minute != b.minute then a.minute < b.minute
    else a.second < b.second
  }

  /** `Before` is a strict total order, as the comparisons of the range
      filter need. */
  lemma BeforeOrder(a: DateTime, b: DateTime, c: DateTime)
    ensures !Before(a, a)
    ensures Before(a, b) && Before(b, c) ==> Before(a, c)
    ensures a == b || Before(a, b) || Before(b, a)
    ensures !(Before(a, b) && Before(b, a))
  {
  }

  /** The two formats passed to `strptime`. */
  datatype Format = DateOnly /* "%Y-%m-%d" */ | DateAndTime /* "%Y-%m-%dT%H:%M:%S" */

  predicate AllDigits(s: string)
  {
    forall k :: 0 <= k < |s| ==> IsAsciiDigit(s[k])
  }

  /** Line 277-278: an 8-digit string `YYYYMMDD` becomes `YYYY-MM-DD`;
      anything else is left alone. */
  function NormalizeUserDate(ds: string): string
  {
    if |ds| == 8 && AllDigits(ds) then ds[..4] + "-" + ds[4..6] + "-" + ds[6..8] else ds
  }

  /** The rewriting inserts exactly the two dashes: ten characters, `-` at
      positions 4 and 7, and the digits in their order around them. */
  lemma NormalizeUserDateLayout(ds: string)
    ensures |ds| == 8 && AllDigits(ds) ==> var r := NormalizeUserDate(ds);
      && |r| == 10 && r[4] == '-' && r[7] == '-'
      && r[..4] + r[5..7] + r[8..] == ds
    ensures !(|ds| == 8 && AllDigits(ds)) ==> NormalizeUserDate(ds) == ds
  {
    if |ds| == 8 && AllDigits(ds) {
      var r := NormalizeUserDate(ds);
      assert r[..4] == ds[..4] && r[5..7] == ds[4..6] && r[8..] == ds[6..8];
      assert ds == ds[..4] + ds[4..6] + ds[6..8];
    }
  }

  function StartOfDay(d: DateTime): DateTime
  {
    d.(hour := 0, minute := 0, second := 0)
  }

  function EndOfDay(d: DateTime): DateTime
  {
    d.(hour := 23, minute := 59, second := 59)
  }

  /** `_parse_user_date(date_str, is_start)`: `ValueError` from `strptime` is
      the `None` of the parameter. */
  function ParseUserDate(strptime: (string, Format) -> Option<DateTime>, dateStr: Option<string>, isStart: bool): (r: Option<DateTime>)
    ensures !Truthy(dateStr) ==> r.None?
    ensures r.Some? && isStart ==> r.value.hour == 0 && r.value.minute == 0 && r.value.second == 0
    ensures r.Some? && !isStart ==> r.value.hour == 23 && r.value.minute == 59 && r.value.second == 59
    ensures Truthy(dateStr) ==>
      var p := strptime(NormalizeUserDate(Strip(dateStr.value)), DateOnly);
      (r.Some? <==> p.Some?) && (r.Some? ==> SameDay(r.value, p.value))
  {
    if !Truthy(dateStr) then None
    else
      var ds := NormalizeUserDate(Strip(dateStr.value));
      match strptime(ds, DateOnly)
      case None => None
      case Some(dt) => Some(if isStart then StartOfDay(dt) else EndOfDay(dt))
  }

  /** A time of day on the clock. */
  predicate ClockTime(t: DateTime)
  {
    0 <= t.hour <= 23 && 0 <= t.minute <= 59 && 0 <= t.second <= 59
  }

  predicate SameDay(a: DateTime, b: DateTime)
  {
    a.year == b.year && a.month == b.month && a.day == b.day
  }

  /** The two bounds read from one string name the same day: the start
      bound exists exactly when the end bound does, and every clock time of
      that day lies between them, both included, so the range they make is
      inclusive of whole days. */
  lemma UserDatesCoverDay(strptime: (string, Format) -> Option<DateTime>, dateStr: Option<string>, t: DateTime)
    ensures var s := ParseUserDate(strptime, dateStr, true); var e := ParseUserDate(strptime, dateStr, false);
      && (s.Some? <==> e.Some?)
      && (s.Some? ==> s.value.(hour := 23, minute := 59, second := 59) == e.value)
      && (s.Some? ==> SameDay(t, s.value) && ClockTime(t) ==> !Before(t, s.value) && !Before(e.value, t))
  {
  }

  /** An 8-digit date is read as the same day as its dashed form, so both
      spellings give the same bounds. */
  lemma EightDigitsAsDashed(strptime: (string, Format) -> Option<DateTime>, ds: string, isStart: bool)
    requires |ds| == 8 && AllDigits(ds)
    ensures ParseUserDate(strptime, Some(ds), isStart)
         == ParseUserDate(strptime, Some(ds[..4] + "-" + ds[4..6] + "-" + ds[6..8]), isStart)
  {
    var dashed := ds[..4] + "-" + ds[4..6] + "-" + ds[6..8];
    StripNoSpace(ds);
    StripNoSpace(dashed);
    assert |dashed| == 10;
    assert NormalizeUserDate(dashed) == dashed;
  }

  /** The example of the docstring (lines 269-272): whatever `strptime`
      also does, once it reads `2023-01-01` as that day, `20230101` gives
      the first second of the day as a start bound and the last as an end
      bound. */
  lemma UserDateExample(strptime: (string, Format) -> Option<DateTime>)
    requires strptime("2023-01-01", DateOnly) == Some(DateTime(2023, 1, 1, 0, 0, 0))
    ensures ParseUserDate(strptime, Some("20230101"), true) == Some(DateTime(2023, 1, 1, 0, 0, 0))
    ensures ParseUserDate(strptime, Some("20230101"), false) == Some(DateTime(2023, 1, 1, 23, 59, 59))
  {
    var ds := "20230101";
    StripNoSpace(ds);
    assert AllDigits(ds);
    assert NormalizeUserDate(ds) == "2023-01-01";
  }

  /** A string with no white space at either end strips to itself. */
  lemma StripNoSpace(s: string)
    requires s == [] || (!IsSpace(s[0]) && !IsSpace(s[|s| - 1]))
    ensures Strip(s) == s
  {
    if s != [] {
      assert LeadingSpaces(s) == 0;
      assert s[|s|..] == [];
      assert TrimEnd(s, 0, |s|) == |s|;
    }
  }

  /** `s.replace("Z", "")` for the one-character pattern. */
  function RemoveAll(s: string, c: char): (r: string)
    ensures c !in r
    ensures |r| + Count(s, c) == |s|
  {
    if s == [] then [] else (if s[0] == c then [] else [s[0]]) + RemoveAll(s[1..], c)
  }

  /** Removing a character that is absent changes nothing. */
  lemma {:induction false} RemoveAllAbsent(s: string, c: char)
    requires c !in s
    ensures RemoveAll(s, c) == s
  {
    if s != [] {
      RemoveAllAbsent(s[1..], c);
    }
  }

  /** Removal works character by character: it distributes over
      concatenation, drops every `c` and keeps every other character, so
      what remains is the other characters in their order. */
  lemma {:induction false} RemoveAllConcat(a: string, b: string, c: char)
    ensures RemoveAll(a + b, c) == RemoveAll(a, c) + RemoveAll(b, c)
  {
    if a == [] {
      assert a + b == b;
    } else {
      assert (a + b)[1..] == a[1..] + b;
      RemoveAllConcat(a[1..], b, c);
      ConcatAssoc(if a[0] == c then [] else [a[0]], RemoveAll(a[1..], c), RemoveAll(b, c));
    }
  }

  lemma RemoveAllOne(d: char, c: char)
    ensures RemoveAll([d], c) == if d == c then [] else [d]
  {
    assert [d][1..] == [];
  }

  /** The text given to `strptime` by `_parse_atom_date`. */
  function AtomDateText(s: string): string
  {
    RemoveAll(Strip(s), 'Z')
  }

  /** `_parse_atom_date(atom_date_str)`: the formats are tried in order and
      the first that parses wins. */
  function ParseAtomDate(strptime: (string, Format) -> Option<DateTime>, atom: Option<string>): (r: Option<DateTime>)
    ensures !Truthy(atom) ==> r.None?
    ensures Truthy(atom) ==> var t := AtomDateText(atom.value);
      && (strptime(t, DateAndTime).Some? ==> r == strptime(t, DateAndTime))
      && (strptime(t, DateAndTime).None? ==> r == strptime(t, DateOnly))
  {
    if !Truthy(atom) then None
    else
      var t := AtomDateText(atom.value);
      if strptime(t, DateAndTime).Some? then strptime(t, DateAndTime) else strptime(t, DateOnly)
  }

  /** No `Z` reaches `strptime`: a timestamp with or without the zone mark
      reads the same. */
  lemma AtomDateIgnoresZone(strptime: (string, Format) -> Option<DateTime>, s: string)
    requires 'Z' !in s && s != [] && !IsSpace(s[0]) && !IsSpace(s[|s| - 1])
    ensures ParseAtomDate(strptime, Some(s + "Z")) == ParseAtomDate(strptime, Some(s))
  {
    StripNoSpace(s);
    StripNoSpace(s + "Z");
    RemoveAllAbsent(s, 'Z');
    RemoveAllSingle(s, 'Z');
  }

  lemma {:induction false} RemoveAllSingle(s: string, c: char)
    ensures RemoveAll(s + [c], c) == RemoveAll(s, c)
  {
    if s == [] {
      assert RemoveAll([c], c) == [] + RemoveAll([], c);
    } else {
      assert (s + [c])[1..] == s[1..] + [c];
      RemoveAllSingle(s[1..], c);
    }
  }
}
