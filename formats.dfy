/**
 * Text forms of the two typed fields of a customer: the identifier
 * (a 128-bit UUID in the 8-4-4-4-12 hexadecimal layout) and the birthday
 * (a calendar date in the `yyyy-MM-dd` pattern).  Both parsers are explicit,
 * simplified statements of what the Java library calls do; see README.
 */
module Formats {
  import opened Wrappers
  import FieldCodec

  // ---------------------------------------------------------------- digits

  type Nibble = n: int | 0 <= n < 16

  /** Lower-case hexadecimal digit, as UUID.toString writes it. */
  function HexDigit(n: Nibble): (c: char)
  {
    if n < 10 then ('0' as int + n) as char else ('a' as int + n - 10) as char
  }

  /** Value of a hexadecimal digit of either case; None for any other character. */
  function HexValue(c: char): (r: Option<Nibble>)
    ensures r.Some? <==> ('0' <= c <= '9' || 'a' <= c <= 'f' || 'A' <= c <= 'F')
  {
    if '0' <= c <= '9' then Some(c as int - '0' as int)
    else if 'a' <= c <= 'f' then Some(c as int - 'a' as int + 10)
    else if 'A' <= c <= 'F' then Some(c as int - 'A' as int + 10)
    else None
  }

  predicate LowerHexChar(c: char)
  {
    '0' <= c <= '9' || 'a' <= c <= 'f'
  }

  function HexText(ns: seq<Nibble>): (r: string)
    ensures |r| == |ns|
    ensures forall k :: 0 <= k < |r| ==> LowerHexChar(r[k])
  {
    if ns == [] then [] else [HexDigit(ns[0])] + HexText(ns[1..])
  }

  function HexNibbles(s: string): (r: Option<seq<Nibble>>)
    ensures r.Some? ==> |r.value| == |s|
    ensures r.Some? <==> forall c :: c in s ==> HexValue(c).Some?
  {
    if s == [] then Some([])
    else match HexValue(s[0])
      case None => None
      case Some(n) =>
        match HexNibbles(s[1..])
        case Some(ns) =>
          assert s == [s[0]] + s[1..];
          Some([n] + ns)
        case None => None
  }

  lemma {:induction false} HexNibblesOfText(ns: seq<Nibble>)
    ensures HexNibbles(HexText(ns)) == Some(ns)
    decreases |ns|
  {
    if ns != [] {
      var t := HexText(ns);
      HexNibblesOfText(ns[1..]);
      assert t[0] == HexDigit(ns[0]) && t[1..] == HexText(ns[1..]);
      assert HexValue(HexDigit(ns[0])) == Some(ns[0]);
      assert ns == [ns[0]] + ns[1..];
    }
  }

  lemma {:induction false} HexTextOfNibbles(s: string)
    requires HexNibbles(s).Some? && LowerCaseText(s)
    ensures HexText(HexNibbles(s).value) == s
    decreases |s|
  {
    if s != [] {
      assert s[0] in s;
      assert forall c :: c in s[1..] ==> c in s;
      var n := HexValue(s[0]).value;
      HexTextOfNibbles(s[1..]);
      assert HexDigit(n) == s[0];
      assert s == [s[0]] + s[1..];
    }
  }

  function DecimalDigit(n: nat): char
    requires n < 10
  {
    ('0' as int + n) as char
  }

  function Pow10(w: nat): (p: nat)
    ensures p > 0
  {
    if w == 0 then 1 else 10 * Pow10(w - 1)
  }

  /** The last `width` decimal digits of `n`, zero-padded on the left. */
  function Decimal(n: nat, width: nat): (r: string)
    ensures |r| == width
    ensures forall k :: 0 <= k < |r| ==> '0' <= r[k] <= '9'
  {
    if width == 0 then [] else Decimal(n / 10, width - 1) + [DecimalDigit(n % 10)]
  }

  /** Value of a string of decimal digits; None if any character is not a digit. */
  function DecimalValue(s: string): (r: Option<nat>)
    ensures r.Some? <==> forall k :: 0 <= k < |s| ==> '0' <= s[k] <= '9'
    ensures r.Some? ==> r.value < Pow10(|s|)
  {
    if s == [] then Some(0)
    else
      var last := s[|s| - 1];
      match DecimalValue(s[..|s| - 1])
      case Some(v) =>
        if '0' <= last <= '9' then Some(10 * v + (last as int - '0' as int))
        else None
      case None =>
        assert forall k :: 0 <= k < |s| - 1 ==> s[..|s| - 1][k] == s[k];
        None
  }

  lemma {:induction false} DecimalValueOfDecimal(n: nat, width: nat)
    requires n < Pow10(width)
    ensures DecimalValue(Decimal(n, width)) == Some(n)
  {
    if width > 0 {
      DecimalValueOfDecimal(n / 10, width - 1);
      var s := Decimal(n, width);
      assert s[..|s| - 1] == Decimal(n / 10, width - 1);
    }
  }

  lemma {:induction false} DecimalOfDecimalValue(s: string)
    requires DecimalValue(s).Some?
    ensures Decimal(DecimalValue(s).value, |s|) == s
  {
    if s != [] {
      var init := s[..|s| - 1];
      DecimalOfDecimalValue(init);
      var v, d := DecimalValue(s).value, s[|s| - 1] as int - '0' as int;
      assert v == 10 * DecimalValue(init).value + d;
      assert v / 10 == DecimalValue(init).value && v % 10 == d;
      assert DecimalDigit(d) == s[|s| - 1];
      assert s == init + [s[|s| - 1]];
    }
  }

  // ---------------------------------------------------------------- UUID

  /** A 128-bit identifier as its 32 hexadecimal digits, most significant first. */
  type Uuid = ns: seq<Nibble> | |ns| == 32 witness seq(32, _ => 0)

  /** Lengths of the five hyphen-separated groups of the canonical layout. */
  const GroupLengths: seq<nat> := [8, 4, 4, 4, 12]

  function Sum(lens: seq<nat>): nat
  {
    if lens == [] then 0 else lens[0] + Sum(lens[1..])
  }

  /** The digits cut into consecutive groups of the given lengths, each written in lower-case hex. */
  function Regroup(ns: seq<Nibble>, lens: seq<nat>): (gs: seq<string>)
    requires |ns| == Sum(lens)
    ensures |gs| == |lens|
    ensures forall k :: 0 <= k < |gs| ==> |gs[k]| == lens[k] && forall c :: c in gs[k] ==> LowerHexChar(c)
  {
    if lens == [] then [] else [HexText(ns[..lens[0]])] + Regroup(ns[lens[0]..], lens[1..])
  }

  /** The digits of the groups, concatenated, provided each group has its length and only hex digits. */
  function GroupNibbles(gs: seq<string>, lens: seq<nat>): (r: Option<seq<Nibble>>)
    requires |gs| == |lens|
    ensures r.Some? ==> |r.value| == Sum(lens)
    ensures r.Some? <==> forall k :: 0 <= k < |gs| ==> |gs[k]| == lens[k] && HexNibbles(gs[k]).Some?
  {
    if gs == [] then Some([])
    else
      assert forall k :: 1 <= k < |gs| ==> gs[k] == gs[1..][k - 1] && lens[k] == lens[1..][k - 1];
      if |gs[0]| != lens[0] then None
      else match (HexNibbles(gs[0]), GroupNibbles(gs[1..], lens[1..]))
        case (Some(a), Some(b)) => Some(a + b)
        case _ => None
  }

  lemma {:induction false} GroupNibblesOfRegroup(ns: seq<Nibble>, lens: seq<nat>)
    requires |ns| == Sum(lens)
    ensures GroupNibbles(Regroup(ns, lens), lens) == Some(ns)
    decreases |lens|
  {
    if lens != [] {
      var gs := Regroup(ns, lens);
      HexNibblesOfText(ns[..lens[0]]);
      GroupNibblesOfRegroup(ns[lens[0]..], lens[1..]);
      assert gs[1..] == Regroup(ns[lens[0]..], lens[1..]);
      assert ns == ns[..lens[0]] + ns[lens[0]..];
    }
  }

  lemma {:induction false} RegroupOfGroupNibbles(gs: seq<string>, lens: seq<nat>)
    requires |gs| == |lens| && GroupNibbles(gs, lens).Some?
    requires forall k :: 0 <= k < |gs| ==> LowerCaseText(gs[k])
    ensures Regroup(GroupNibbles(gs, lens).value, lens) == gs
    decreases |gs|
  {
    if gs != [] {
      var a := HexNibbles(gs[0]).value;
      var b := GroupNibbles(gs[1..], lens[1..]).value;
      RegroupOfGroupNibbles(gs[1..], lens[1..]);
      HexTextOfNibbles(gs[0]);
      assert (a + b)[..lens[0]] == a;
      assert (a + b)[lens[0]..] == b;
    }
  }

  /** The identifier as UUID.toString writes it: lower-case hex, 8-4-4-4-12. */
  function FormatUuid(u: Uuid): (r: string)
  {
    FieldCodec.Join(Regroup(u, GroupLengths), '-')
  }

  /**
   * Parses the canonical text of an identifier: five hyphen-separated groups
   * of 8, 4, 4, 4 and 12 hexadecimal digits, either case.
   */
  function ParseUuid(s: string): (r: Option<Uuid>)
    ensures var gs := FieldCodec.Split(s, '-');
      r.Some? <==> |gs| == 5 && forall k :: 0 <= k < 5 ==>
        |gs[k]| == GroupLengths[k] && forall c :: c in gs[k] ==> HexValue(c).Some?
  {
    var gs := FieldCodec.Split(s, '-');
    if |gs| != |GroupLengths| then None
    else match GroupNibbles(gs, GroupLengths)
      case Some(ns) => Some(ns)
      case None => None
  }

  /** Every identifier is recovered from the text it is written as. */
  lemma ParseFormatUuid(u: Uuid)
    ensures ParseUuid(FormatUuid(u)) == Some(u)
  {
    var gs := Regroup(u, GroupLengths);
    forall k | 0 <= k < |gs| ensures '-' !in gs[k] {
      assert !LowerHexChar('-');
    }
    FieldCodec.SplitJoin(gs, '-');
    GroupNibblesOfRegroup(u, GroupLengths);
  }

  /** No upper-case hexadecimal digit: the form in which FormatUuid writes. */
  predicate LowerCaseText(s: string)
  {
    forall c :: c in s ==> !('A' <= c <= 'F')
  }

  /** A lower-case canonical identifier text is written back unchanged. */
  lemma FormatParseUuid(s: string)
    requires ParseUuid(s).Some? && LowerCaseText(s)
    ensures FormatUuid(ParseUuid(s).value) == s
  {
    var gs := FieldCodec.Split(s, '-');
    FieldCodec.SplitChars(s, '-');
    RegroupOfGroupNibbles(gs, GroupLengths);
    FieldCodec.JoinSplit(s, '-');
  }

  /** Distinct lower-case identifier texts never denote the same identifier. */
  lemma UuidTextsDoNotCollide(s1: string, s2: string)
    requires ParseUuid(s1).Some? && LowerCaseText(s1)
    requires ParseUuid(s2).Some? && LowerCaseText(s2)
    requires s1 != s2
    ensures ParseUuid(s1) != ParseUuid(s2)
  {
    FormatParseUuid(s1);
    FormatParseUuid(s2);
  }

  // ---------------------------------------------------------------- dates

  datatype CalendarDate = CalendarDate(year: int, month: int, day: int)

  /** Leap years of the proleptic Gregorian calendar. */
  predicate IsLeapYear(y: int)
  {
    y % 4 == 0 && (y % 100 != 0 || y % 400 == 0)
  }

  function DaysInMonth(y: int, m: int): (n: int)
    requires 1 <= m <= 12
    ensures 28 <= n <= 31
  {
    if m == 2 then (if IsLeapYear(y) then 29 else 28)
    else if m == 4 || m == 6 || m == 9 || m == 11 then 30
    else 31
  }

  /** A date the four-digit `yyyy-MM-dd` pattern can denote (year-of-era 1 to 9999). */
  predicate ValidDate(d: CalendarDate)
  {
    1 <= d.year <= 9999 && 1 <= d.month <= 12 && 1 <= d.day <= DaysInMonth(d.year, d.month)
  }

  type Date = d: CalendarDate | ValidDate(d) witness CalendarDate(1970, 1, 1)

  /** Year, month and day written as `yyyy-MM-dd`, each zero-padded. */
  function DateText(y: nat, m: nat, d: nat): (r: string)
  {
    Decimal(y, 4) + "-" + Decimal(m, 2) + "-" + Decimal(d, 2)
  }

  /** The date as LocalDate.toString writes it for these years: `yyyy-MM-dd`. */
  function FormatDate(d: Date): (r: string)
  {
    DateText(d.year, d.month, d.day)
  }

  /**
   * Parses `yyyy-MM-dd` as LocalDate.parse does with the default (smart)
   * resolver: four, two and two digits, year at least 1, month 1 to 12,
   * day 1 to 31, and a day beyond the month's end is moved back to it.
   */
  function ParseDate(s: string): (r: Option<Date>)
    ensures r.Some? ==> |s| == 10 && s[4] == '-' && s[7] == '-'
  {
    if |s| != 10 || s[4] != '-' || s[7] != '-' then None
    else match (DecimalValue(s[..4]), DecimalValue(s[5..7]), DecimalValue(s[8..]))
      case (Some(y), Some(m), Some(d)) =>
        if 1 <= y && 1 <= m <= 12 && 1 <= d <= 31 then
          var last := DaysInMonth(y, m);
          Some(CalendarDate(y, m, if d <= last then d else last))
        else None
      case _ => None
  }

  /** Every date is recovered from the text it is written as. */
  lemma ParseFormatDate(d: Date)
    ensures ParseDate(FormatDate(d)) == Some(d)
  {
    DateFields(FormatDate(d), d.year, d.month, d.day);
  }

  /** A date text whose day exists in its month is written back unchanged. */
  lemma FormatParseDate(s: string)
    requires ParseDate(s).Some?
    requires DecimalValue(s[8..]) == Some(ParseDate(s).value.day)
    ensures FormatDate(ParseDate(s).value) == s
  {
    DecimalOfDecimalValue(s[..4]);
    DecimalOfDecimalValue(s[5..7]);
    DecimalOfDecimalValue(s[8..]);
    assert s == s[..4] + "-" + s[5..7] + "-" + s[8..];
  }

  /** The fields of a `yyyy-MM-dd` text are in the resolver's ranges: year-of-era at least 1, month 1 to 12, day 1 to 31. */
  predicate DateFieldsInRange(s: string)
  {
    && |s| == 10 && s[4] == '-' && s[7] == '-'
    && DecimalValue(s[..4]).Some? && DecimalValue(s[5..7]).Some? && DecimalValue(s[8..]).Some?
    && 1 <= DecimalValue(s[..4]).value
    && 1 <= DecimalValue(s[5..7]).value <= 12
    && 1 <= DecimalValue(s[8..]).value <= 31
  }

  /**
   * A text parses exactly when it has the layout and its fields are in
   * range: month 00 or 13, day 00 or 32 and year 0000 are all rejected,
   * whatever the rest of the text.
   */
  lemma ParseDateAccepts(s: string)
    ensures ParseDate(s).Some? <==> DateFieldsInRange(s)
  {
  }

  /**
   * The smart resolver keeps the year and month and moves a day past the
   * month's end back to its last day (2023-02-30 is 28 February, 2024-02-31
   * is 29 February); a day that exists is kept.
   */
  lemma ParseDateClamps(s: string)
    requires DateFieldsInRange(s)
    ensures var y, m, d := DecimalValue(s[..4]).value, DecimalValue(s[5..7]).value, DecimalValue(s[8..]).value;
      && ParseDate(s).Some?
      && ParseDate(s).value.year == y && ParseDate(s).value.month == m
      && ParseDate(s).value.day == (if d <= DaysInMonth(y, m) then d else DaysInMonth(y, m))
  {
  }

  lemma DateFields(s: string, y: nat, m: nat, d: nat)
    requires y < 10000 && m < 100 && d < 100
    requires s == DateText(y, m, d)
    ensures |s| == 10 && s[4] == '-' && s[7] == '-'
    ensures DecimalValue(s[..4]) == Some(y) && DecimalValue(s[5..7]) == Some(m) && DecimalValue(s[8..]) == Some(d)
  {
    DateTextParts(y, m, d);
    DecimalValueOfDecimal(y, 4);
    DecimalValueOfDecimal(m, 2);
    DecimalValueOfDecimal(d, 2);
  }

  lemma DateTextParts(y: nat, m: nat, d: nat)
    ensures var s := DateText(y, m, d);
      && |s| == 10 && s[4] == '-' && s[7] == '-'
      && s[..4] == Decimal(y, 4) && s[5..7] == Decimal(m, 2) && s[8..] == Decimal(d, 2)
  {
    var a, b, c := Decimal(y, 4), Decimal(m, 2), Decimal(d, 2);
    var s := a + "-" + b + "-" + c;
    assert s[..4] == a;
    assert s[5..7] == b;
    assert s[8..] == c;
  }
}
