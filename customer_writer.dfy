/**
 * `CustomerItemWriter`: the header text and `doWrite`, which turns a list of
 * customers into one `;`-separated line per customer, each followed by a
 * line break.  The header callback's output and the file itself belong to
 * the library writer and are not part of this model.
 */
module CustomerWriter {
  import opened Wrappers
  import opened Formats
  import opened Genders
  import opened Domain
  import opened FieldCodec

  const Delimiter: char := ';'
  const LineBreak: char := '\n'

  /** The header names in the order the callback appends them; there is no country column. */
  const HeaderNames: seq<string> := ["Id", "first_name", "last_name", "birthday", "gender", "address"]

  /** The text the header callback builds: the six names with the delimiter between them. */
  function Header(): (h: string)
    ensures h == Join(HeaderNames, Delimiter)
  {
    var h := HeaderNames;
    JoinSnoc(h[..6], Delimiter);
    JoinSnoc(h[..5], Delimiter);
    JoinSnoc(h[..4], Delimiter);
    JoinSnoc(h[..3], Delimiter);
    JoinSnoc(h[..2], Delimiter);
    assert h[..6] == h;
    assert h[..6][..5] == h[..5] && h[..5][..4] == h[..4] && h[..4][..3] == h[..3];
    assert h[..3][..2] == h[..2] && h[..2][..1] == [h[0]];
    HeaderNames[0] + [Delimiter] + HeaderNames[1] + [Delimiter] + HeaderNames[2] + [Delimiter]
      + HeaderNames[3] + [Delimiter] + HeaderNames[4] + [Delimiter] + HeaderNames[5]
  }

  /** The header is `Id;first_name;last_name;birthday;gender;address`. */
  lemma HeaderText()
    ensures Header() == "Id;first_name;last_name;birthday;gender;address"
  {
    var h := HeaderNames;
    assert h[0] + [Delimiter] + h[1] == "Id;first_name";
    assert "Id;first_name" + [Delimiter] + h[2] == "Id;first_name;last_name";
    assert "Id;first_name;last_name" + [Delimiter] + h[3] == "Id;first_name;last_name;birthday";
    assert "Id;first_name;last_name;birthday" + [Delimiter] + h[4] == "Id;first_name;last_name;birthday;gender";
    assert "Id;first_name;last_name;birthday;gender" + [Delimiter] + h[5] == "Id;first_name;last_name;birthday;gender;address";
  }

  /** Split on the delimiter, the header gives back its six names, none of them a country column. */
  lemma HeaderColumns()
    ensures Split(Header(), Delimiter) == HeaderNames && |HeaderNames| == 6
    ensures "country" !in HeaderNames
  {
    var h := HeaderNames;
    forall k | 0 <= k < |h| ensures Delimiter !in h[k] {
      assert forall i :: 0 <= i < |h[k]| ==> h[k][i] != Delimiter;
    }
    SplitJoin(h, Delimiter);
  }

  /**
   * The seven texts of a customer's line, in order: identifier, first name,
   * last name, birthday, gender code, street, country.  A customer whose
   * gender is absent makes the Java code dereference `null`.
   */
  function Fields(c: Customer): (r: Result<seq<string>, Error>)
    ensures r.Failure? <==> c.gender.None?
    ensures r.Failure? ==> r.error == NullGender
    ensures r.Success? ==> |r.value| == 7
  {
    match c.gender
    case None => Failure(NullGender)
    case Some(g) =>
      Success([FormatUuid(c.id), c.firstName, c.lastName, FormatDate(c.birthday), Value(g), c.address.street, c.address.country])
  }

  /** The line written for one customer. */
  function Line(c: Customer): (r: Result<string, Error>)
    ensures r.Success? <==> c.gender.Some?
    ensures r.Failure? ==> r.error == NullGender
  {
    match Fields(c)
    case Failure(e) => Failure(e)
    case Success(fs) => Success(Join(fs, Delimiter))
  }

  /**
   * What `doWrite` returns for `items`: the lines of the items in order,
   * each followed by a line break, or the null dereference if any item has no
   * gender.
   */
  function Output(items: seq<Customer>): (r: Result<string, Error>)
    ensures r.Failure? <==> exists k :: 0 <= k < |items| && items[k].gender.None?
    ensures r.Failure? ==> r.error == NullGender
  {
    if items == [] then Success("")
    else
      assert forall k :: 1 <= k < |items| ==> items[k] == items[1..][k - 1];
      match (Line(items[0]), Output(items[1..]))
      case (Success(line), Success(rest)) => Success(line + [LineBreak] + rest)
      case (Failure(e), _) => Failure(e)
      case (_, Failure(e)) => Failure(e)
  }

  /** Sequencing of two outputs: both texts in order, or the first failure. */
  function Then(x: Result<string, Error>, y: Result<string, Error>): Result<string, Error>
  {
    match (x, y)
    case (Success(a), Success(b)) => Success(a + b)
    case (Failure(e), _) => Failure(e)
    case (_, Failure(e)) => Failure(e)
  }

  /** An empty list writes nothing. */
  lemma OutputEmpty()
    ensures Output([]) == Success("")
  {
  }

  /** The output of a concatenation is the concatenation of the outputs. */
  lemma {:induction false} OutputAppend(a: seq<Customer>, b: seq<Customer>)
    ensures Output(a + b) == Then(Output(a), Output(b))
    decreases |a|
  {
    if a == [] {
      assert a + b == b;
      if Output(b).Success? {
        assert "" + Output(b).value == Output(b).value;
      }
    } else {
      assert (a + b)[0] == a[0] && (a + b)[1..] == a[1..] + b;
      OutputAppend(a[1..], b);
      if Line(a[0]).Success? && Output(a[1..]).Success? && Output(b).Success? {
        var l, x, y := Line(a[0]).value, Output(a[1..]).value, Output(b).value;
        assert l + [LineBreak] + (x + y) == (l + [LineBreak] + x) + y;
      }
    }
  }

  /** `doWrite`: a loop appending each customer's line and a line break to a buffer. */
  method DoWrite(items: seq<Customer>) returns (r: Result<string, Error>)
    ensures r == Output(items)
  {
    var linesToWrite := "";
    var i := 0;
    while i < |items|
      invariant 0 <= i <= |items|
      invariant Output(items[..i]) == Success(linesToWrite)
    {
      var customer := items[i];
      match customer.gender {
        case None =>
          assert items[i].gender.None?;
          return Failure(NullGender);
        case Some(gender) =>
          var line := FormatUuid(customer.id) + [Delimiter] + customer.firstName + [Delimiter]
            + customer.lastName + [Delimiter] + FormatDate(customer.birthday) + [Delimiter]
            + Value(gender) + [Delimiter] + customer.address.street + [Delimiter]
            + customer.address.country;
          LineLayout(customer);
          AppendLine(items, i, linesToWrite);
          linesToWrite := linesToWrite + line + [LineBreak];
      }
      i := i + 1;
    }
    assert items[..i] == items;
    return Success(linesToWrite);
  }

  /** One more item with a gender adds its line and a line break to the output so far. */
  lemma AppendLine(items: seq<Customer>, i: nat, acc: string)
    requires i < |items| && items[i].gender.Some?
    requires Output(items[..i]) == Success(acc)
    ensures Output(items[..i + 1]) == Success(acc + Line(items[i]).value + [LineBreak])
  {
    var c := items[i];
    OutputAppend(items[..i], [c]);
    assert items[..i + 1] == items[..i] + [c];
    assert Output([c]) == Success(Line(c).value + [LineBreak]) by {
      assert [c][1..] == [];
      assert Line(c).value + [LineBreak] + "" == Line(c).value + [LineBreak];
    }
    assert acc + (Line(c).value + [LineBreak]) == acc + Line(c).value + [LineBreak];
  }

  /** A line is its seven fields with a `;` between each two, in the fixed order. */
  lemma LineLayout(c: Customer)
    requires c.gender.Some?
    ensures Line(c) == Success(FormatUuid(c.id) + [Delimiter] + c.firstName + [Delimiter]
      + c.lastName + [Delimiter] + FormatDate(c.birthday) + [Delimiter]
      + Value(c.gender.value) + [Delimiter] + c.address.street + [Delimiter]
      + c.address.country)
  {
    var fs := Fields(c).value;
    JoinSnoc(fs[..7], Delimiter);
    JoinSnoc(fs[..6], Delimiter);
    JoinSnoc(fs[..5], Delimiter);
    JoinSnoc(fs[..4], Delimiter);
    JoinSnoc(fs[..3], Delimiter);
    JoinSnoc(fs[..2], Delimiter);
    assert fs[..7] == fs;
    assert fs[..7][..6] == fs[..6] && fs[..6][..5] == fs[..5] && fs[..5][..4] == fs[..4];
    assert fs[..4][..3] == fs[..3] && fs[..3][..2] == fs[..2] && fs[..2][..1] == [fs[0]];
  }

  // ---------------------------------------------------------------- reading the output back

  /** The free texts of a customer hold neither the delimiter nor a line break. */
  predicate PlainTexts(c: Customer)
  {
    && Delimiter !in c.firstName && Delimiter !in c.lastName
    && Delimiter !in c.address.street && Delimiter !in c.address.country
    && LineBreak !in c.firstName && LineBreak !in c.lastName
    && LineBreak !in c.address.street && LineBreak !in c.address.country
  }

  /**
   * The formatted identifier, birthday and gender code never hold the
   * delimiter, a line break, or any other character at or below the space.
   */
  lemma FormattedFieldsArePlain(c: Customer, x: char)
    requires x == Delimiter || x == LineBreak || x <= ' '
    ensures x !in FormatUuid(c.id) && x !in FormatDate(c.birthday)
    ensures c.gender.Some? ==> x !in Value(c.gender.value)
  {
    var gs := Regroup(c.id, GroupLengths);
    assert !LowerHexChar(x);
    JoinAvoids(gs, '-', x);
    var y, m, d := Decimal(c.birthday.year, 4), Decimal(c.birthday.month, 2), Decimal(c.birthday.day, 2);
    assert x !in y && x !in m && x !in d;
    assert FormatDate(c.birthday) == y + "-" + m + "-" + d;
    if c.gender.Some? {
      assert Value(c.gender.value) == "male" || Value(c.gender.value) == "female";
    }
  }

  /**
   * A line of a customer with plain texts holds no line break and exactly
   * six delimiters, and splitting it on the delimiter gives back the seven
   * field texts in order.
   */
  lemma LineSplitsIntoFields(c: Customer)
    requires c.gender.Some? && PlainTexts(c)
    ensures LineBreak !in Line(c).value
    ensures Count(Line(c).value, Delimiter) == 6
    ensures Split(Line(c).value, Delimiter) == Fields(c).value
  {
    var fs := Fields(c).value;
    FormattedFieldsArePlain(c, Delimiter);
    FormattedFieldsArePlain(c, LineBreak);
    assert DelimiterFree(fs, Delimiter);
    JoinAvoids(fs, Delimiter, LineBreak);
    JoinCount(fs, Delimiter);
    SplitJoin(fs, Delimiter);
  }

  /** The lines of customers that all have a gender, in order. */
  function LineTexts(items: seq<Customer>): (ls: seq<string>)
    requires forall k :: 0 <= k < |items| ==> items[k].gender.Some?
    ensures |ls| == |items|
  {
    seq(|items|, k requires 0 <= k < |items| => Line(items[k]).value)
  }

  /** A successful output is the lines joined by line breaks, with a final line break. */
  lemma {:induction false} OutputIsJoinedLines(items: seq<Customer>)
    requires Output(items).Success?
    ensures Output(items).value == Join(LineTexts(items) + [""], LineBreak)
    decreases |items|
  {
    if items != [] {
      var rest := items[1..];
      assert forall k :: 0 <= k < |rest| ==> rest[k] == items[k + 1];
      OutputIsJoinedLines(rest);
      assert LineTexts(items) + [""] == [Line(items[0]).value] + (LineTexts(rest) + [""]);
    }
  }

  /**
   * When no free text holds the delimiter or a line break, splitting the
   * output on line breaks gives one line per item (and the empty rest after
   * the last line break), and splitting line k on the delimiter gives back
   * item k's seven field texts in order.
   */
  lemma OutputSplitsIntoItems(items: seq<Customer>)
    requires forall k :: 0 <= k < |items| ==> items[k].gender.Some? && PlainTexts(items[k])
    ensures Output(items).Success?
    ensures Split(Output(items).value, LineBreak) == LineTexts(items) + [""]
    ensures forall k :: 0 <= k < |items| ==> Split(LineTexts(items)[k], Delimiter) == Fields(items[k]).value
  {
    var ts := LineTexts(items);
    var ls := ts + [""];
    forall k | 0 <= k < |items| ensures LineBreak !in ts[k] && Split(ts[k], Delimiter) == Fields(items[k]).value {
      assert ts[k] == Line(items[k]).value;
      LineSplitsIntoFields(items[k]);
    }
    assert forall k :: 0 <= k < |ls| ==> LineBreak !in ls[k] by {
      forall k | 0 <= k < |ls| ensures LineBreak !in ls[k] {
        if k < |ts| { assert ls[k] == ts[k]; } else { assert ls[k] == ""; }
      }
    }
    OutputIsJoinedLines(items);
    SplitJoin(ls, LineBreak);
  }
}
