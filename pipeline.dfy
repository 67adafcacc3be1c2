/**
 * How the pieces meet: the writer's output does not depend on how the step
 * cuts the items into chunks, a written line read back by the reader lands
 * in shifted columns, and what the enrichment does to the customers the
 * processor accepts.
 */
module Pipeline {
  import opened Wrappers
  import opened Formats
  import opened Genders
  import opened Domain
  import opened FieldCodec
  import opened CustomerWriter
  import CustomerReader
  import CustomerProcessor
  import Enrichment

  // ---------------------------------------------------------------- chunks

  /** The items cut into consecutive chunks of `size`; only the last one may be shorter. */
  function Chunks(items: seq<Customer>, size: nat): (cs: seq<seq<Customer>>)
    requires size > 0
    ensures forall k :: 0 <= k < |cs| ==> 0 < |cs[k]| <= size
    ensures forall k :: 0 <= k < |cs| - 1 ==> |cs[k]| == size
    decreases |items|
  {
    if items == [] then []
    else if |items| <= size then [items]
    else [items[..size]] + Chunks(items[size..], size)
  }

  function Flatten(cs: seq<seq<Customer>>): seq<Customer>
  {
    if cs == [] then [] else cs[0] + Flatten(cs[1..])
  }

  /** The chunks hold exactly the items, in order. */
  lemma {:induction false} FlattenChunks(items: seq<Customer>, size: nat)
    requires size > 0
    ensures Flatten(Chunks(items, size)) == items
    decreases |items|
  {
    if items == [] {
    } else if |items| <= size {
      assert Flatten([items]) == items + Flatten([]);
    } else {
      var cs := Chunks(items, size);
      assert cs[1..] == Chunks(items[size..], size);
      FlattenChunks(items[size..], size);
      assert items[..size] + items[size..] == items;
    }
  }

  /** The texts `doWrite` returns for successive chunks, one after the other; a failing chunk fails the step. */
  function WriteChunks(cs: seq<seq<Customer>>): (r: Result<string, Error>)
    ensures r.Failure? <==> exists k :: 0 <= k < |cs| && Output(cs[k]).Failure?
    ensures r.Failure? ==> r.error == NullGender
  {
    if cs == [] then Success("")
    else
      assert forall k :: 1 <= k < |cs| ==> cs[k] == cs[1..][k - 1];
      Then(Output(cs[0]), WriteChunks(cs[1..]))
  }

  /**
   * However the items are cut (chunks of any size, short ones in the middle,
   * empty ones), writing chunk by chunk gives the text of writing all the
   * items at once.
   */
  lemma {:induction false} WriteChunksFlatten(cs: seq<seq<Customer>>)
    ensures WriteChunks(cs) == Output(Flatten(cs))
    decreases |cs|
  {
    if cs != [] {
      WriteChunksFlatten(cs[1..]);
      OutputAppend(cs[0], Flatten(cs[1..]));
    }
  }

  /** In particular, for fixed-size cuts of any size. */
  lemma ChunkedOutput(items: seq<Customer>, size: nat)
    requires size > 0
    ensures WriteChunks(Chunks(items, size)) == Output(items)
  {
    WriteChunksFlatten(Chunks(items, size));
    FlattenChunks(items, size);
  }

  // ---------------------------------------------------------------- reading a written line back

  /** The free texts of a customer have no leading or trailing blanks. */
  predicate TrimmedTexts(c: Customer)
  {
    && CustomerReader.Trimmed(c.firstName) && CustomerReader.Trimmed(c.lastName)
    && CustomerReader.Trimmed(c.address.street) && CustomerReader.Trimmed(c.address.country)
  }

  /** A formatted text of a customer starts and ends with a printable character. */
  lemma FormattedTextTrimmed(s: string, c: Customer)
    requires c.gender.Some?
    requires s == FormatUuid(c.id) || s == FormatDate(c.birthday) || s == Value(c.gender.value)
    ensures CustomerReader.Trimmed(s)
  {
    if s != [] {
      if s[0] <= ' ' {
        FormattedFieldsArePlain(c, s[0]);
      }
      if s[|s| - 1] <= ' ' {
        FormattedFieldsArePlain(c, s[|s| - 1]);
      }
    }
  }

  /** A line splitting into seven trimmed tokens is read as those tokens, in column order. */
  lemma DecodeTrimmedTokens(line: string, ts: seq<string>)
    requires FieldCodec.Split(line, Delimiter) == ts && |ts| == 7
    requires forall k :: 0 <= k < 7 ==> CustomerReader.Trimmed(ts[k])
    ensures CustomerReader.DecodeLine(line) == Success(CustomerInput(ts[0], ts[1], ts[2], ts[3], ts[4], ts[5], ts[6]))
  {
    CustomerReader.DecodeLineColumns(line);
    CustomerReader.TrimOfTrimmed(ts[0]);
    CustomerReader.TrimOfTrimmed(ts[1]);
    CustomerReader.TrimOfTrimmed(ts[2]);
    CustomerReader.TrimOfTrimmed(ts[3]);
    CustomerReader.TrimOfTrimmed(ts[4]);
    CustomerReader.TrimOfTrimmed(ts[5]);
    CustomerReader.TrimOfTrimmed(ts[6]);
  }

  /**
   * The reader, given a line the writer produced, accepts it, but since the
   * writer puts the birthday before the gender code and the reader expects
   * the gender first, the record's gender holds the birthday text and its
   * birthday holds the gender code.
   */
  lemma WrittenLineReadBack(c: Customer)
    requires c.gender.Some? && PlainTexts(c) && TrimmedTexts(c)
    ensures CustomerReader.DecodeLine(Line(c).value) == Success(CustomerInput(
      FormatUuid(c.id), c.firstName, c.lastName, FormatDate(c.birthday),
      Value(c.gender.value), c.address.street, c.address.country))
  {
    var fs := Fields(c).value;
    FormattedTextTrimmed(fs[0], c);
    FormattedTextTrimmed(fs[3], c);
    FormattedTextTrimmed(fs[4], c);
    assert forall k :: 0 <= k < 7 ==> CustomerReader.Trimmed(fs[k]);
    LineSplitsIntoFields(c);
    DecodeTrimmedTokens(Line(c).value, fs);
  }

  /** So a written line fed back to the processor fails on its birthday column, which holds the gender code. */
  lemma WrittenLineDoesNotReprocess(c: Customer)
    requires c.gender.Some? && PlainTexts(c) && TrimmedTexts(c)
    ensures CustomerReader.DecodeLine(Line(c).value).Success?
    ensures CustomerProcessor.Process(CustomerReader.DecodeLine(Line(c).value).value)
      == Failure(InvalidDate(Value(c.gender.value)))
  {
    WrittenLineReadBack(c);
    ParseFormatUuid(c.id);
    assert |Value(c.gender.value)| != 10;
  }

  // ---------------------------------------------------------------- processing, enrichment, writing

  /**
   * An accepted record with a recognised gender, a lower-case identifier and
   * a birthday whose day exists in its month is written as its own seven
   * texts, in the input's column order except that birthday and gender swap.
   */
  lemma AcceptedLineFields(input: CustomerInput)
    requires CustomerProcessor.Process(input).Success? && CustomerProcessor.Process(input).value.Some?
    requires input.gender == "male" || input.gender == "female"
    requires LowerCaseText(input.id)
    requires DecimalValue(input.birthday[8..]) == Some(ParseDate(input.birthday).value.day)
    ensures var c := CustomerProcessor.Process(input).value.value;
      Fields(c) == Success([input.id, input.firstName, input.lastName, input.birthday,
                            input.gender, input.address, input.country])
  {
    var c := CustomerProcessor.Process(input).value.value;
    CustomerProcessor.AcceptedKeepsTexts(input);
    LookupRecognisesExactly(input.gender);
  }

  /**
   * Enrichment of a customer the processor accepted always sets `foreign`
   * to true, the accepted customers being exactly those of the United States.
   */
  lemma EnrichedAcceptedAreMarked(input: CustomerInput)
    requires CustomerProcessor.Process(input).Success? && CustomerProcessor.Process(input).value.Some?
    ensures var c := CustomerProcessor.Process(input).value.value;
      Enrichment.Enriched(c) == c.(foreign := true)
  {
    CustomerProcessor.AcceptedAreUnitedStates(input);
  }
}
