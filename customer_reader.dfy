/**
 * The input side of the job: the tokenizer configuration (names, delimiter,
 * lines to skip) and the mapping of a tokenized line onto `CustomerInput`.
 * The tokenizer itself is a library class; it is modelled here as a plain
 * split on the delimiter that must yield exactly one token per name, and
 * `readString` as a lookup by name followed by Java's `String.trim`.
 */
module CustomerReader {
  import opened Wrappers
  import opened Domain
  import FieldCodec

  const Delimiter: char := ';'

  /** The tokenizer's column names, in column order. */
  const FieldNames: seq<string> := ["Id", "first name", "last name", "gender", "birthday", "address", "country"]

  /** The title row at the top of the input file. */
  const LinesToSkip: nat := 1

  // ---------------------------------------------------------------- trimming

  /** No leading or trailing character at or below the space character. */
  predicate Trimmed(s: string)
  {
    s == [] || (s[0] > ' ' && s[|s| - 1] > ' ')
  }

  /** The index of the first character above the space at or after `i`, or `|s|` if there is none. */
  function SkipLeading(s: string, i: nat): (j: nat)
    requires i <= |s|
    ensures i <= j <= |s|
    ensures j < |s| ==> s[j] > ' '
    ensures forall k :: i <= k < j ==> s[k] <= ' '
    decreases |s| - i
  {
    if i < |s| && s[i] <= ' ' then SkipLeading(s, i + 1) else i
  }

  /** The end of the last character above the space before `j`, no further back than `lo`. */
  function SkipTrailing(s: string, lo: nat, j: nat): (e: nat)
    requires lo <= j <= |s|
    ensures lo <= e <= j
    ensures e > lo ==> s[e - 1] > ' '
    ensures forall k :: e <= k < j ==> s[k] <= ' '
  {
    if lo < j && s[j - 1] <= ' ' then SkipTrailing(s, lo, j - 1) else j
  }

  /**
   * Java's `String.trim`: the text between the first and the last character
   * above the space. Only characters at or below the space are dropped, and
   * the result has none at either end.
   */
  function Trim(s: string): (r: string)
    ensures Trimmed(r)
    ensures var i := SkipLeading(s, 0);
      && i + |r| <= |s| && r == s[i..i + |r|]
      && (forall k :: 0 <= k < i ==> s[k] <= ' ')
      && (forall k :: i + |r| <= k < |s| ==> s[k] <= ' ')
  {
    var i := SkipLeading(s, 0);
    s[i..SkipTrailing(s, i, |s|)]
  }

  /** Trimming leaves an already trimmed text unchanged. */
  lemma TrimOfTrimmed(s: string)
    requires Trimmed(s)
    ensures Trim(s) == s
  {
  }

  // ---------------------------------------------------------------- field sets

  /** Tokens by column name (`FieldSet`). */
  type FieldSet = map<string, string>

  /** Names paired with tokens; where a name repeats, the first occurrence wins. */
  function Zip(names: seq<string>, tokens: seq<string>): (fs: FieldSet)
    requires |names| == |tokens|
    ensures fs.Keys == set n | n in names
  {
    if names == [] then map[]
    else
      assert names == [names[0]] + names[1..];
      Zip(names[1..], tokens[1..])[names[0] := tokens[0]]
  }

  predicate Distinct(names: seq<string>)
  {
    forall i, j :: 0 <= i < j < |names| ==> names[i] != names[j]
  }

  /** With distinct names, each name reads back the token at its own position. */
  lemma {:induction false} ZipAt(names: seq<string>, tokens: seq<string>, k: nat)
    requires |names| == |tokens| && Distinct(names) && k < |names|
    ensures names[k] in Zip(names, tokens) && Zip(names, tokens)[names[k]] == tokens[k]
    decreases |names|
  {
    if k > 0 {
      assert names[1..][k - 1] == names[k];
      ZipAt(names[1..], tokens[1..], k - 1);
      assert names[0] != names[k];
    }
  }

  lemma FieldNamesDistinct()
    ensures Distinct(FieldNames)
  {
    forall i, j | 0 <= i < j < |FieldNames| ensures FieldNames[i] != FieldNames[j] {
      if |FieldNames[i]| == |FieldNames[j]| {
        assert FieldNames[i][0] != FieldNames[j][0];
      }
    }
  }

  /**
   * `DelimitedLineTokenizer.tokenize`, simplified: split on `;` and require
   * one token per name; token k is then filed under name k.
   */
  function Tokenize(line: string): (r: Result<FieldSet, Error>)
    ensures r.Success? <==> |FieldCodec.Split(line, Delimiter)| == |FieldNames|
    ensures r.Failure? ==> r.error == MalformedLine(line, |FieldCodec.Split(line, Delimiter)|)
    ensures r.Success? ==> HasAllNames(r.value)
    ensures r.Success? ==>
      forall k :: 0 <= k < |FieldNames| ==> r.value[FieldNames[k]] == FieldCodec.Split(line, Delimiter)[k]
  {
    var tokens := FieldCodec.Split(line, Delimiter);
    if |tokens| != |FieldNames| then Failure(MalformedLine(line, |tokens|))
    else
      FieldNamesDistinct();
      assert forall k :: 0 <= k < |FieldNames| ==>
        FieldNames[k] in Zip(FieldNames, tokens) && Zip(FieldNames, tokens)[FieldNames[k]] == tokens[k] by {
        forall k | 0 <= k < |FieldNames|
          ensures FieldNames[k] in Zip(FieldNames, tokens) && Zip(FieldNames, tokens)[FieldNames[k]] == tokens[k]
        {
          ZipAt(FieldNames, tokens, k);
        }
      }
      Success(Zip(FieldNames, tokens))
  }

  /** `FieldSet.readString(name)`: the named token, trimmed; a token already trimmed is read as it is. */
  function ReadString(fs: FieldSet, name: string): (r: string)
    requires name in fs
    ensures r == Trim(fs[name])
    ensures Trimmed(r)
    ensures Trimmed(fs[name]) ==> r == fs[name]
  {
    if Trimmed(fs[name]) then TrimOfTrimmed(fs[name]); Trim(fs[name])
    else Trim(fs[name])
  }

  predicate HasAllNames(fs: FieldSet)
  {
    forall k :: 0 <= k < |FieldNames| ==> FieldNames[k] in fs
  }

  /**
   * `mapFieldSet`: each `CustomerInput` field from the token of the same
   * name, trimmed and otherwise unconverted.
   */
  function MapFieldSet(fs: FieldSet): (r: CustomerInput)
    requires HasAllNames(fs)
    ensures Trimmed(r.id) && Trimmed(r.firstName) && Trimmed(r.lastName) && Trimmed(r.gender)
      && Trimmed(r.birthday) && Trimmed(r.address) && Trimmed(r.country)
    ensures r.id == Trim(fs[FieldNames[0]]) && r.firstName == Trim(fs[FieldNames[1]])
      && r.lastName == Trim(fs[FieldNames[2]]) && r.gender == Trim(fs[FieldNames[3]])
      && r.birthday == Trim(fs[FieldNames[4]]) && r.address == Trim(fs[FieldNames[5]])
      && r.country == Trim(fs[FieldNames[6]])
    ensures (forall k :: 0 <= k < |FieldNames| ==> Trimmed(fs[FieldNames[k]])) ==>
      r == CustomerInput(fs[FieldNames[0]], fs[FieldNames[1]], fs[FieldNames[2]], fs[FieldNames[3]],
                         fs[FieldNames[4]], fs[FieldNames[5]], fs[FieldNames[6]])
  {
    CustomerInput(
      id := ReadString(fs, FieldNames[0]),
      firstName := ReadString(fs, FieldNames[1]),
      lastName := ReadString(fs, FieldNames[2]),
      gender := ReadString(fs, FieldNames[3]),
      birthday := ReadString(fs, FieldNames[4]),
      address := ReadString(fs, FieldNames[5]),
      country := ReadString(fs, FieldNames[6]))
  }

  /** One line to one record; a line with other than seven `;`-separated tokens is malformed. */
  function DecodeLine(line: string): (r: Result<CustomerInput, Error>)
    ensures r.Success? <==> |FieldCodec.Split(line, Delimiter)| == |FieldNames|
    ensures r.Failure? ==> r.error == MalformedLine(line, |FieldCodec.Split(line, Delimiter)|)
  {
    match Tokenize(line)
    case Failure(e) => Failure(e)
    case Success(fs) => Success(MapFieldSet(fs))
  }

  /**
   * Column k of a well-formed line lands, trimmed, in the k-th field of
   * `CustomerInput` (Id, first name, last name, gender, birthday, address,
   * country); each field depends on its own column only.
   */
  lemma DecodeLineColumns(line: string)
    requires DecodeLine(line).Success?
    ensures var t := FieldCodec.Split(line, Delimiter);
      DecodeLine(line).value == CustomerInput(Trim(t[0]), Trim(t[1]), Trim(t[2]), Trim(t[3]), Trim(t[4]), Trim(t[5]), Trim(t[6]))
  {
    var fs := Tokenize(line).value;
    var t := FieldCodec.Split(line, Delimiter);
    assert fs[FieldNames[0]] == t[0] && fs[FieldNames[1]] == t[1] && fs[FieldNames[2]] == t[2];
    assert fs[FieldNames[3]] == t[3] && fs[FieldNames[4]] == t[4];
    assert fs[FieldNames[5]] == t[5] && fs[FieldNames[6]] == t[6];
  }

  /** All the values if every result is a success, otherwise the first failure. */
  function Collect<T>(rs: seq<Result<T, Error>>): (r: Result<seq<T>, Error>)
    ensures r.Success? <==> forall k :: 0 <= k < |rs| ==> rs[k].Success?
    ensures r.Success? ==> |r.value| == |rs| && forall k :: 0 <= k < |rs| ==> rs[k] == Success(r.value[k])
    ensures r.Failure? ==> exists k :: 0 <= k < |rs| && rs[k] == Failure(r.error) && forall j :: 0 <= j < k ==> rs[j].Success?
  {
    if rs == [] then Success([])
    else if rs[0].Failure? then Failure(rs[0].error)
    else
      var tail := Collect(rs[1..]);
      if tail.Failure? then
        var k :| 0 <= k < |rs| - 1 && rs[1..][k] == Failure(tail.error) && forall j :: 0 <= j < k ==> rs[1..][j].Success?;
        assert rs[k + 1] == Failure(tail.error) && forall j :: 0 <= j < k + 1 ==> rs[j].Success?;
        Failure(tail.error)
      else Success([rs[0].value] + tail.value)
  }

  /** Decodes every line in order; the first malformed line aborts the read. */
  function DecodeAll(lines: seq<string>): (r: Result<seq<CustomerInput>, Error>)
    ensures r.Success? <==> forall k :: 0 <= k < |lines| ==> DecodeLine(lines[k]).Success?
    ensures r.Success? ==> |r.value| == |lines| && forall k :: 0 <= k < |lines| ==> DecodeLine(lines[k]) == Success(r.value[k])
    ensures r.Failure? ==> exists k :: 0 <= k < |lines| && DecodeLine(lines[k]) == Failure(r.error) && forall j :: 0 <= j < k ==> DecodeLine(lines[j]).Success?
  {
    var rs := seq(|lines|, k requires 0 <= k < |lines| => DecodeLine(lines[k]));
    assert forall k :: 0 <= k < |lines| ==> rs[k] == DecodeLine(lines[k]);
    Collect(rs)
  }

  /** The records of a whole input file: the title row is skipped, the rest decoded in order. */
  function ReadAll(lines: seq<string>): (r: Result<seq<CustomerInput>, Error>)
    ensures r.Success? <==> forall k :: LinesToSkip <= k < |lines| ==> DecodeLine(lines[k]).Success?
    ensures r.Success? ==> |r.value| == (if |lines| <= LinesToSkip then 0 else |lines| - LinesToSkip)
    ensures r.Success? ==> forall k :: 0 <= k < |r.value| ==> DecodeLine(lines[k + LinesToSkip]) == Success(r.value[k])
  {
    if |lines| <= LinesToSkip then Success([]) else DecodeAll(lines[LinesToSkip..])
  }

  /**
   * The first line is never decoded, whatever it holds, and record k comes
   * from line k + 1.
   */
  lemma ReadAllSkipsTitle(title: string, body: seq<string>)
    ensures ReadAll([title] + body) == DecodeAll(body)
    ensures ReadAll([title] + body).Success? ==>
      |ReadAll([title] + body).value| == |body| &&
      forall k :: 0 <= k < |body| ==> DecodeLine(body[k]) == Success(ReadAll([title] + body).value[k])
  {
    assert ([title] + body)[1..] == body;
  }
}
