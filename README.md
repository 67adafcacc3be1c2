# Customer import batch: a Dafny model

This project models the record pipeline of a Spring Batch customer import job.
The reader decodes each `;`-separated line of an input file into a
`CustomerInput` of seven texts, skipping the title row. `CustomerItemProcessor`
turns a record into a `Customer`. It parses the identifier as a UUID, looks
the gender code up in the `Gender` enum and parses the birthday as a
`yyyy-MM-dd` date. It keeps the record only when its country is
`United States`; otherwise the result is filtered out (Java `null`).
`CustomerItemWriter.doWrite` serialises the kept customers, one
`;`-separated line per customer, each followed by `\n`. The header callback
writes `Id;first_name;last_name;birthday;gender;address`.
`CustomerEnrichmentItemProcessor` sets a customer's `foreign` flag in place.
It is not wired into the step.

Modules:

- `Wrappers`: `Option` and `Result`.
- `FieldCodec`: splitting a text on a delimiter and joining texts with one, with their round trips.
- `Formats`: the canonical UUID text (8-4-4-4-12 hex digits) and the `yyyy-MM-dd` date text, each with a parser and a formatter.
- `Genders`: the enum, `getValue`, and `entryOf` as a loop proved against a first-match search.
- `Domain`: the record, customer, address and error types.
- `CustomerReader`: the tokenizer settings, `readString` with Java's `trim`, `mapFieldSet`, and skipping the title row.
- `CustomerProcessor`: `CustomerItemProcessor.process` as a function to `Result<Option<Customer>, Error>`.
- `CustomerWriter`: the header, and `doWrite` as a loop proved against a recursive `Output` function.
- `Enrichment`: a `CustomerBean` class and the in-place `process`.
- `Pipeline`: how the pieces fit together.
  - `doWrite`'s output does not depend on how the items are cut into chunks: any cut, including the short or empty chunks left once the processor's `null` results are dropped.
  - A written line read back by the reader has its birthday and gender columns swapped.
  - Enrichment always marks the customers the processor accepts.

Failures that the Java code raises as exceptions are `Failure` values of `Domain.Error`:

- `InvalidIdentifier` comes from `UUID.fromString`.
- `InvalidDate` comes from `LocalDate.parse`.
- `NullGender` is the `NullPointerException` thrown when `doWrite` meets a customer whose gender is `null`.
- `MalformedLine` comes from the tokenizer when a line does not have seven tokens.

The header names six columns (it has no country column), while every data row carries seven fields. `CustomerWriter.HeaderColumns` states this.

## Model

| member | source | states |
|---|---|---|
| Genders.Value | src/main/java/br/com/examples/springbatchbasics/enums/Gender.java:7-18 | `getValue`: each constant's code, `male` or `female`, never empty |
| Genders.FirstWithValue | src/main/java/br/com/examples/springbatchbasics/enums/Gender.java:21-26 | a search over constants in order; the result is a listed constant carrying the code, and there is no result exactly when no constant carries it |
| Genders.FirstWithValueIsFirst | src/main/java/br/com/examples/springbatchbasics/enums/Gender.java:21-24 | the search returns a constant at or before any position whose code matches, so it is the first match in declaration order |
| Genders.Lookup | src/main/java/br/com/examples/springbatchbasics/enums/Gender.java:20-27 | `entryOf`: a found constant carries exactly the given code, and nothing is found exactly when no constant carries it |
| Genders.EntryOf | src/main/java/br/com/examples/springbatchbasics/enums/Gender.java:20-27 | the `for` loop with early return computes exactly the first-match lookup over `values()` |
| Genders.ValueInjective | src/main/java/br/com/examples/springbatchbasics/enums/Gender.java:7-8 | distinct constants have distinct codes |
| Genders.FirstWithValueUnique | src/main/java/br/com/examples/springbatchbasics/enums/Gender.java:21-24 | in any list of constants that contains g, looking up g's code returns g |
| Genders.LookupValue | src/main/java/br/com/examples/springbatchbasics/enums/Gender.java:7-27 | round trip: `entryOf(g.getValue()) == g` for every constant |
| Genders.LookupRecognisesExactly | src/main/java/br/com/examples/springbatchbasics/enums/Gender.java:20-27 | `entryOf` finds a constant if and only if the text is exactly `male` or `female`, and `null` otherwise |
| Genders.LookupIsCaseSensitive | src/main/java/br/com/examples/springbatchbasics/enums/Gender.java:22 | `Male` and `FEMALE` are not recognised (`String.equals` is case-sensitive) |
| FieldCodec.Split | src/main/java/br/com/examples/springbatchbasics/readers/CustomerItemReader.java:40 | splitting on the delimiter gives at least one token, none containing the delimiter |
| FieldCodec.SplitJoin | src/main/java/br/com/examples/springbatchbasics/writters/CustomerItemWriter.java:75-89 | joining delimiter-free fields and splitting the result gives the fields back |
| FieldCodec.JoinSplit | src/main/java/br/com/examples/springbatchbasics/readers/CustomerItemReader.java:40 | joining the tokens of a split gives the original line back |
| FieldCodec.JoinCount | src/main/java/br/com/examples/springbatchbasics/writters/CustomerItemWriter.java:75-89 | n delimiter-free fields joined hold exactly n - 1 delimiters |
| FieldCodec.SplitCount | src/main/java/br/com/examples/springbatchbasics/readers/CustomerItemReader.java:40 | a line with n delimiters splits into n + 1 tokens |
| FieldCodec.JoinAvoids | src/main/java/br/com/examples/springbatchbasics/writters/CustomerItemWriter.java:75-89 | a character found in no field, and other than the delimiter, is not in the joined text |
| Formats.HexValue | src/main/java/br/com/examples/springbatchbasics/processors/CustomerItemProcessor.java:26 | a character is a hex digit (either case) if and only if it has a nibble value |
| Formats.HexNibblesOfText | src/main/java/br/com/examples/springbatchbasics/processors/CustomerItemProcessor.java:26 | reading back lower-case hex text gives the nibbles that produced it |
| Formats.HexTextOfNibbles | src/main/java/br/com/examples/springbatchbasics/processors/CustomerItemProcessor.java:26 | lower-case hex text is rewritten unchanged after it is read |
| Formats.DecimalValueOfDecimal | src/main/java/br/com/examples/springbatchbasics/processors/CustomerItemProcessor.java:30 | a zero-padded decimal field reads back as its number |
| Formats.DecimalOfDecimalValue | src/main/java/br/com/examples/springbatchbasics/processors/CustomerItemProcessor.java:30 | an all-digit field is rewritten unchanged at its own width |
| Formats.GroupNibblesOfRegroup | src/main/java/br/com/examples/springbatchbasics/writters/CustomerItemWriter.java:76 | reading back the digit groups of a UUID gives its digits |
| Formats.RegroupOfGroupNibbles | src/main/java/br/com/examples/springbatchbasics/processors/CustomerItemProcessor.java:26 | lower-case groups of the right lengths are rewritten unchanged after they are read |
| Formats.GroupNibbles | src/main/java/br/com/examples/springbatchbasics/processors/CustomerItemProcessor.java:26 | the groups are read exactly when each has its expected length and only hex digits, giving as many digits as the lengths add up to |
| Formats.ParseUuid | src/main/java/br/com/examples/springbatchbasics/processors/CustomerItemProcessor.java:26 | `UUID.fromString` (canonical form): the text parses if and only if it splits on `-` into five groups of 8, 4, 4, 4 and 12 hex digits |
| Formats.ParseFormatUuid | src/main/java/br/com/examples/springbatchbasics/writters/CustomerItemWriter.java:76 | the id text the writer appends (`UUID.toString`) is the canonical lower-case form, and `UUID.fromString` of it gives the identifier back |
| Formats.FormatParseUuid | src/main/java/br/com/examples/springbatchbasics/writters/CustomerItemWriter.java:76 | a lower-case canonical UUID text that parses is written back exactly as it was read |
| Formats.UuidTextsDoNotCollide | src/main/java/br/com/examples/springbatchbasics/processors/CustomerItemProcessor.java:26 | two different lower-case UUID texts that both parse give different identifiers |
| Formats.DaysInMonth | src/main/java/br/com/examples/springbatchbasics/processors/CustomerItemProcessor.java:30 | every month has 28 to 31 days |
| Formats.ParseDate | src/main/java/br/com/examples/springbatchbasics/processors/CustomerItemProcessor.java:21-30 | only a ten-character text with `-` at positions 4 and 7 parses |
| Formats.ParseFormatDate | src/main/java/br/com/examples/springbatchbasics/writters/CustomerItemWriter.java:82 | the birthday text the writer appends (`LocalDate.toString`, `yyyy-MM-dd`) parses back to the same date |
| Formats.FormatParseDate | src/main/java/br/com/examples/springbatchbasics/writters/CustomerItemWriter.java:82 | a parsed text whose day exists in its month is written back exactly as it was read |
| Formats.ParseDateAccepts | src/main/java/br/com/examples/springbatchbasics/processors/CustomerItemProcessor.java:21-30 | a text parses if and only if it is `yyyy-MM-dd` with all-digit fields, year at least 1, month 1 to 12 and day 1 to 31; so month 00 or 13, day 00 or above 31 and year 0000 fail |
| Formats.ParseDateClamps | src/main/java/br/com/examples/springbatchbasics/processors/CustomerItemProcessor.java:21-30 | with the default (smart) resolver, an accepted text gives its year and month, and its day reduced to the length of that month when it is larger (`2023-02-30` is 28 February) |
| CustomerReader.TrimOfTrimmed | src/main/java/br/com/examples/springbatchbasics/readers/CustomerItemReader.java:48-54 | a token without blanks at its ends is read unchanged |
| CustomerReader.Zip | src/main/java/br/com/examples/springbatchbasics/readers/CustomerItemReader.java:39 | the field set has exactly the tokenizer's names as keys |
| CustomerReader.ZipAt | src/main/java/br/com/examples/springbatchbasics/readers/CustomerItemReader.java:39 | with distinct names, each name reads the token at its own position |
| CustomerReader.FieldNamesDistinct | src/main/java/br/com/examples/springbatchbasics/readers/CustomerItemReader.java:20-39 | the seven column names are pairwise different |
| CustomerReader.Tokenize | src/main/java/br/com/examples/springbatchbasics/readers/CustomerItemReader.java:37-40 | a line tokenizes exactly when it splits on `;` into seven tokens, filing token k under name k; otherwise it fails as malformed, with its token count |
| CustomerReader.SkipLeading | src/main/java/br/com/examples/springbatchbasics/readers/CustomerItemReader.java:48-54 | the first position from i on that holds a character above the space (or the end); every character skipped is at or below the space |
| CustomerReader.SkipTrailing | src/main/java/br/com/examples/springbatchbasics/readers/CustomerItemReader.java:48-54 | the end of the text once the characters at or below the space are dropped from its back, never going below lo |
| CustomerReader.Trim | src/main/java/br/com/examples/springbatchbasics/readers/CustomerItemReader.java:48-54 | Java `trim`: the result is a contiguous part of the text with no blank at either end, and every character dropped before or after it is at or below the space |
| CustomerReader.ReadString | src/main/java/br/com/examples/springbatchbasics/readers/CustomerItemReader.java:48-54 | `FieldSet.readString`: the result is Java `trim` of the named token, so it has no blank at either end, and a token already trimmed is read unchanged |
| CustomerReader.MapFieldSet | src/main/java/br/com/examples/springbatchbasics/readers/CustomerItemReader.java:45-57 | `mapFieldSet`: field k is Java `trim` of the token named k (Id, first name, last name, gender, birthday, address, country), so all seven are trimmed; when the tokens are already trimmed, each field is its token unchanged |
| CustomerReader.DecodeLine | src/main/java/br/com/examples/springbatchbasics/readers/CustomerItemReader.java:39-57 | a line decodes exactly when it splits on `;` into seven tokens; otherwise it is malformed, with its token count |
| CustomerReader.DecodeLineColumns | src/main/java/br/com/examples/springbatchbasics/readers/CustomerItemReader.java:45-57 | column k, trimmed, lands in the k-th field: Id, first name, last name, gender, birthday, address, country; each field depends on its own column only, and all stay texts |
| CustomerReader.Collect | src/main/java/br/com/examples/springbatchbasics/readers/CustomerItemReader.java:45-57 | all values in order when every line decodes; otherwise the first failure |
| CustomerReader.DecodeAll | src/main/java/br/com/examples/springbatchbasics/readers/CustomerItemReader.java:45-57 | record k is the decoding of line k; the first malformed line stops the read |
| CustomerReader.ReadAllSkipsTitle | src/main/java/br/com/examples/springbatchbasics/readers/CustomerItemReader.java:28-62 | exactly one leading line is skipped, whatever it holds; record k comes from line k + 1 |
| CustomerReader.ReadAll | src/main/java/br/com/examples/springbatchbasics/readers/CustomerItemReader.java:28-62 | reading succeeds if and only if every line after the first decodes; then there is one record per such line, record k being the decoding of line k + 1 |
| CustomerProcessor.Process | src/main/java/br/com/examples/springbatchbasics/processors/CustomerItemProcessor.java:17-42 | id failure first, then birthday failure, whatever the country; once both parse, the result is kept if and only if the country equals `United States`; the texts are copied verbatim, the gender is `entryOf(gender)`, and `foreign` is false |
| CustomerProcessor.AcceptedAreUnitedStates | src/main/java/br/com/examples/springbatchbasics/processors/CustomerItemProcessor.java:33-38 | every kept customer's address country is `United States` |
| CustomerProcessor.UnknownGenderIsKept | src/main/java/br/com/examples/springbatchbasics/processors/CustomerItemProcessor.java:29-37 | an unrecognised gender code gives a `null` gender but does not reject the record |
| CustomerProcessor.CountryDoesNotAffectParsing | src/main/java/br/com/examples/springbatchbasics/processors/CustomerItemProcessor.java:26-37 | the country is tested after both parses, so changing it never changes whether or how the call fails |
| CustomerProcessor.AcceptedKeepsTexts | src/main/java/br/com/examples/springbatchbasics/processors/CustomerItemProcessor.java:26-30 | a kept customer's identifier and birthday are written back as the input texts (lower-case id, existing day) |
| CustomerWriter.Header | src/main/java/br/com/examples/springbatchbasics/writters/CustomerItemWriter.java:47-59 | the header built by appends is the six names joined by `;` |
| CustomerWriter.HeaderText | src/main/java/br/com/examples/springbatchbasics/writters/CustomerItemWriter.java:23-59 | the header is `Id;first_name;last_name;birthday;gender;address` |
| CustomerWriter.HeaderColumns | src/main/java/br/com/examples/springbatchbasics/writters/CustomerItemWriter.java:47-59 | the header splits into six names, with no country column |
| CustomerWriter.Fields | src/main/java/br/com/examples/springbatchbasics/writters/CustomerItemWriter.java:75-89 | seven texts for a customer with a gender; the null-gender failure exactly when the gender is `null` |
| CustomerWriter.Line | src/main/java/br/com/examples/springbatchbasics/writters/CustomerItemWriter.java:75-89 | a line is produced exactly when the customer has a gender, otherwise the null-gender failure |
| CustomerWriter.Output | src/main/java/br/com/examples/springbatchbasics/writters/CustomerItemWriter.java:70-97 | the output fails, with the null-gender error, if and only if some item has no gender |
| CustomerWriter.OutputEmpty | src/main/java/br/com/examples/springbatchbasics/writters/CustomerItemWriter.java:71-96 | an empty list gives the empty string |
| CustomerWriter.OutputAppend | src/main/java/br/com/examples/springbatchbasics/writters/CustomerItemWriter.java:73-93 | the output of `a ++ b` is the output of a followed by that of b |
| CustomerWriter.DoWrite | src/main/java/br/com/examples/springbatchbasics/writters/CustomerItemWriter.java:70-97 | the `forEach` loop appending each line and `\n` to a buffer returns exactly `Output(items)`; it only reads the items |
| CustomerWriter.AppendLine | src/main/java/br/com/examples/springbatchbasics/writters/CustomerItemWriter.java:92 | one more item with a gender appends its line and `\n` |
| CustomerWriter.LineLayout | src/main/java/br/com/examples/springbatchbasics/writters/CustomerItemWriter.java:75-89 | the line is id; first name; last name; birthday; gender code; street; country, with `;` between each two |
| CustomerWriter.FormattedFieldsArePlain | src/main/java/br/com/examples/springbatchbasics/writters/CustomerItemWriter.java:76-84 | the id, birthday and gender code texts never hold `;`, `\n` or a blank |
| CustomerWriter.LineSplitsIntoFields | src/main/java/br/com/examples/springbatchbasics/writters/CustomerItemWriter.java:75-89 | with plain texts, a line has no `\n` and exactly six `;`, and splitting it on `;` gives back the seven field texts in order |
| CustomerWriter.LineTexts | src/main/java/br/com/examples/springbatchbasics/writters/CustomerItemWriter.java:73-93 | one line per item |
| CustomerWriter.OutputIsJoinedLines | src/main/java/br/com/examples/springbatchbasics/writters/CustomerItemWriter.java:73-93 | the output is the lines in item order, each followed by `\n` |
| CustomerWriter.OutputSplitsIntoItems | src/main/java/br/com/examples/springbatchbasics/writters/CustomerItemWriter.java:75-92 | with plain texts, splitting the output on `\n` gives one line per item, and line i splits on `;` into item i's seven texts |
| Enrichment.CustomerBean.constructor | src/main/java/br/com/examples/springbatchbasics/domains/Customer.java:12-28 | a customer object holding the given values |
| Enrichment.Enriched | src/main/java/br/com/examples/springbatchbasics/processors/CustomerEnrichmentItemProcessor.java:10-14 | `foreign` holds if and only if the country equals `United States` (true means the customer is US); every other field is unchanged |
| Enrichment.Process | src/main/java/br/com/examples/springbatchbasics/processors/CustomerEnrichmentItemProcessor.java:13-17 | only the object's `foreign` field may change, it becomes the enriched value, and the same object is returned (never `null`) |
| Enrichment.EnrichedIsIdempotent | src/main/java/br/com/examples/springbatchbasics/processors/CustomerEnrichmentItemProcessor.java:14 | enriching twice gives the same values as enriching once |
| Enrichment.ProcessTwice | src/main/java/br/com/examples/springbatchbasics/processors/CustomerEnrichmentItemProcessor.java:13-17 | running `process` twice on one object leaves the state one run leaves |
| Pipeline.Chunks | src/main/java/br/com/examples/springbatchbasics/configurations/batch/CustomerBatchConfiguration.java:47 | chunks are non-empty and hold at most `size` items; all but the last hold exactly `size` |
| Pipeline.FlattenChunks | src/main/java/br/com/examples/springbatchbasics/configurations/batch/CustomerBatchConfiguration.java:47 | the chunks hold exactly the items, in order |
| Pipeline.WriteChunks | src/main/java/br/com/examples/springbatchbasics/writters/CustomerItemWriter.java:70-97 | writing chunk after chunk fails, with the null-gender error, if and only if some chunk's `doWrite` fails |
| Pipeline.WriteChunksFlatten | src/main/java/br/com/examples/springbatchbasics/configurations/batch/CustomerBatchConfiguration.java:47-50 | for every sequence of chunks, of any sizes and possibly empty (the survivors of each chunk of ten records read), the `doWrite` texts of the chunks, concatenated, equal the output for all their items at once |
| Pipeline.ChunkedOutput | src/main/java/br/com/examples/springbatchbasics/writters/CustomerItemWriter.java:70-97 | in particular, for fixed-size cuts of any size, the chunked output equals the output for all items at once |
| Pipeline.FormattedTextTrimmed | src/main/java/br/com/examples/springbatchbasics/writters/CustomerItemWriter.java:76-84 | the id, birthday and gender code texts have no blank at either end |
| Pipeline.DecodeTrimmedTokens | src/main/java/br/com/examples/springbatchbasics/readers/CustomerItemReader.java:45-57 | a line splitting into seven trimmed tokens is read as those tokens in column order |
| Pipeline.WrittenLineReadBack | src/main/java/br/com/examples/springbatchbasics/writters/CustomerItemWriter.java:75-89 | the reader accepts a written line, but its gender field receives the birthday text and its birthday field the gender code |
| Pipeline.WrittenLineDoesNotReprocess | src/main/java/br/com/examples/springbatchbasics/processors/CustomerItemProcessor.java:30 | so such a record fails the processor's birthday parse |
| Pipeline.AcceptedLineFields | src/main/java/br/com/examples/springbatchbasics/processors/CustomerItemProcessor.java:26-35 | a kept record with a recognised gender, a lower-case id and a birthday whose day exists in its month is written as its own texts, with the birthday and gender swapped (otherwise the id comes back lower-cased and the day clamped) |
| Pipeline.EnrichedAcceptedAreMarked | src/main/java/br/com/examples/springbatchbasics/processors/CustomerEnrichmentItemProcessor.java:14 | enrichment sets `foreign` to true on every customer the processor keeps, and changes nothing else |

## Left out

- `DelimitedLineTokenizer` is modelled as a plain split on `;` that must yield exactly seven tokens. Its quote character, escaped quotes and the tokenizer's own error messages are left out.
- Lines that `FlatFileItemReader` treats as comments are left out. A blank line is tokenized like any other and fails as malformed, as in Java; its token count is 1 here (one empty token), where the Java tokenizer reports 0. The reader's title row is only skipped, never checked.
- Formats.ParseUuid: only the canonical 8-4-4-4-12 form of ASCII hex digits is modelled. `UUID.fromString` (JDK 8) is more lenient, and these texts are rejected here: groups with fewer digits, groups with more digits (there is no length check), and digits that `Character.digit` accepts outside ASCII, such as fullwidth `０`.
- Formats.ParseDate: the year is exactly four digits from 0001 to 9999. Wider signed years, which the `yyyy` pattern can also accept, are not modelled.
- Java `null` texts are not modelled, because the reader never produces them. This covers `entryOf(null)`, a `null` identifier, and null names.
- File I/O is framework behaviour: opening, truncating or appending, writing the header once per file, the line separator after it, and closing.
- The step's chunk loop, its transactions, and the dropping of `null` processor results before the writer run inside Spring Batch. Only the concatenation property of `doWrite` over any cut is modelled (`Pipeline.WriteChunksFlatten`).
- `AmericanCustomerItemWritter` configures a library writer for a class that is not shown, and the step does not use it.
- `ApplicationProperties` supplies file names only.
- `domains/Address.java` is not part of this model. An address is the pair (street, country) that the processor and the writer use.
- The `Customer` object that `CustomerItemProcessor.process` creates and fills through setters is modelled as the value it holds when returned.
