# CommandLineParser tokenizer, modelled in Dafny

This project models the tokenizer of SoftCircuits CommandLineParser. `CommandLine` scans a
command-line string with a character cursor and builds an ordered list of
`CommandLineArgument` records. Each record holds:
- whether the token was a flag, introduced by `-` or `/`;
- the token text;
- an optional extended argument that followed a `:`.

A quoted token (`"..."` or `'...'`) is taken verbatim without its quotes. An unquoted token
stops at whitespace, at a flag character, and at `:` when extended arguments are on. Records
whose argument is empty or whitespace are dropped. As written, the code takes the first
non-blank record as the program name and never stores it; the model makes this a choice,
`discardFirst` (see below). The class also has query helpers that search and filter the
stored records.

Files (one module each):
- `wrappers.dfy`: `Option`.
- `command_line_argument.dfy`: the record, as a datatype.
- `parsing_helper.dfy`: the `ParsingHelper` cursor class, written from the contract the tokenizer relies on,
  plus the string-level functions its methods are proved against.
- `command_line.dfy`: the constants; the pure specification `ScanArgument` / `ScanRecord` /
  `Scan` / `Kept` / `Parse`; the query functions; and the class `CommandLine`.
  - `ParseCommandLine` and `ParseArgument` are `while` loops over the cursor.
  - Each is proved to compute what the specification says.
- `properties.dfy`: lemmas about the specification. They cover the fields of a record, quoted
  and unquoted tokens, the ungated delimiter, shifting a scan past a prefix, dropping blank
  records and the first record, and the query helpers.
- `rendering.dfy`: a writer for records and the round trip.
  - `Render` writes a list of pieces as command-line text. A piece is an optional flag
    character, a bare or quoted word, an optional `:value`, and a whitespace gap.
  - `ParseRender` proves that parsing the text of well-formed pieces gives back exactly their
    records.
- `scenarios.dfy`: the unit tests' command lines, each proved to parse as the tests expect, and
  the query results the tests check.

The parse takes a `discardFirst` flag:
- `true` is `CommandLine.cs` as written. It always drops the first non-blank record.
- `false` is the behaviour the unit tests expect. They call a newer API (`new CommandLine(true)`,
  `cl.Parse(...)`) that this source does not contain, and that API keeps the first record.

## Model

| member | source | states |
|---|---|---|
| CommandLineParser.SentinelIsInert | CommandLineParser/CommandLine.cs:45-47 | the end-of-text sentinel is no whitespace, flag, quote or delimiter, so it stops every scan branch |
| Parsing.IsWhiteSpace | CommandLineParser/CommandLine.cs:129 | definition of the whitespace test, a fixed set of six characters (see "Left out"); `SentinelIsInert` and `SkipWsSpan` state what follows from it |
| Parsing.ParsingHelper.EndOfText | CommandLineParser/CommandLine.cs:83 | when the cursor is not at the end, the next character, the one `Peek` gives, is a real character of the text |
| CommandLineParser.IsNullOrWhiteSpace | CommandLineParser/CommandLine.cs:100 | definition of the blank test: skipping whitespace from the start reaches the end; `BlankMeansAllWhiteSpace` characterises it |
| CommandLineParser.StopsUnquoted | CommandLineParser/CommandLine.cs:128-131 | definition of the characters that end an unquoted token (the negated loop condition); `UnquotedEnd` and `UnquotedEndSpan` state its use |
| CommandLineParser.DiscardFirst | CommandLineParser/CommandLine.cs:76 | discarding drops exactly one record of a non-empty list and none otherwise; `DiscardFirstToken` states that it is the first one |
| CommandLineParser.SameText | CommandLineParser/CommandLine.cs:146 | texts that compare equal, with or without case, have the same length; `ExactMatchIgnoringCase` relates the two modes |
| CommandLineParser.Matches | CommandLineParser/CommandLine.cs:146-183 | definition of the predicate of the query helpers: the record kind and a text comparison; `AnyMatch` and `FirstMatch` state what the queries give |
| CommandLineParser.Where | CommandLineParser/CommandLine.cs:191-198 | every selected record is of the requested kind and no more records are selected than exist |
| CommandLineParser.WhereCounts | CommandLineParser/CommandLine.cs:186-198 | each record of the requested kind is selected exactly as often as it is stored; no other record is selected |
| CommandLineParser.BlankMeansAllWhiteSpace | CommandLineParser/CommandLine.cs:100 | `IsNullOrWhiteSpace` holds exactly when every character is whitespace |
| CommandLineParser.UnquotedEnd | CommandLineParser/CommandLine.cs:128-132 | the unquoted scan stops at the end or at a stopping character (whitespace, `-`, `/`, and `:` when testing for extended arguments) |
| CommandLineParser.UnquotedEndSpan | CommandLineParser/CommandLine.cs:128-132 | every character the unquoted scan passes over is not a stopping character |
| CommandLineParser.ScanArgument | CommandLineParser/CommandLine.cs:122-134 | one argument never moves the cursor backwards or past the end |
| CommandLineParser.UnquotedArgument | CommandLineParser/CommandLine.cs:127-133 | an unquoted argument is the longest run of non-stopping characters from the cursor, and what follows it is the end or a stopping character |
| CommandLineParser.ScanRecord | CommandLineParser/CommandLine.cs:86-98 | one loop iteration from a non-whitespace character consumes at least one character and stays in the text, so the loop terminates |
| CommandLineParser.Scan | CommandLineParser/CommandLine.cs:82-109 | at most one record per remaining character; no record exactly when only whitespace remains |
| CommandLineParser.Kept | CommandLineParser/CommandLine.cs:100 | filtering blank records never adds records |
| CommandLineParser.KeptMembers | CommandLineParser/CommandLine.cs:100 | the kept records are exactly the scanned records whose argument is not blank |
| CommandLineParser.Parse | CommandLineParser/CommandLine.cs:74-110 | the stored list has at most one record per character of the command line |
| CommandLineParser.AnyMatch | CommandLineParser/CommandLine.cs:146 | `Any` holds exactly when some record has the right kind and a matching argument |
| CommandLineParser.FirstMatch | CommandLineParser/CommandLine.cs:171 | `FirstOrDefault` gives None when no record matches; otherwise it gives a matching record with no match before it |
| CommandLineParser.WhereMembers | CommandLineParser/CommandLine.cs:191 | the selected records are exactly the records of the requested kind |
| CommandLineParser.KeepStep | CommandLineParser/CommandLine.cs:99-106 | one store-or-skip step keeps the loop invariant: stored records plus the rest of the scan still equal the final result |
| CommandLineParser.KeptCons | CommandLineParser/CommandLine.cs:100 | a record and the records after it: the record is kept exactly when its argument is not blank |
| CommandLineParser.ScanStep | CommandLineParser/CommandLine.cs:83-109 | a scan from a non-whitespace character starts with the record found there |
| CommandLineParser.ScanSkip | CommandLineParser/CommandLine.cs:82 | skipping whitespace does not change the records scanned |
| CommandLineParser.CommandLine.constructor | CommandLineParser/CommandLine.cs:62-66 | stores the extended-argument setting and the parse of the command line |
| CommandLineParser.CommandLine.ParseCommandLine | CommandLineParser/CommandLine.cs:74-110 | the loop leaves `Arguments` equal to `Parse(commandLine, ...)`: non-blank records in scan order, the first dropped when discarding |
| CommandLineParser.CommandLine.ParseRecord | CommandLineParser/CommandLine.cs:86-98 | the flag test, the argument and the `:` extended argument leave the cursor where `ScanRecord` says, with the record it says |
| CommandLineParser.CommandLine.ParseArgument | CommandLineParser/CommandLine.cs:122-134 | the quoted branch or the unquoted loop yields the token and the cursor that `ScanArgument` gives |
| CommandLineParser.CommandLine.HasArgument | CommandLineParser/CommandLine.cs:144-147 | true exactly when some non-flag record's argument matches, exactly or ignoring case |
| CommandLineParser.CommandLine.HasFlagArgument | CommandLineParser/CommandLine.cs:157-160 | true exactly when some flag record's argument matches |
| CommandLineParser.CommandLine.GetArgument | CommandLineParser/CommandLine.cs:162-172 | the `FirstMatch` of the non-flag records: a found record is the first stored non-flag record that matches, with no match before it; None exactly when `HasArgument` is false |
| CommandLineParser.CommandLine.GetFlagArgument | CommandLineParser/CommandLine.cs:174-184 | the `FirstMatch` of the flag records: a found record is the first stored flag record that matches, with no match before it; None exactly when `HasFlagArgument` is false |
| CommandLineParser.CommandLine.GetArguments | CommandLineParser/CommandLine.cs:186-191 | the `Where` selection of the non-flag records, which keeps their order (`WhereAppend`); it holds every stored non-flag record exactly as often as it is stored and nothing else |
| CommandLineParser.CommandLine.GetFlagArguments | CommandLineParser/CommandLine.cs:193-198 | the `Where` selection of the flag records, which keeps their order (`WhereAppend`); it holds every stored flag record exactly as often as it is stored and nothing else |
| Parsing.SkipWs | CommandLineParser/CommandLine.cs:82 | skipping whitespace stops at the end or at a non-whitespace character |
| Parsing.SkipWsSpan | CommandLineParser/CommandLine.cs:82 | every character skipped is whitespace |
| Parsing.QuoteClose | CommandLineParser/CommandLine.cs:125 | the quoted scan stops at the end or at the opening quote character |
| Parsing.QuoteCloseSpan | CommandLineParser/CommandLine.cs:125 | no character inside the quoted span is the opening quote |
| Parsing.QuotedToken | CommandLineParser/CommandLine.cs:125 | quoted-text parsing consumes at least the opening quote and stays in the text |
| Parsing.QuotedTokenShape | CommandLineParser/CommandLine.cs:124-125 | the quoted text is the span after the quote up to the next identical quote; that quote is consumed, or the span runs to the end |
| Parsing.ParsingHelper.constructor | CommandLineParser/CommandLine.cs:80 | a cursor at index 0 over the command line |
| Parsing.ParsingHelper.Peek | CommandLineParser/CommandLine.cs:88 | the current character, or the sentinel at the end |
| Parsing.ParsingHelper.MoveAhead | CommandLineParser/CommandLine.cs:90 | advances one character, never past the end |
| Parsing.ParsingHelper.SkipWhitespace | CommandLineParser/CommandLine.cs:82 | the cursor moves to the next non-whitespace character or the end, as `SkipWs` says |
| Parsing.ParsingHelper.Extract | CommandLineParser/CommandLine.cs:133 | the characters in the range, in order |
| Parsing.ParsingHelper.ParseQuotedText | CommandLineParser/CommandLine.cs:125 | the returned text and the new cursor are those of `QuotedToken` |
| CommandLineProperties.ScanRecordFields | CommandLineParser/CommandLine.cs:86-98 | `IsFlag` exactly when the record starts with `-` or `/`; `Argument` is the token after it; an extended argument exactly when `:` follows, and it is the token after the `:` |
| CommandLineProperties.EmptyTokenRecord | CommandLineParser/CommandLine.cs:100 | a lone flag character, a flag before another, or a leading `:` with extended arguments on gives an empty argument, so nothing is stored for it |
| CommandLineProperties.DelimiterFollowsOnlyQuotedWithoutSupport | CommandLineParser/CommandLine.cs:94 | with extended arguments off, an unquoted token never ends just before `:` |
| CommandLineProperties.QuotedArgumentVerbatim | CommandLineParser/CommandLine.cs:124-125 | a closed quoted span yields exactly its inner text, spaces, flag characters and colons included, and consumes both quotes |
| CommandLineProperties.UnterminatedQuoteRunsToEnd | CommandLineParser/CommandLine.cs:124-125 | a quote with no closing quote takes the rest of the text |
| CommandLineProperties.PlainArgument | CommandLineParser/CommandLine.cs:127-133 | an unquoted token with no stopping character is taken whole, up to a stopping character or the end |
| CommandLineProperties.ExtendedFlagWithSupport | CommandLineParser/CommandLine.cs:94-98 | with extended arguments on, `-name:value` is flag `name` with extended argument `value` |
| CommandLineProperties.ExtendedFlagWithoutSupport | CommandLineParser/CommandLine.cs:117-119 | with extended arguments off, `-name:value` is flag `name:value` with no extended argument |
| CommandLineProperties.ShiftScan | CommandLineParser/CommandLine.cs:83-109 | the records scanned from a position do not depend on the text before it |
| CommandLineProperties.ScanCons | CommandLineParser/CommandLine.cs:83-109 | a text that starts with one whole record scans as that record followed by the records of the rest |
| CommandLineProperties.LeadingWhiteSpace | CommandLineParser/CommandLine.cs:82 | whitespace in front of a command line does not change its records |
| CommandLineProperties.BlankCommandLine | CommandLineParser/CommandLine.cs:79-83 | an empty or all-whitespace command line gives no arguments |
| CommandLineProperties.KeptNoBlank | CommandLineParser/CommandLine.cs:100 | if no record is blank, filtering keeps every record |
| CommandLineProperties.KeptAppend | CommandLineParser/CommandLine.cs:99-106 | filtering blank records keeps scan order |
| CommandLineProperties.DiscardFirstToken | CommandLineParser/CommandLine.cs:76 | without discarding, the result is exactly the non-blank records in scan order; with discarding, only the first of them is dropped |
| CommandLineProperties.ParsedRecordsWereScanned | CommandLineParser/CommandLine.cs:99-106 | every stored record was scanned and has a non-blank argument |
| CommandLineProperties.WhereAppend | CommandLineParser/CommandLine.cs:191-198 | selecting one kind of record keeps the records' order |
| CommandLineProperties.WherePartition | CommandLineParser/CommandLine.cs:191-198 | non-flag and flag selections together contain every stored record exactly once |
| CommandLineProperties.AnyIffFirst | CommandLineParser/CommandLine.cs:144-184 | `HasX` holds exactly when `GetX` finds a record |
| CommandLineProperties.ExactMatchIgnoringCase | CommandLineParser/CommandLine.cs:146 | an exact match is also a match ignoring case |
| CommandLineRendering.RenderAppend | CommandLineParser/CommandLine.cs:83-109 | writing pieces distributes over concatenation |
| CommandLineRendering.RecordsAppend | CommandLineParser/CommandLine.cs:83-109 | the records of concatenated pieces are the records of each part, concatenated |
| CommandLineRendering.WellFormedAppend | CommandLineParser/CommandLine.cs:83-109 | well-formed lists join into a well-formed list when a gap or a flag separates them |
| CommandLineRendering.WordToken | CommandLineParser/CommandLine.cs:122-134 | a bare or quoted word, after any prefix, scans as its text up to where it was written to end |
| CommandLineRendering.PieceRecord | CommandLineParser/CommandLine.cs:86-98 | a good piece followed by whitespace, a flag or nothing scans as the record it stands for |
| CommandLineRendering.QuotedDelimiterWithoutSupport | CommandLineParser/CommandLine.cs:94-98 | with extended arguments off, `"t":v` still gives `t` with extended argument `v`, because the `:` test is ungated |
| CommandLineRendering.ScanRender | CommandLineParser/CommandLine.cs:83-109 | the text of well-formed pieces scans as their records, in order |
| CommandLineRendering.RecordsNotBlank | CommandLineParser/CommandLine.cs:100 | no record of well-formed pieces has a blank argument |
| CommandLineRendering.ParseRender | CommandLineParser/CommandLine.cs:74-110 | round trip: after any leading whitespace, the text of well-formed pieces parses as their records; with discarding, as all but the first |
| CommandLineScenarios.ArgumentsParse | CommandLineParser.Tests/Tests.cs:17-29 | `abc "def ghi" "jkl":abcdef` parses as `abc`, `def ghi` and `jkl` with extended argument `abcdef`, none a flag |
| CommandLineScenarios.ArgumentsFound | CommandLineParser.Tests/Tests.cs:31-36 | each of the three is found as an argument |
| CommandLineScenarios.ArgumentsNotFlags | CommandLineParser.Tests/Tests.cs:31-36 | none of the three is found as a flag |
| CommandLineScenarios.ArgumentsCase | CommandLineParser.Tests/Tests.cs:38-39 | `Abc` is found only when case is ignored |
| CommandLineScenarios.ArgumentsGetExact | CommandLineParser.Tests/Tests.cs:41-42 | `GetArgument` finds `abc` but not `ABC` |
| CommandLineScenarios.ArgumentsGetIgnoringCase | CommandLineParser.Tests/Tests.cs:43 | ignoring case, `GetArgument` finds `ABC` |
| CommandLineScenarios.ArgumentsGetMissing | CommandLineParser.Tests/Tests.cs:44 | ignoring case, `GetArgument` does not find `XYZ` |
| CommandLineScenarios.FlagsParse | CommandLineParser.Tests/Tests.cs:50-101 | the flags line parses as the sixteen flags `a` to `p`; `e` to `h` carry `arg`, `k` and `l` carry `a b c` |
| CommandLineScenarios.FlagsKinds | CommandLineParser.Tests/Tests.cs:103-145 | every stored name is found as a flag; no value is found as an argument; no plain arguments; the flag list is all sixteen records |
| CommandLineScenarios.FlagsLookup | CommandLineParser.Tests/Tests.cs:104-105 | `A` is a flag only when case is ignored; `q` and `r` are not flags |
| CommandLineScenarios.ModesParse | CommandLineParser.Tests/Tests.cs:151-159 | with extended arguments off, `-mode:read -mode2:write` is flags `mode:read` and `mode2:write`, no extended arguments |
| CommandLineScenarios.ExtendedModesParse | CommandLineParser.Tests/Tests.cs:165-173 | with extended arguments on and blanks around it, the same line is flags `mode` and `mode2` with `read` and `write` |
| CommandLineScenarios.ModesKinds | CommandLineParser.Tests/Tests.cs:160-177 | both results have no plain arguments, and their flag list is all their records |
| CommandLineScenarios.OnlyFlags | CommandLineParser/CommandLine.cs:191-198 | when every record is a flag, `GetArguments` is empty and `GetFlagArguments` is every record |

## Left out

- `ParsingHelper` is external; its code is not part of this model. The class in `parsing_helper.dfy` follows the contract the tokenizer relies on:
  - `Peek` returns `'\0'` at the end;
  - `MoveAhead` saturates at the end;
  - `ParseQuotedText` has no escape mechanism. It reads up to the next identical quote, or to the end when there is none.
- `char.IsWhiteSpace` is Unicode-aware. The model uses a fixed set: space, tab, LF, VT, FF, CR.
- `string.Compare(..., ignoreCase)` is culture-sensitive. The model folds ASCII `A`-`Z` only.
- The exact comparison (`ignoreCase` false) of `string.Compare` is culture-sensitive too. The model compares with `==`.
- A C# `char` is a UTF-16 code unit; a Dafny `char` is a Unicode scalar value. Token boundaries are the same, because a surrogate never stops a scan. Lengths differ for characters outside the Basic Multilingual Plane, so the bound `|args| <= |commandLine|` counts scalar values, and lone surrogates cannot be written.
- Null command lines and null query values are not modelled. Strings are always present.
- `GetArguments` and `GetFlagArguments` return deferred LINQ sequences in the source. The model returns plain sequences computed when called.
- The unit tests' `CommandLine(bool)` constructor and `Parse` method do not exist in this source. The scenarios state the expected records about `Parse(..., discardFirst := false)`, and the query results about any `CommandLine` whose `Arguments` holds those records.
- The record's public setters: records are immutable values once built.
- The round trip `ParseRender` is proved only for `WellFormed` pieces, although `Render` writes any pieces. Text that well-formed pieces cannot spell, such as unterminated quotes or blank tokens, is covered by the direct scan lemmas instead.
- `CommandLineProperties.EmptyTokenRecord`: it states only that the record's argument is empty. That such a record is not stored follows from `KeptCons`.
- The C# default arguments `supportExtendedArguments = false` and `ignoreCase = false` are explicit parameters in the model.

The code and the tests disagree on the first record. `CommandLine.cs:76` and `CommandLine.cs:102-105` always drop it. The tests expect it kept. The model has both, selected by `discardFirst`.

The `:` test at `CommandLine.cs:94` does not check whether extended arguments are on. It is modelled as written; see `QuotedDelimiterWithoutSupport`.
