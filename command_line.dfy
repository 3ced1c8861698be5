/**
 * The command-line tokenizer (CommandLineParser/CommandLine.cs).
 *
 * The pure functions `ScanArgument`, `ScanRecord`, `Scan` and `Parse` say what one
 * argument, one record, the whole scan and the stored result are; the class
 * `CommandLine` holds the cursor-driven methods of the source, each proved to
 * compute what these functions say.
 */
module CommandLineParser {
  import opened Wrappers
  import opened Parsing
  import opened ArgumentRecords

  const FLAG_CHARS: set<char> := {'-', '/'}
  const QUOTE_CHARS: set<char> := {'"', '\''}
  const EXTENDED_ARGUMENT_DELIMITER: char := ':'

  /** The sentinel `Peek` yields at the end starts nothing: no whitespace, flag, quote or delimiter. */
  lemma SentinelIsInert()
    ensures !IsWhiteSpace(NULL_CHAR)
    ensures NULL_CHAR !in FLAG_CHARS && NULL_CHAR !in QUOTE_CHARS
    ensures NULL_CHAR != EXTENDED_ARGUMENT_DELIMITER
  {
  }

  /** `string.IsNullOrWhiteSpace` on a non-null string: skipping whitespace reaches the end. */
  predicate IsNullOrWhiteSpace(s: string)
  {
    SkipWs(s, 0) == |s|
  }

  /** A string is blank exactly when every character of it is whitespace. */
  lemma BlankMeansAllWhiteSpace(s: string)
    ensures IsNullOrWhiteSpace(s) <==> forall k :: 0 <= k < |s| ==> IsWhiteSpace(s[k])
  {
    SkipWsSpan(s, 0);
  }

  /** A character that ends an unquoted token. */
  predicate StopsUnquoted(c: char, testForExtendedArgument: bool)
  {
    IsWhiteSpace(c) || c in FLAG_CHARS || (testForExtendedArgument && c == EXTENDED_ARGUMENT_DELIMITER)
  }

  /** The end of the unquoted token that starts at `i`: the first stopping character, or the end. */
  function UnquotedEnd(s: string, i: nat, testForExtendedArgument: bool): (j: nat)
    requires i <= |s|
    ensures i <= j <= |s|
    ensures j == |s| || StopsUnquoted(s[j], testForExtendedArgument)
    decreases |s| - i
  {
    if i == |s| || StopsUnquoted(s[i], testForExtendedArgument) then i
    else UnquotedEnd(s, i + 1, testForExtendedArgument)
  }

  /** `UnquotedEnd` moves over non-stopping characters only. */
  lemma {:induction false} UnquotedEndSpan(s: string, i: nat, testForExtendedArgument: bool)
    requires i <= |s|
    ensures forall k :: i <= k < UnquotedEnd(s, i, testForExtendedArgument) ==> !StopsUnquoted(s[k], testForExtendedArgument)
    decreases |s| - i
  {
    if i < |s| && !StopsUnquoted(s[i], testForExtendedArgument) {
      UnquotedEndSpan(s, i + 1, testForExtendedArgument);
    }
  }

  /**
   * One argument scanned from index `i`: a quoted span taken verbatim without its
   * quotes, or else the longest run of characters that do not stop an unquoted token.
   */
  function ScanArgument(s: string, i: nat, testForExtendedArgument: bool): (t: Token)
    requires i <= |s|
    ensures i <= t.next <= |s|
  {
    if CharAt(s, i) in QUOTE_CHARS then QuotedToken(s, i)
    else
      var j := UnquotedEnd(s, i, testForExtendedArgument);
      Token(s[i..j], j)
  }

  /**
   * An unquoted argument is the longest run of characters from `i` that do not stop
   * an unquoted token: whitespace, '-', '/', and ':' when `testForExtendedArgument` holds.
   */
  lemma UnquotedArgument(s: string, i: nat, testForExtendedArgument: bool)
    requires i <= |s| && !(i < |s| && s[i] in QUOTE_CHARS)
    ensures var t := ScanArgument(s, i, testForExtendedArgument);
            && t.text == s[i..t.next]
            && (forall k :: 0 <= k < |t.text| ==> !StopsUnquoted(t.text[k], testForExtendedArgument))
            && (t.next == |s| || StopsUnquoted(s[t.next], testForExtendedArgument))
  {
    UnquotedEndSpan(s, i, testForExtendedArgument);
  }

  /** A record scanned from `i` and the index right after it. */
  datatype Scanned = Scanned(arg: CommandLineArgument, next: nat)

  /** Where the primary token of a record starting at `i` begins: past the flag character, if any. */
  function ArgumentStart(s: string, i: nat): (p: nat)
    requires i < |s|
    ensures p <= |s|
  {
    if s[i] in FLAG_CHARS then i + 1 else i
  }

  /**
   * One loop iteration of `ParseCommandLine` from a non-whitespace character at `i`:
   * an optional flag character, the primary argument, and an extended argument
   * when the primary argument is followed by ':'.
   */
  function ScanRecord(s: string, i: nat, supportExtendedArguments: bool): (r: Scanned)
    requires i < |s| && !IsWhiteSpace(s[i])
    ensures i < r.next <= |s|
  {
    var isFlag := s[i] in FLAG_CHARS;
    var primary := ScanArgument(s, ArgumentStart(s, i), supportExtendedArguments);
    if CharAt(s, primary.next) == EXTENDED_ARGUMENT_DELIMITER then
      var extended := ScanArgument(s, primary.next + 1, false);
      Scanned(CommandLineArgument(isFlag, primary.text, Some(extended.text)), extended.next)
    else
      Scanned(CommandLineArgument(isFlag, primary.text, None), primary.next)
  }

  /**
   * Every record the scan loop builds from index `i` on, in scan order, including
   * the ones whose argument is empty. Each record consumes at least one character.
   */
  function Scan(s: string, i: nat, supportExtendedArguments: bool): (rs: seq<CommandLineArgument>)
    requires i <= |s|
    ensures |rs| <= |s| - i
    ensures rs == [] <==> SkipWs(s, i) == |s|
    decreases |s| - i
  {
    var j := SkipWs(s, i);
    if j == |s| then []
    else
      var r := ScanRecord(s, j, supportExtendedArguments);
      [r.arg] + Scan(s, r.next, supportExtendedArguments)
  }

  /** The records whose argument is not empty or whitespace, in their order. */
  function Kept(rs: seq<CommandLineArgument>): (ks: seq<CommandLineArgument>)
    ensures |ks| <= |rs|
  {
    if rs == [] then []
    else if IsNullOrWhiteSpace(rs[0].Argument) then Kept(rs[1..])
    else [rs[0]] + Kept(rs[1..])
  }

  /** The kept records are exactly the scanned records whose argument is not blank. */
  lemma {:induction false} KeptMembers(rs: seq<CommandLineArgument>)
    ensures forall a :: a in Kept(rs) <==> a in rs && !IsNullOrWhiteSpace(a.Argument)
  {
    if rs != [] {
      KeptMembers(rs[1..]);
      assert rs == [rs[0]] + rs[1..];
    }
  }

  /** Drops the first record, the program name, when `discardFirst` holds. */
  function DiscardFirst(ks: seq<CommandLineArgument>, discardFirst: bool): (r: seq<CommandLineArgument>)
    ensures |r| == if discardFirst && ks != [] then |ks| - 1 else |ks|
  {
    if discardFirst && ks != [] then ks[1..] else ks
  }

  /** The `Arguments` list a parse of `commandLine` stores. */
  function Parse(commandLine: string, supportExtendedArguments: bool, discardFirst: bool): (args: seq<CommandLineArgument>)
    ensures |args| <= |commandLine|
  {
    DiscardFirst(Kept(Scan(commandLine, 0, supportExtendedArguments)), discardFirst)
  }

  /** Exact comparison, or ASCII case-insensitive comparison when `ignoreCase` holds. */
  predicate SameText(a: string, b: string, ignoreCase: bool): (r: bool)
    ensures r ==> |a| == |b|
  {
    if ignoreCase then |a| == |b| && forall k :: 0 <= k < |a| ==> ToLower(a[k]) == ToLower(b[k])
    else a == b
  }

  function ToLower(c: char): char
  {
    if 'A' <= c <= 'Z' then (c as int + 32) as char else c
  }

  /** The predicate of the query helpers: a record of the given kind whose argument matches `value`. */
  predicate Matches(a: CommandLineArgument, isFlag: bool, value: string, ignoreCase: bool)
  {
    a.IsFlag == isFlag && SameText(a.Argument, value, ignoreCase)
  }

  /** LINQ `Any` with the query helpers' predicate. */
  function AnyMatch(args: seq<CommandLineArgument>, isFlag: bool, value: string, ignoreCase: bool): (b: bool)
    ensures b <==> exists k :: 0 <= k < |args| && Matches(args[k], isFlag, value, ignoreCase)
  {
    if args == [] then false
    else Matches(args[0], isFlag, value, ignoreCase) || AnyMatch(args[1..], isFlag, value, ignoreCase)
  }

  /** LINQ `FirstOrDefault` with the query helpers' predicate; None stands for null. */
  function FirstMatch(args: seq<CommandLineArgument>, isFlag: bool, value: string, ignoreCase: bool)
    : (r: Option<CommandLineArgument>)
    ensures r.None? ==> forall k :: 0 <= k < |args| ==> !Matches(args[k], isFlag, value, ignoreCase)
    ensures r.Some? ==> exists k :: 0 <= k < |args| && args[k] == r.value
                           && Matches(args[k], isFlag, value, ignoreCase)
                           && forall j :: 0 <= j < k ==> !Matches(args[j], isFlag, value, ignoreCase)
  {
    if args == [] then None
    else if Matches(args[0], isFlag, value, ignoreCase) then Some(args[0])
    else
      var r := FirstMatch(args[1..], isFlag, value, ignoreCase);
      assert r.Some? ==> exists k :: 0 <= k < |args| && args[k] == r.value
                           && Matches(args[k], isFlag, value, ignoreCase)
                           && forall j :: 0 <= j < k ==> !Matches(args[j], isFlag, value, ignoreCase) by {
        if r.Some? {
          var k :| 0 <= k < |args| - 1 && args[1..][k] == r.value
                   && Matches(args[1..][k], isFlag, value, ignoreCase)
                   && forall j :: 0 <= j < k ==> !Matches(args[1..][j], isFlag, value, ignoreCase);
          assert args[k + 1] == r.value;
          forall j | 0 <= j < k + 1 ensures !Matches(args[j], isFlag, value, ignoreCase) {
            if j > 0 { assert args[j] == args[1..][j - 1]; }
          }
        }
      }
      r
  }

  /** LINQ `Where(a => a.IsFlag == isFlag)`: the records of one kind, in their order. */
  function Where(args: seq<CommandLineArgument>, isFlag: bool): (ws: seq<CommandLineArgument>)
    ensures |ws| <= |args|
    ensures forall k :: 0 <= k < |ws| ==> ws[k].IsFlag == isFlag
  {
    if args == [] then []
    else if args[0].IsFlag == isFlag then [args[0]] + Where(args[1..], isFlag)
    else Where(args[1..], isFlag)
  }

  /** The selected records are exactly the records of the requested kind. */
  lemma {:induction false} WhereMembers(args: seq<CommandLineArgument>, isFlag: bool)
    ensures forall a :: a in Where(args, isFlag) <==> a in args && a.IsFlag == isFlag
  {
    if args != [] {
      WhereMembers(args[1..], isFlag);
      assert args == [args[0]] + args[1..];
    }
  }

  /** Each record of the requested kind is selected as many times as it occurs; no other record is. */
  lemma {:induction false} WhereCounts(args: seq<CommandLineArgument>, isFlag: bool)
    ensures forall a :: multiset(Where(args, isFlag))[a] == if a.IsFlag == isFlag then multiset(args)[a] else 0
  {
    if args != [] {
      WhereCounts(args[1..], isFlag);
      assert args == [args[0]] + args[1..];
    }
  }

  class CommandLine {
    const SupportExtendedArguments: bool

    /** The parsed arguments, rebuilt by every parse. */
    var Arguments: seq<CommandLineArgument>

    /**
     * Parses `commandLine`. `discardFirst` says whether the first non-empty token is
     * taken as the program name and dropped.
     */
    constructor (commandLine: string, supportExtendedArguments: bool, discardFirst: bool)
      ensures SupportExtendedArguments == supportExtendedArguments
      ensures Arguments == Parse(commandLine, supportExtendedArguments, discardFirst)
    {
      SupportExtendedArguments := supportExtendedArguments;
      new;
      ParseCommandLine(commandLine, discardFirst);
    }

    /** Replaces `Arguments` with the records of `commandLine`. */
    method ParseCommandLine(commandLine: string, discardFirst: bool)
      modifies this
      ensures Arguments == Parse(commandLine, SupportExtendedArguments, discardFirst)
    {
      ghost var expected := Parse(commandLine, SupportExtendedArguments, discardFirst);
      var parsedApp := !discardFirst;

      Arguments := [];
      var parser := new ParsingHelper(commandLine);
      parser.SkipWhitespace();
      ScanSkip(commandLine, 0, SupportExtendedArguments);
      while !parser.EndOfText()
        invariant parser.Valid() && parser.Text == commandLine
        invariant parser.Index == |commandLine| || !IsWhiteSpace(commandLine[parser.Index])
        invariant !parsedApp ==> Arguments == []
        invariant expected == Arguments + DiscardFirst(Kept(Scan(commandLine, parser.Index, SupportExtendedArguments)), !parsedApp)
        decreases |commandLine| - parser.Index
      {
        ghost var i := parser.Index;
        var record := ParseRecord(parser);
        ScanStep(commandLine, i, SupportExtendedArguments, record, parser.Index);
        ghost var rest := Scan(commandLine, parser.Index, SupportExtendedArguments);
        ghost var args, seen := Arguments, parsedApp;
        if !IsNullOrWhiteSpace(record.Argument) {
          if parsedApp {
            Arguments := Arguments + [record];
          } else {
            parsedApp := true;
          }
        }
        KeepStep(expected, args, seen, record, rest, Arguments, parsedApp);
        ghost var next := parser.Index;
        parser.SkipWhitespace();
        ScanSkip(commandLine, next, SupportExtendedArguments);
      }
      assert Arguments + [] == Arguments;
    }

    /**
     * One iteration of the parse loop from a non-whitespace character: the flag
     * character, the argument and, after a ':', the extended argument.
     */
    method ParseRecord(parser: ParsingHelper) returns (record: CommandLineArgument)
      requires parser.Valid() && parser.Index < |parser.Text| && !IsWhiteSpace(parser.Text[parser.Index])
      modifies parser
      ensures parser.Valid()
      ensures Scanned(record, parser.Index) == ScanRecord(parser.Text, old(parser.Index), SupportExtendedArguments)
    {
      ghost var i := parser.Index;
      var isFlag := parser.Peek() in FLAG_CHARS;
      if isFlag {
        parser.MoveAhead();
      }
      var argument := ParseArgument(parser, SupportExtendedArguments);
      var extendedArgument: Option<string> := None;
      if parser.Peek() == EXTENDED_ARGUMENT_DELIMITER {
        parser.MoveAhead();
        var extended := ParseArgument(parser, false);
        extendedArgument := Some(extended);
      }
      record := CommandLineArgument(isFlag, argument, extendedArgument);
    }

    /** Scans one argument with the cursor, as `ScanArgument` says. */
    method ParseArgument(parser: ParsingHelper, testForExtendedArgument: bool) returns (r: string)
      requires parser.Valid()
      modifies parser
      ensures parser.Valid()
      ensures Token(r, parser.Index) == ScanArgument(parser.Text, old(parser.Index), testForExtendedArgument)
    {
      if parser.Peek() in QUOTE_CHARS {
        r := parser.ParseQuotedText();
        return;
      }
      var start := parser.Index;
      while !parser.EndOfText()
            && !IsWhiteSpace(parser.Peek())
            && parser.Peek() !in FLAG_CHARS
            && (!testForExtendedArgument || parser.Peek() != EXTENDED_ARGUMENT_DELIMITER)
        invariant parser.Valid() && start <= parser.Index
        invariant UnquotedEnd(parser.Text, parser.Index, testForExtendedArgument)
                    == UnquotedEnd(parser.Text, start, testForExtendedArgument)
        decreases |parser.Text| - parser.Index
      {
        parser.MoveAhead();
      }
      r := parser.Extract(start, parser.Index);
    }

    /** Some non-flag argument matches `argument`. */
    function HasArgument(argument: string, ignoreCase: bool): (b: bool)
      reads this
      ensures b <==> exists k :: 0 <= k < |Arguments| && !Arguments[k].IsFlag
                                 && SameText(Arguments[k].Argument, argument, ignoreCase)
    {
      AnyMatch(Arguments, false, argument, ignoreCase)
    }

    /** Some flag argument matches `flag`. */
    function HasFlagArgument(flag: string, ignoreCase: bool): (b: bool)
      reads this
      ensures b <==> exists k :: 0 <= k < |Arguments| && Arguments[k].IsFlag
                                 && SameText(Arguments[k].Argument, flag, ignoreCase)
    {
      AnyMatch(Arguments, true, flag, ignoreCase)
    }

    /** The first non-flag argument that matches `argument`, or None. */
    function GetArgument(argument: string, ignoreCase: bool): (r: Option<CommandLineArgument>)
      reads this
      ensures r == FirstMatch(Arguments, false, argument, ignoreCase)
      ensures r.Some? ==> exists k :: 0 <= k < |Arguments| && Arguments[k] == r.value
                                     && !r.value.IsFlag && SameText(r.value.Argument, argument, ignoreCase)
                                     && forall j :: 0 <= j < k ==> !Matches(Arguments[j], false, argument, ignoreCase)
      ensures r.None? <==> !HasArgument(argument, ignoreCase)
    {
      FirstMatch(Arguments, false, argument, ignoreCase)
    }

    /** The first flag argument that matches `flag`, or None. */
    function GetFlagArgument(flag: string, ignoreCase: bool): (r: Option<CommandLineArgument>)
      reads this
      ensures r == FirstMatch(Arguments, true, flag, ignoreCase)
      ensures r.Some? ==> exists k :: 0 <= k < |Arguments| && Arguments[k] == r.value
                                     && r.value.IsFlag && SameText(r.value.Argument, flag, ignoreCase)
                                     && forall j :: 0 <= j < k ==> !Matches(Arguments[j], true, flag, ignoreCase)
      ensures r.None? <==> !HasFlagArgument(flag, ignoreCase)
    {
      FirstMatch(Arguments, true, flag, ignoreCase)
    }

    /** The non-flag arguments, in command-line order. */
    function GetArguments(): (r: seq<CommandLineArgument>)
      reads this
      ensures r == Where(Arguments, false)
      ensures forall a :: a in r <==> a in Arguments && !a.IsFlag
      ensures forall a :: multiset(r)[a] == if a.IsFlag then 0 else multiset(Arguments)[a]
    {
      WhereMembers(Arguments, false);
      WhereCounts(Arguments, false);
      Where(Arguments, false)
    }

    /** The flag arguments, in command-line order. */
    function GetFlagArguments(): (r: seq<CommandLineArgument>)
      reads this
      ensures r == Where(Arguments, true)
      ensures forall a :: a in r <==> a in Arguments && a.IsFlag
      ensures forall a :: multiset(r)[a] == if a.IsFlag then multiset(Arguments)[a] else 0
    {
      WhereMembers(Arguments, true);
      WhereCounts(Arguments, true);
      Where(Arguments, true)
    }
  }

  /**
   * What one pass through the list-building step (a record is stored when its
   * argument is not blank and the program name has been seen) does to the
   * invariant of the parse loop: the expected result is the stored arguments
   * followed by what the rest of the scan contributes.
   */
  lemma KeepStep(expected: seq<CommandLineArgument>, args: seq<CommandLineArgument>, parsedApp: bool,
                 a: CommandLineArgument, rest: seq<CommandLineArgument>,
                 args': seq<CommandLineArgument>, parsedApp': bool)
    requires !parsedApp ==> args == []
    requires expected == args + DiscardFirst(Kept([a] + rest), !parsedApp)
    requires var blank := IsNullOrWhiteSpace(a.Argument);
             && args' == (if !blank && parsedApp then args + [a] else args)
             && parsedApp' == (parsedApp || !blank)
    ensures !parsedApp' ==> args' == []
    ensures expected == args' + DiscardFirst(Kept(rest), !parsedApp')
  {
    KeptCons(a, rest);
    StoreStep(expected, args, parsedApp, a, IsNullOrWhiteSpace(a.Argument), Kept(rest), args', parsedApp');
  }

  /** `KeepStep` with the filtered rest of the scan `kept` left abstract. */
  lemma StoreStep(expected: seq<CommandLineArgument>, args: seq<CommandLineArgument>, parsedApp: bool,
                  a: CommandLineArgument, blank: bool, kept: seq<CommandLineArgument>,
                  args': seq<CommandLineArgument>, parsedApp': bool)
    requires !parsedApp ==> args == []
    requires expected == args + DiscardFirst(if blank then kept else [a] + kept, !parsedApp)
    requires args' == (if !blank && parsedApp then args + [a] else args)
    requires parsedApp' == (parsedApp || !blank)
    ensures !parsedApp' ==> args' == []
    ensures expected == args' + DiscardFirst(kept, !parsedApp')
  {
    if !blank {
      if parsedApp {
        AppendAssociative(args, [a], kept);
      } else {
        TailOfAppend([a], kept);
      }
    }
  }

  /** Concatenation is associative. */
  lemma AppendAssociative<T>(a: seq<T>, b: seq<T>, c: seq<T>)
    ensures a + (b + c) == (a + b) + c
  {
  }

  /** A concatenation with a non-empty left part starts with that part's head; the rest follows. */
  lemma TailOfAppend<T>(a: seq<T>, b: seq<T>)
    requires a != []
    ensures (a + b)[0] == a[0] && (a + b)[1..] == a[1..] + b
  {
  }

  /** Filtering a record followed by others: the record is kept exactly when it is not blank. */
  lemma KeptCons(a: CommandLineArgument, rest: seq<CommandLineArgument>)
    ensures Kept([a] + rest) == if IsNullOrWhiteSpace(a.Argument) then Kept(rest) else [a] + Kept(rest)
  {
    TailOfAppend([a], rest);
  }

  /** A scan from a non-whitespace character starts with the record found there. */
  lemma ScanStep(s: string, i: nat, supportExtendedArguments: bool, a: CommandLineArgument, next: nat)
    requires i < |s| && !IsWhiteSpace(s[i])
    requires ScanRecord(s, i, supportExtendedArguments) == Scanned(a, next)
    ensures next <= |s|
    ensures Scan(s, i, supportExtendedArguments) == [a] + Scan(s, next, supportExtendedArguments)
  {
  }

  /** Leading whitespace does not change a scan. */
  lemma ScanSkip(s: string, i: nat, supportExtendedArguments: bool)
    requires i <= |s|
    ensures Scan(s, i, supportExtendedArguments) == Scan(s, SkipWs(s, i), supportExtendedArguments)
  {
  }

}
