/**
 * The scenarios of the repository's unit tests, derived from the round trip:
 * each test's command line is the rendering of well-formed pieces, so it parses
 * as their records, and the query helpers answer on those records as the tests
 * expect.
 */
module CommandLineScenarios {
  import opened Wrappers
  import opened Parsing
  import opened ArgumentRecords
  import opened CommandLineParser
  import opened CommandLineRendering

  /** A command line that renders well-formed pieces parses as their records, with or without the first. */
  lemma ParsesAs(line: string, lead: string, ps: seq<Piece>, supportExtendedArguments: bool, rs: seq<CommandLineArgument>)
    requires forall k :: 0 <= k < |lead| ==> IsWhiteSpace(lead[k])
    requires lead + Render(ps) == line && WellFormed(ps, supportExtendedArguments) && Records(ps) == rs
    ensures Parse(line, supportExtendedArguments, false) == rs
    ensures Parse(line, supportExtendedArguments, true) == if rs == [] then [] else rs[1..]
  {
    ParseRender(lead, ps, supportExtendedArguments);
  }

  /** Two texts that differ, ignoring case, at one position do not match ignoring case. */
  lemma DiffersIgnoringCase(a: string, b: string, k: nat)
    requires k < |a| && k < |b| && ToLower(a[k]) != ToLower(b[k])
    ensures !SameText(a, b, true)
  {
  }

  /** When every record is a flag, there are no plain arguments and the flags are all the records. */
  lemma {:induction false} OnlyFlags(args: seq<CommandLineArgument>)
    requires forall k :: 0 <= k < |args| ==> args[k].IsFlag
    ensures Where(args, true) == args && Where(args, false) == []
    decreases |args|
  {
    if args != [] {
      OnlyFlags(args[1..]);
      assert args == [args[0]] + args[1..];
    }
  }

  // ----- Plain and quoted arguments, one with an extended argument -----

  const ArgumentsLine: string := "abc \"def ghi\" \"jkl\":abcdef"

  const ArgumentsPieces: seq<Piece> :=
    [Piece(None, Bare("abc"), None, " "),
     Piece(None, Quoted('"', "def ghi"), None, " "),
     Piece(None, Quoted('"', "jkl"), Some(Bare("abcdef")), "")]

  const ArgumentsRecords: seq<CommandLineArgument> :=
    [CommandLineArgument(false, "abc", None),
     CommandLineArgument(false, "def ghi", None),
     CommandLineArgument(false, "jkl", Some("abcdef"))]

  lemma ArgumentsLineParts()
    ensures ArgumentsLine == "abc" + (" " + ("\"def ghi\"" + (" " + (("\"jkl\"" + ":abcdef") + ""))))
  {
  }

  lemma ArgumentsPieceTexts()
    ensures PieceText(ArgumentsPieces[0]) == "abc"
    ensures PieceText(ArgumentsPieces[1]) == "\"def ghi\""
  {
  }

  lemma ArgumentsLastPieceText()
    ensures PieceText(ArgumentsPieces[2]) == "\"jkl\"" + ":abcdef"
  {
    var p := ArgumentsPieces[2];
    assert WordText(p.word) == "\"jkl\"";
    assert ValueText(p.value) == ":abcdef";
  }

  lemma ArgumentsRendering()
    ensures Render(ArgumentsPieces) == ArgumentsLine
  {
    var ps := ArgumentsPieces;
    RenderThree(ps[0], ps[1], ps[2]);
    ArgumentsPieceTexts();
    ArgumentsLastPieceText();
    ArgumentsLineParts();
    assert ps == [ps[0], ps[1], ps[2]];
  }

  lemma ArgumentsWellFormed()
    ensures WellFormed(ArgumentsPieces, true)
  {
  }

  lemma ArgumentsPiecesRecords()
    ensures Records(ArgumentsPieces) == ArgumentsRecords
  {
  }

  /** The line parses as two plain arguments and a quoted one with the extended argument `abcdef`. */
  lemma ArgumentsParse()
    ensures Parse(ArgumentsLine, true, false) == ArgumentsRecords
    ensures Parse(ArgumentsLine, true, true) == ArgumentsRecords[1..]
  {
    ArgumentsRendering();
    ArgumentsWellFormed();
    ArgumentsPiecesRecords();
    assert [] + Render(ArgumentsPieces) == ArgumentsLine;
    ParsesAs(ArgumentsLine, [], ArgumentsPieces, true, ArgumentsRecords);
  }

  /** Each argument is found as an argument and not as a flag. */
  lemma ArgumentsFound(cl: CommandLine)
    requires cl.Arguments == ArgumentsRecords
    ensures cl.HasArgument("abc", false) && cl.HasArgument("def ghi", false) && cl.HasArgument("jkl", false)
  {
  }

  lemma ArgumentsNotFlags(cl: CommandLine)
    requires cl.Arguments == ArgumentsRecords
    ensures !cl.HasFlagArgument("abc", false) && !cl.HasFlagArgument("def ghi", false) && !cl.HasFlagArgument("jkl", false)
  {
  }

  /** Case matters unless it is ignored. */
  lemma ArgumentsCase(cl: CommandLine)
    requires cl.Arguments == ArgumentsRecords
    ensures !cl.HasArgument("Abc", false) && cl.HasArgument("Abc", true)
  {
  }

  lemma ArgumentsGetExact(cl: CommandLine)
    requires cl.Arguments == ArgumentsRecords
    ensures cl.GetArgument("abc", false).Some? && cl.GetArgument("ABC", false).None?
  {
  }

  lemma ArgumentsGetIgnoringCase(cl: CommandLine)
    requires cl.Arguments == ArgumentsRecords
    ensures cl.GetArgument("ABC", true).Some?
  {
    assert Matches(ArgumentsRecords[0], false, "ABC", true);
  }

  lemma ArgumentsGetMissing(cl: CommandLine)
    requires cl.Arguments == ArgumentsRecords
    ensures cl.GetArgument("XYZ", true).None?
  {
    DiffersIgnoringCase("abc", "XYZ", 0);
    DiffersIgnoringCase("jkl", "XYZ", 0);
  }

  // ----- Flags, run together or separated, some with extended arguments -----

  function Flag(f: char, name: string, gap: string): Piece
  {
    Piece(Some(f), Bare(name), None, gap)
  }

  function FlagWith(f: char, name: string, value: Word, gap: string): Piece
  {
    Piece(Some(f), Bare(name), Some(value), gap)
  }

  function FlagRecord(name: string, value: Option<string>): CommandLineArgument
  {
    CommandLineArgument(true, name, value)
  }

  /** The command line `-a/b/c-d -e:arg/f:arg/g:arg-h:arg -i /j -k:"a b c"/l:"a b c" /m-n-o/p`, written in parts. */
  const FlagsLine: string :=
    "-a/b/c-d " + ("-e:arg/f:arg" + ("/g:arg-h:arg " + ("-i /j " + ("-k:\"a b c\"/l:\"a b c\" " + "/m-n-o/p"))))

  const FlagsGroup1: seq<Piece> := [Flag('-', "a", ""), Flag('/', "b", ""), Flag('/', "c", ""), Flag('-', "d", " ")]
  const FlagsGroup2: seq<Piece> := [FlagWith('-', "e", Bare("arg"), ""), FlagWith('/', "f", Bare("arg"), "")]
  const FlagsGroup3: seq<Piece> := [FlagWith('/', "g", Bare("arg"), ""), FlagWith('-', "h", Bare("arg"), " ")]
  const FlagsGroup4: seq<Piece> := [Flag('-', "i", " "), Flag('/', "j", " ")]
  const FlagsGroup5: seq<Piece> :=
    [FlagWith('-', "k", Quoted('"', "a b c"), ""), FlagWith('/', "l", Quoted('"', "a b c"), " ")]
  const FlagsGroup6: seq<Piece> := [Flag('/', "m", ""), Flag('-', "n", ""), Flag('-', "o", ""), Flag('/', "p", "")]

  const FlagsPieces: seq<Piece> :=
    FlagsGroup1 + (FlagsGroup2 + (FlagsGroup3 + (FlagsGroup4 + (FlagsGroup5 + FlagsGroup6))))

  /** Sixteen flags, `a` to `p`; `e` to `h` carry `arg` and `k` and `l` carry `a b c`. */
  const FlagsRecords: seq<CommandLineArgument> :=
    [FlagRecord("a", None), FlagRecord("b", None), FlagRecord("c", None), FlagRecord("d", None)]
    + ([FlagRecord("e", Some("arg")), FlagRecord("f", Some("arg"))]
    + ([FlagRecord("g", Some("arg")), FlagRecord("h", Some("arg"))]
    + ([FlagRecord("i", None), FlagRecord("j", None)]
    + ([FlagRecord("k", Some("a b c")), FlagRecord("l", Some("a b c"))]
    + [FlagRecord("m", None), FlagRecord("n", None), FlagRecord("o", None), FlagRecord("p", None)]))))

  lemma FlagsGroup1Reads()
    ensures WellFormed(FlagsGroup1, true)
    ensures Records(FlagsGroup1) == [FlagRecord("a", None), FlagRecord("b", None), FlagRecord("c", None), FlagRecord("d", None)]
  {
  }

  lemma FlagsGroup2Reads()
    ensures WellFormed(FlagsGroup2, true)
    ensures Records(FlagsGroup2) == [FlagRecord("e", Some("arg")), FlagRecord("f", Some("arg"))]
  {
  }

  lemma FlagsGroup3Reads()
    ensures WellFormed(FlagsGroup3, true)
    ensures Records(FlagsGroup3) == [FlagRecord("g", Some("arg")), FlagRecord("h", Some("arg"))]
  {
  }

  lemma FlagsGroup4Reads()
    ensures WellFormed(FlagsGroup4, true)
    ensures Records(FlagsGroup4) == [FlagRecord("i", None), FlagRecord("j", None)]
  {
  }

  lemma FlagsGroup5Reads()
    ensures WellFormed(FlagsGroup5, true)
    ensures Records(FlagsGroup5) == [FlagRecord("k", Some("a b c")), FlagRecord("l", Some("a b c"))]
  {
  }

  lemma FlagsGroup6Reads()
    ensures WellFormed(FlagsGroup6, true)
    ensures Records(FlagsGroup6) == [FlagRecord("m", None), FlagRecord("n", None), FlagRecord("o", None), FlagRecord("p", None)]
  {
  }

  // Each group's rendering is shown in two steps: `FlagsGroupNRendering` reduces `Render` to a
  // concatenation of literals and `FlagsGroupNText` evaluates that concatenation; the split keeps
  // both proofs small.

  lemma FlagsGroup1Rendering()
    ensures Render(FlagsGroup1) == "-a/b/c-d "
  {
    var g := FlagsGroup1;
    RenderFour(g[0], g[1], g[2], g[3]);
    assert g == [g[0], g[1], g[2], g[3]];
    assert PieceText(g[0]) == "-a";
    assert PieceText(g[1]) == "/b";
    assert PieceText(g[2]) == "/c";
    assert PieceText(g[3]) == "-d";
    FlagsGroup1Text();
  }

  lemma FlagsGroup1Text()
    ensures "-a" + ("" + ("/b" + ("" + ("/c" + ("" + ("-d" + " ")))))) == "-a/b/c-d "
  {
  }

  lemma FlagsGroup2Rendering()
    ensures Render(FlagsGroup2) == "-e:arg/f:arg"
  {
    var g := FlagsGroup2;
    RenderTwo(g[0], g[1]);
    assert g == [g[0], g[1]];
    assert PieceText(g[0]) == "-e:arg";
    assert PieceText(g[1]) == "/f:arg";
    FlagsGroup2Text();
  }

  lemma FlagsGroup2Text()
    ensures "-e:arg" + ("" + ("/f:arg" + "")) == "-e:arg/f:arg"
  {
  }

  lemma FlagsGroup3Rendering()
    ensures Render(FlagsGroup3) == "/g:arg-h:arg "
  {
    var g := FlagsGroup3;
    RenderTwo(g[0], g[1]);
    assert g == [g[0], g[1]];
    assert PieceText(g[0]) == "/g:arg";
    assert PieceText(g[1]) == "-h:arg";
    FlagsGroup3Text();
  }

  lemma FlagsGroup3Text()
    ensures "/g:arg" + ("" + ("-h:arg" + " ")) == "/g:arg-h:arg "
  {
  }

  lemma FlagsGroup4Rendering()
    ensures Render(FlagsGroup4) == "-i /j "
  {
    var g := FlagsGroup4;
    RenderTwo(g[0], g[1]);
    assert g == [g[0], g[1]];
    assert PieceText(g[0]) == "-i";
    assert PieceText(g[1]) == "/j";
    FlagsGroup4Text();
  }

  lemma FlagsGroup4Text()
    ensures "-i" + (" " + ("/j" + " ")) == "-i /j "
  {
  }

  lemma FlagsGroup5Rendering()
    ensures Render(FlagsGroup5) == "-k:\"a b c\"/l:\"a b c\" "
  {
    var g := FlagsGroup5;
    RenderTwo(g[0], g[1]);
    assert g == [g[0], g[1]];
    assert PieceText(g[0]) == "-k:\"a b c\"";
    assert PieceText(g[1]) == "/l:\"a b c\"";
    FlagsGroup5Text();
  }

  lemma FlagsGroup5Text()
    ensures "-k:\"a b c\"" + ("" + ("/l:\"a b c\"" + " ")) == "-k:\"a b c\"/l:\"a b c\" "
  {
  }

  lemma FlagsGroup6Rendering()
    ensures Render(FlagsGroup6) == "/m-n-o/p"
  {
    var g := FlagsGroup6;
    RenderFour(g[0], g[1], g[2], g[3]);
    assert g == [g[0], g[1], g[2], g[3]];
    assert PieceText(g[0]) == "/m";
    assert PieceText(g[1]) == "-n";
    assert PieceText(g[2]) == "-o";
    assert PieceText(g[3]) == "/p";
    FlagsGroup6Text();
  }

  lemma FlagsGroup6Text()
    ensures "/m" + ("" + ("-n" + ("" + ("-o" + ("" + ("/p" + "")))))) == "/m-n-o/p"
  {
  }

  lemma FlagsRendering()
    ensures Render(FlagsPieces) == FlagsLine
  {
    var g1, g2, g3, g4, g5, g6 := FlagsGroup1, FlagsGroup2, FlagsGroup3, FlagsGroup4, FlagsGroup5, FlagsGroup6;
    RenderAppend(g5, g6);
    RenderAppend(g4, g5 + g6);
    RenderAppend(g3, g4 + (g5 + g6));
    RenderAppend(g2, g3 + (g4 + (g5 + g6)));
    RenderAppend(g1, g2 + (g3 + (g4 + (g5 + g6))));
    FlagsGroup1Rendering();
    FlagsGroup2Rendering();
    FlagsGroup3Rendering();
    FlagsGroup4Rendering();
    FlagsGroup5Rendering();
    FlagsGroup6Rendering();
  }

  lemma FlagsWellFormed()
    ensures WellFormed(FlagsPieces, true)
    ensures Records(FlagsPieces) == FlagsRecords
  {
    var g1, g2, g3, g4, g5, g6 := FlagsGroup1, FlagsGroup2, FlagsGroup3, FlagsGroup4, FlagsGroup5, FlagsGroup6;
    FlagsGroup1Reads();
    FlagsGroup2Reads();
    FlagsGroup3Reads();
    FlagsGroup4Reads();
    FlagsGroup5Reads();
    FlagsGroup6Reads();
    WellFormedAppend(g5, g6, true);
    WellFormedAppend(g4, g5 + g6, true);
    WellFormedAppend(g3, g4 + (g5 + g6), true);
    WellFormedAppend(g2, g3 + (g4 + (g5 + g6)), true);
    WellFormedAppend(g1, g2 + (g3 + (g4 + (g5 + g6))), true);
    RecordsAppend(g5, g6);
    RecordsAppend(g4, g5 + g6);
    RecordsAppend(g3, g4 + (g5 + g6));
    RecordsAppend(g2, g3 + (g4 + (g5 + g6)));
    RecordsAppend(g1, g2 + (g3 + (g4 + (g5 + g6))));
  }

  /** The line parses as the sixteen flags, in order. */
  lemma FlagsParse()
    ensures Parse(FlagsLine, true, false) == FlagsRecords
  {
    FlagsRendering();
    FlagsWellFormed();
    assert [] + Render(FlagsPieces) == FlagsLine;
    ParsesAs(FlagsLine, [], FlagsPieces, true, FlagsRecords);
  }

  /** Every record is a flag, so no plain argument is found and the flags are all the records. */
  lemma FlagsKinds(cl: CommandLine)
    requires cl.Arguments == FlagsRecords
    ensures forall k :: 0 <= k < 16 ==> cl.HasFlagArgument(FlagsRecords[k].Argument, false)
    ensures forall v :: !cl.HasArgument(v, false)
    ensures cl.GetArguments() == [] && cl.GetFlagArguments() == FlagsRecords
  {
    assert forall k :: 0 <= k < |FlagsRecords| ==> FlagsRecords[k].IsFlag;
    OnlyFlags(FlagsRecords);
    forall k | 0 <= k < 16 ensures cl.HasFlagArgument(FlagsRecords[k].Argument, false) {
      assert Matches(cl.Arguments[k], true, FlagsRecords[k].Argument, false);
    }
  }

  /** Flag lookup is case-sensitive unless case is ignored, and finds no flag that was not given. */
  lemma FlagsLookup(cl: CommandLine)
    requires cl.Arguments == FlagsRecords
    ensures !cl.HasFlagArgument("A", false) && cl.HasFlagArgument("A", true)
    ensures !cl.HasFlagArgument("q", false) && !cl.HasFlagArgument("r", false)
  {
    assert Matches(cl.Arguments[0], true, "A", true);
  }

  // ----- The ':' delimiter, with extended arguments off and on -----

  const ModesLine: string := "-mode:read -mode2:write"
  const PaddedModesLine: string := "  -mode:read -mode2:write  "

  const ModesPieces: seq<Piece> := [Flag('-', "mode:read", " "), Flag('-', "mode2:write", "")]
  const ExtendedModesPieces: seq<Piece> :=
    [FlagWith('-', "mode", Bare("read"), " "), FlagWith('-', "mode2", Bare("write"), "  ")]

  const ModesRecords: seq<CommandLineArgument> := [FlagRecord("mode:read", None), FlagRecord("mode2:write", None)]
  const ExtendedModesRecords: seq<CommandLineArgument> :=
    [FlagRecord("mode", Some("read")), FlagRecord("mode2", Some("write"))]

  lemma ModesRendering()
    ensures Render(ModesPieces) == ModesLine
  {
    var ps := ModesPieces;
    RenderTwo(ps[0], ps[1]);
    assert ps == [ps[0], ps[1]];
  }

  lemma ModesReads()
    ensures WellFormed(ModesPieces, false) && Records(ModesPieces) == ModesRecords
  {
  }

  lemma ExtendedModesRendering()
    ensures Render(ExtendedModesPieces) == "-mode:read" + (" " + ("-mode2:write" + "  "))
  {
    var ps := ExtendedModesPieces;
    RenderTwo(ps[0], ps[1]);
    assert ps == [ps[0], ps[1]];
    assert PieceText(ps[0]) == "-mode:read";
    assert PieceText(ps[1]) == "-mode2:write";
  }

  lemma PaddedModesLineParts()
    ensures PaddedModesLine == "  " + ("-mode:read" + (" " + ("-mode2:write" + "  ")))
  {
  }

  lemma ExtendedModesReads()
    ensures WellFormed(ExtendedModesPieces, true) && Records(ExtendedModesPieces) == ExtendedModesRecords
  {
  }

  /** With extended arguments off, ':' is part of the flag name. */
  lemma ModesParse()
    ensures Parse(ModesLine, false, false) == ModesRecords
  {
    ModesRendering();
    ModesReads();
    assert [] + Render(ModesPieces) == ModesLine;
    ParsesAs(ModesLine, [], ModesPieces, false, ModesRecords);
  }

  /** With extended arguments on, ':' splits each flag from its extended argument; leading and trailing blanks are ignored. */
  lemma ExtendedModesParse()
    ensures Parse(PaddedModesLine, true, false) == ExtendedModesRecords
  {
    ExtendedModesRendering();
    PaddedModesLineParts();
    ExtendedModesReads();
    ParsesAs(PaddedModesLine, "  ", ExtendedModesPieces, true, ExtendedModesRecords);
  }

  /** Either way both records are flags, so there are no plain arguments. */
  lemma ModesKinds(cl: CommandLine)
    requires cl.Arguments == ModesRecords || cl.Arguments == ExtendedModesRecords
    ensures cl.GetArguments() == [] && cl.GetFlagArguments() == cl.Arguments
  {
    OnlyFlags(cl.Arguments);
  }
}
