/**
 * Writing records back as command-line text, and the round trip: a well-formed
 * list of written pieces scans, and parses, as exactly the records they stand for.
 */
module CommandLineRendering {
  import opened Wrappers
  import opened Parsing
  import opened ArgumentRecords
  import opened CommandLineParser
  import opened CommandLineProperties

  /** A token as written: bare, or between two identical quote characters. */
  datatype Word = Bare(text: string) | Quoted(quote: char, text: string)

  /**
   * One record as written: an optional flag character, the argument, an optional
   * ':' with the extended argument, then the whitespace before the next piece.
   */
  datatype Piece = Piece(flag: Option<char>, word: Word, value: Option<Word>, gap: string)

  function WordText(w: Word): string
  {
    match w
    case Bare(t) => t
    case Quoted(q, t) => [q] + t + [q]
  }

  function FlagText(flag: Option<char>): string
  {
    if flag.Some? then [flag.value] else []
  }

  function ValueText(value: Option<Word>): string
  {
    if value.Some? then [EXTENDED_ARGUMENT_DELIMITER] + WordText(value.value) else []
  }

  /** The text of a piece, without the gap after it. */
  function PieceText(p: Piece): string
  {
    FlagText(p.flag) + WordText(p.word) + ValueText(p.value)
  }

  /** The command line the pieces spell out, each followed by its gap. */
  function Render(ps: seq<Piece>): string
  {
    if ps == [] then [] else PieceText(ps[0]) + (ps[0].gap + Render(ps[1..]))
  }

  /** A rendering is the first piece, its gap, then the rendering of the rest. */
  lemma RenderCons(p: Piece, ps: seq<Piece>)
    ensures Render([p] + ps) == PieceText(p) + (p.gap + Render(ps))
  {
    assert ([p] + ps)[1..] == ps;
  }

  // The renderings of two, three and four pieces, spelled out: instances of `RenderCons`
  // kept as separate lemmas so that each concrete rendering below stays a small proof.
  lemma RenderTwo(a: Piece, b: Piece)
    ensures Render([a, b]) == PieceText(a) + (a.gap + (PieceText(b) + b.gap))
  {
    RenderCons(b, []);
    RenderCons(a, [b]);
    assert [a, b] == [a] + [b] && [b] == [b] + [];
    assert b.gap + [] == b.gap;
  }

  lemma RenderFour(a: Piece, b: Piece, c: Piece, d: Piece)
    ensures Render([a, b, c, d])
              == PieceText(a) + (a.gap + (PieceText(b) + (b.gap + (PieceText(c) + (c.gap + (PieceText(d) + d.gap))))))
  {
    RenderThree(b, c, d);
    RenderCons(a, [b, c, d]);
    assert [a, b, c, d] == [a] + [b, c, d];
  }

  lemma RenderThree(a: Piece, b: Piece, c: Piece)
    ensures Render([a, b, c]) == PieceText(a) + (a.gap + (PieceText(b) + (b.gap + (PieceText(c) + c.gap))))
  {
    RenderCons(c, []);
    RenderCons(b, [c]);
    RenderCons(a, [b, c]);
    assert [a, b, c] == [a] + [b, c] && [b, c] == [b] + [c] && [c] == [c] + [];
    assert c.gap + [] == c.gap;
  }

  /** Rendering distributes over concatenation of pieces. */
  lemma {:induction false} RenderAppend(a: seq<Piece>, b: seq<Piece>)
    ensures Render(a + b) == Render(a) + Render(b)
    decreases |a|
  {
    if a != [] {
      var t, g, ra, rb := PieceText(a[0]), a[0].gap, Render(a[1..]), Render(b);
      var c := a + b;
      TailOfAppend(a, b);
      RenderAppend(a[1..], b);
      assert Render(c) == t + (g + (ra + rb));
      assert Render(a) == t + (g + ra);
      RegroupTail(t, g, ra, rb);
    } else {
      assert a + b == b;
    }
  }

  lemma RegroupTail<T>(t: seq<T>, g: seq<T>, x: seq<T>, y: seq<T>)
    ensures t + (g + (x + y)) == (t + (g + x)) + y
  {
  }

  /** The record a piece stands for. */
  function RecordOf(p: Piece): CommandLineArgument
  {
    CommandLineArgument(p.flag.Some?, p.word.text, if p.value.Some? then Some(p.value.value.text) else None)
  }

  function Records(ps: seq<Piece>): (rs: seq<CommandLineArgument>)
    ensures |rs| == |ps|
  {
    if ps == [] then [] else [RecordOf(ps[0])] + Records(ps[1..])
  }

  /** The records of concatenated pieces are the concatenated records. */
  lemma {:induction false} RecordsAppend(a: seq<Piece>, b: seq<Piece>)
    ensures Records(a + b) == Records(a) + Records(b)
    decreases |a|
  {
    if a != [] {
      RecordsAppend(a[1..], b);
      TailOfAppend(a, b);
      AppendAssociative([RecordOf(a[0])], Records(a[1..]), Records(b));
    } else {
      assert a + b == b;
    }
  }

  /** A bare word has no character that ends it early; a quoted word does not contain its quote. */
  predicate GoodWord(w: Word, testForExtendedArgument: bool)
  {
    match w
    case Bare(t) => Plain(t, testForExtendedArgument)
    case Quoted(q, t) => q in QUOTE_CHARS && forall k :: 0 <= k < |t| ==> t[k] != q
  }

  /**
   * A piece that reads back as its record: a real flag character, a non-blank
   * argument, an extended argument only where ':' ends the argument, and a gap of
   * whitespace.
   */
  predicate GoodPiece(p: Piece, supportExtendedArguments: bool)
  {
    && (p.flag.Some? ==> p.flag.value in FLAG_CHARS)
    && GoodWord(p.word, supportExtendedArguments)
    && !IsNullOrWhiteSpace(p.word.text)
    && (p.value.Some? ==> GoodWord(p.value.value, false) && (p.word.Bare? ==> supportExtendedArguments))
    && forall k :: 0 <= k < |p.gap| ==> IsWhiteSpace(p.gap[k])
  }

  /** Every piece is good, and a piece with no gap after it is the last or is followed by a flag. */
  predicate WellFormed(ps: seq<Piece>, supportExtendedArguments: bool)
  {
    ps == [] ||
    (&& GoodPiece(ps[0], supportExtendedArguments)
     && (ps[0].gap != [] || |ps| == 1 || ps[1].flag.Some?)
     && WellFormed(ps[1..], supportExtendedArguments))
  }

  /**
   * Well-formed lists concatenate to a well-formed list when the last piece of
   * the first has a gap or the second starts with a flag.
   */
  lemma {:induction false} WellFormedAppend(a: seq<Piece>, b: seq<Piece>, supportExtendedArguments: bool)
    requires WellFormed(a, supportExtendedArguments) && WellFormed(b, supportExtendedArguments)
    requires a == [] || b == [] || a[|a| - 1].gap != [] || b[0].flag.Some?
    ensures WellFormed(a + b, supportExtendedArguments)
    decreases |a|
  {
    if a != [] {
      WellFormedAppend(a[1..], b, supportExtendedArguments);
      TailOfAppend(a, b);
      if |a| > 1 {
        assert (a + b)[1] == a[1];
      } else if b != [] {
        assert (a + b)[1] == b[0];
      }
    } else {
      assert a + b == b;
    }
  }

  /** A good word after any prefix is scanned as its text, up to where it was written to end. */
  lemma WordToken(prefix: string, w: Word, rest: string, testForExtendedArgument: bool)
    requires GoodWord(w, testForExtendedArgument)
    requires w.Quoted? || rest == [] || StopsUnquoted(rest[0], testForExtendedArgument)
    ensures ScanArgument(prefix + WordText(w) + rest, |prefix|, testForExtendedArgument)
              == Token(w.text, |prefix| + |WordText(w)|)
  {
    match w
    case Bare(t) =>
      PlainArgumentAfter(prefix, t, rest, testForExtendedArgument);
    case Quoted(q, t) =>
      QuotedArgumentVerbatim(q, t, rest, testForExtendedArgument);
      assert prefix + WordText(w) + rest == prefix + ([q] + t + [q] + rest);
      ShiftArgument(prefix, [q] + t + [q] + rest, 0, |prefix|, testForExtendedArgument);
  }

  /** A good word that is not blank starts with neither whitespace nor a flag character. */
  lemma WordFirst(w: Word, testForExtendedArgument: bool)
    requires GoodWord(w, testForExtendedArgument) && w.text != []
    ensures WordText(w) != [] && !IsWhiteSpace(WordText(w)[0]) && WordText(w)[0] !in FLAG_CHARS
  {
  }

  /** The first character of `f + w + t`, where `f` is empty or one character and `w` is not empty. */
  lemma FirstOfJoin(f: string, w: string, t: string, s: string)
    requires |f| <= 1 && w != [] && s == f + w + t
    ensures s != [] && s[0] == if f == [] then w[0] else f[0]
  {
    if f == [] {
      assert s == w + t;
    }
  }

  /** A good piece starts with its flag character when it has one, and with no whitespace. */
  lemma PieceStart(p: Piece, rest: string, supportExtendedArguments: bool, s: string)
    requires GoodPiece(p, supportExtendedArguments)
    requires s == PieceText(p) + rest
    ensures PieceText(p) != [] && s[0] == PieceText(p)[0] && !IsWhiteSpace(s[0])
    ensures s[0] in FLAG_CHARS <==> p.flag.Some?
    ensures ArgumentStart(s, 0) == |FlagText(p.flag)|
  {
    var f := FlagText(p.flag);
    var w := WordText(p.word);
    var v := ValueText(p.value);
    assert p.word.text != [];
    WordFirst(p.word, supportExtendedArguments);
    FirstOfJoin(f, w, v, PieceText(p));
    FirstOfJoin(f, w, v + rest, s);
  }

  /** The primary token of a good piece is its word. */
  lemma PiecePrimary(p: Piece, rest: string, supportExtendedArguments: bool, m: nat, n: nat)
    requires GoodPiece(p, supportExtendedArguments)
    requires rest == [] || IsWhiteSpace(rest[0]) || rest[0] in FLAG_CHARS
    requires m == |FlagText(p.flag)| && n == m + |WordText(p.word)|
    ensures ScanArgument(PieceText(p) + rest, m, supportExtendedArguments) == Token(p.word.text, n)
  {
    var f := FlagText(p.flag);
    var v := ValueText(p.value);
    assert PieceText(p) + rest == f + WordText(p.word) + (v + rest);
    if v != [] {
      assert (v + rest)[0] == EXTENDED_ARGUMENT_DELIMITER;
    } else {
      assert v + rest == rest;
    }
    WordToken(f, p.word, v + rest, supportExtendedArguments);
  }

  /** After the word of a piece with an extended argument come ':' and the extended argument. */
  lemma PieceValue(p: Piece, rest: string, n: nat, q: nat)
    requires p.value.Some? && GoodWord(p.value.value, false)
    requires rest == [] || IsWhiteSpace(rest[0]) || rest[0] in FLAG_CHARS
    requires n == |FlagText(p.flag)| + |WordText(p.word)| && q == n + 1
    ensures var s := PieceText(p) + rest;
            && n < |s| && s[n] == EXTENDED_ARGUMENT_DELIMITER
            && ScanArgument(s, q, false) == Token(p.value.value.text, |PieceText(p)|)
  {
    var e := p.value.value;
    var f, w, x := FlagText(p.flag), WordText(p.word), WordText(e);
    var pre := f + w + [EXTENDED_ARGUMENT_DELIMITER];
    DelimiterAfter(f, w, EXTENDED_ARGUMENT_DELIMITER, x, rest);
    assert PieceText(p) == f + w + ([EXTENDED_ARGUMENT_DELIMITER] + x);
    WordToken(pre, e, rest, false);
  }

  /** In `f + w + ([c] + x) + rest`, `c` sits just after `w`, and the text regroups around it. */
  lemma DelimiterAfter<T>(f: seq<T>, w: seq<T>, c: T, x: seq<T>, rest: seq<T>)
    ensures f + w + ([c] + x) + rest == (f + w + [c]) + x + rest
    ensures (f + w + ([c] + x) + rest)[|f| + |w|] == c
  {
    var s := f + w + ([c] + x) + rest;
    assert s == (f + w) + ([c] + (x + rest));
  }

  /** After the word of a piece without an extended argument comes the rest, which is not ':'. */
  lemma PieceNoValue(p: Piece, rest: string, n: nat)
    requires p.value.None?
    requires rest == [] || IsWhiteSpace(rest[0]) || rest[0] in FLAG_CHARS
    requires n == |FlagText(p.flag)| + |WordText(p.word)|
    ensures CharAt(PieceText(p) + rest, n) != EXTENDED_ARGUMENT_DELIMITER
  {
    var s := PieceText(p) + rest;
    assert n == |PieceText(p)|;
    if rest != [] {
      assert s[n] == rest[0];
    }
  }

  /** The record scanned from index 0, given its flag character, its primary token and what follows it. */
  lemma RecordAt(s: string, supportExtendedArguments: bool, isFlag: bool, m: nat, n: nat,
                 text: string, value: Option<string>, end: nat)
    requires s != [] && !IsWhiteSpace(s[0]) && (s[0] in FLAG_CHARS <==> isFlag) && ArgumentStart(s, 0) == m
    requires ScanArgument(s, m, supportExtendedArguments) == Token(text, n)
    requires value.Some? ==> n < |s| && s[n] == EXTENDED_ARGUMENT_DELIMITER && ScanArgument(s, n + 1, false) == Token(value.value, end)
    requires value.None? ==> CharAt(s, n) != EXTENDED_ARGUMENT_DELIMITER && end == n
    ensures ScanRecord(s, 0, supportExtendedArguments) == Scanned(CommandLineArgument(isFlag, text, value), end)
  {
    if value.Some? {
      RecordOfTokens(s, 0, supportExtendedArguments, Token(text, n), Token(value.value, end));
    } else {
      RecordOfTokens(s, 0, supportExtendedArguments, Token(text, n), Token(text, n));
    }
  }

  /** Followed by whitespace, a flag character or nothing, a good piece scans as its record. */
  lemma PieceRecord(p: Piece, rest: string, supportExtendedArguments: bool)
    requires GoodPiece(p, supportExtendedArguments)
    requires rest == [] || IsWhiteSpace(rest[0]) || rest[0] in FLAG_CHARS
    ensures PieceText(p) != [] && !IsWhiteSpace(PieceText(p)[0])
    ensures ScanRecord(PieceText(p) + rest, 0, supportExtendedArguments) == Scanned(RecordOf(p), |PieceText(p)|)
  {
    var s := PieceText(p) + rest;
    var m := |FlagText(p.flag)|;
    var n := m + |WordText(p.word)|;
    var value := if p.value.Some? then Some(p.value.value.text) else None;
    PieceStart(p, rest, supportExtendedArguments, s);
    PiecePrimary(p, rest, supportExtendedArguments, m, n);
    if p.value.Some? {
      PieceValue(p, rest, n, n + 1);
    } else {
      PieceNoValue(p, rest, n);
    }
    RecordAt(s, supportExtendedArguments, p.flag.Some?, m, n, p.word.text, value, |PieceText(p)|);
  }

  /**
   * The delimiter test after the primary token does not look at whether extended
   * arguments are on: with them off, a closed quoted token followed by ':' still
   * takes the plain word after the ':' as its extended argument.
   */
  lemma QuotedDelimiterWithoutSupport(q: char, t: string, v: string, rest: string)
    requires q in QUOTE_CHARS && forall k :: 0 <= k < |t| ==> t[k] != q
    requires !IsNullOrWhiteSpace(t) && Plain(v, false)
    requires rest == [] || IsWhiteSpace(rest[0]) || rest[0] in FLAG_CHARS
    ensures ScanRecord([q] + t + [q] + ([EXTENDED_ARGUMENT_DELIMITER] + v) + rest, 0, false)
              == Scanned(CommandLineArgument(false, t, Some(v)), |t| + |v| + 3)
  {
    var p := Piece(None, Quoted(q, t), Some(Bare(v)), []);
    assert PieceText(p) == [q] + t + [q] + ([EXTENDED_ARGUMENT_DELIMITER] + v);
    PieceRecord(p, rest, false);
  }

  /** A rendering that starts with a flag starts with its flag character. */
  lemma RenderStartsWithFlag(ps: seq<Piece>)
    requires ps != [] && ps[0].flag.Some?
    ensures Render(ps) != [] && Render(ps)[0] == ps[0].flag.value
  {
    var p := ps[0];
    assert Render(ps) == [p.flag.value] + (WordText(p.word) + ValueText(p.value) + (p.gap + Render(ps[1..])));
  }

  /** Round trip, scan level: the rendering of well-formed pieces scans as their records, in order. */
  lemma {:induction false} ScanRender(ps: seq<Piece>, supportExtendedArguments: bool)
    requires WellFormed(ps, supportExtendedArguments)
    ensures Scan(Render(ps), 0, supportExtendedArguments) == Records(ps)
    decreases |ps|
  {
    if ps != [] {
      var p := ps[0];
      var tail := Render(ps[1..]);
      var rest := p.gap + tail;
      assert rest == [] || IsWhiteSpace(rest[0]) || rest[0] in FLAG_CHARS by {
        if p.gap != [] {
          assert rest[0] == p.gap[0];
        } else if |ps| > 1 {
          RenderStartsWithFlag(ps[1..]);
          assert rest == tail;
        }
      }
      PieceRecord(p, rest, supportExtendedArguments);
      ScanCons(PieceText(p), rest, RecordOf(p), supportExtendedArguments);
      ScanRender(ps[1..], supportExtendedArguments);
      LeadingWhiteSpace(p.gap, tail, supportExtendedArguments);
    }
  }

  /** No record of well-formed pieces has a blank argument. */
  lemma {:induction false} RecordsNotBlank(ps: seq<Piece>, supportExtendedArguments: bool)
    requires WellFormed(ps, supportExtendedArguments)
    ensures forall k :: 0 <= k < |ps| ==> !IsNullOrWhiteSpace(Records(ps)[k].Argument)
    decreases |ps|
  {
    if ps != [] {
      RecordsNotBlank(ps[1..], supportExtendedArguments);
      forall k | 0 <= k < |ps| ensures !IsNullOrWhiteSpace(Records(ps)[k].Argument) {
        if k > 0 {
          assert Records(ps)[k] == Records(ps[1..])[k - 1];
        }
      }
    }
  }

  /**
   * Round trip, parse level: after any leading whitespace, the rendering of
   * well-formed pieces parses as their records; dropping the program name drops
   * the first of them.
   */
  lemma ParseRender(lead: string, ps: seq<Piece>, supportExtendedArguments: bool)
    requires forall k :: 0 <= k < |lead| ==> IsWhiteSpace(lead[k])
    requires WellFormed(ps, supportExtendedArguments)
    ensures Parse(lead + Render(ps), supportExtendedArguments, false) == Records(ps)
    ensures Parse(lead + Render(ps), supportExtendedArguments, true) == if ps == [] then [] else Records(ps)[1..]
  {
    ScanRender(ps, supportExtendedArguments);
    LeadingWhiteSpace(lead, Render(ps), supportExtendedArguments);
    RecordsNotBlank(ps, supportExtendedArguments);
    KeptNoBlank(Records(ps));
  }
}
