/**
 * Properties of the tokenizer and of the query helpers, stated over the pure
 * specification that `CommandLine.ParseCommandLine` is proved to compute.
 */
module CommandLineProperties {
  import opened Wrappers
  import opened Parsing
  import opened ArgumentRecords
  import opened CommandLineParser

  /** No character of `t` ends an unquoted token, and `t` does not open a quote. */
  predicate Plain(t: string, testForExtendedArgument: bool)
  {
    (forall k :: 0 <= k < |t| ==> !StopsUnquoted(t[k], testForExtendedArgument))
    && (t != [] ==> t[0] !in QUOTE_CHARS)
  }

  // ----- One record -----

  /**
   * The fields of a record: it is a flag exactly when it starts with '-' or '/';
   * its argument is the token after that character; it has an extended argument
   * exactly when ':' follows the token, and that is the token after the ':'
   * (in which ':' is an ordinary character).
   */
  lemma ScanRecordFields(s: string, i: nat, supportExtendedArguments: bool)
    requires i < |s| && !IsWhiteSpace(s[i])
    ensures var r := ScanRecord(s, i, supportExtendedArguments);
            var primary := ScanArgument(s, ArgumentStart(s, i), supportExtendedArguments);
            && (r.arg.IsFlag <==> s[i] in FLAG_CHARS)
            && r.arg.Argument == primary.text
            && (r.arg.ExtendedArgument.Some? <==> primary.next < |s| && s[primary.next] == EXTENDED_ARGUMENT_DELIMITER)
            && (r.arg.ExtendedArgument.Some? ==>
                  r.arg.ExtendedArgument.value == ScanArgument(s, primary.next + 1, false).text
                  && r.next == ScanArgument(s, primary.next + 1, false).next)
            && (r.arg.ExtendedArgument.None? ==> r.next == primary.next)
  {
  }

  /**
   * With extended arguments off, an unquoted token never ends just before ':',
   * so only a quoted token can be followed by one.
   */
  lemma {:induction false} DelimiterFollowsOnlyQuotedWithoutSupport(s: string, p: nat)
    requires p <= |s| && !(p < |s| && s[p] in QUOTE_CHARS)
    ensures var t := ScanArgument(s, p, false);
            !(t.next < |s| && s[t.next] == EXTENDED_ARGUMENT_DELIMITER)
  {
    UnquotedArgument(s, p, false);
  }

  /**
   * A record whose primary token is empty (a lone '-' or '/', a flag character
   * followed by another, or a ':' where extended arguments are on) has an empty
   * argument, so it is never stored, whatever follows it.
   */
  lemma EmptyTokenRecord(s: string, i: nat, supportExtendedArguments: bool)
    requires i < |s| && !IsWhiteSpace(s[i])
    requires var p := ArgumentStart(s, i);
             p == |s| || (s[p] !in QUOTE_CHARS && StopsUnquoted(s[p], supportExtendedArguments))
    ensures ScanRecord(s, i, supportExtendedArguments).arg.Argument == []
    ensures IsNullOrWhiteSpace(ScanRecord(s, i, supportExtendedArguments).arg.Argument)
  {
    var p := ArgumentStart(s, i);
    assert UnquotedEnd(s, p, supportExtendedArguments) == p;
  }

  /** A quoted token is taken verbatim, without its quotes, when it is closed. */
  lemma QuotedArgumentVerbatim(q: char, t: string, rest: string, testForExtendedArgument: bool)
    requires q in QUOTE_CHARS
    requires forall k :: 0 <= k < |t| ==> t[k] != q
    ensures ScanArgument([q] + t + [q] + rest, 0, testForExtendedArgument) == Token(t, |t| + 2)
  {
    var s := [q] + t + [q] + rest;
    assert s[0] == q;
    assert forall k :: 1 <= k < |t| + 1 ==> s[k] == t[k - 1];
    assert s[|t| + 1] == q;
    QuoteCloseAt(s, 1, |t| + 1, q);
    assert s[1..|t| + 1] == t;
  }

  /** An unterminated quoted token runs to the end of the text. */
  lemma UnterminatedQuoteRunsToEnd(q: char, t: string, testForExtendedArgument: bool)
    requires q in QUOTE_CHARS
    requires forall k :: 0 <= k < |t| ==> t[k] != q
    ensures ScanArgument([q] + t, 0, testForExtendedArgument) == Token(t, |t| + 1)
  {
    var s := [q] + t;
    assert forall k :: 1 <= k < |s| ==> s[k] == t[k - 1];
    QuoteCloseAt(s, 1, |s|, q);
    assert s[1..] == t;
  }

  /** The quoted span from `i` ends at `j` when no character before `j` is `q` and `j` is the end or `q`. */
  lemma {:induction false} QuoteCloseAt(s: string, i: nat, j: nat, q: char)
    requires i <= j <= |s|
    requires forall k :: i <= k < j ==> s[k] != q
    requires j == |s| || s[j] == q
    ensures QuoteClose(s, i, q) == j
    decreases j - i
  {
    if i < j {
      QuoteCloseAt(s, i + 1, j, q);
    }
  }

  /** An unquoted token made of plain characters is taken whole, up to a stopping character. */
  lemma PlainArgument(t: string, rest: string, testForExtendedArgument: bool)
    requires Plain(t, testForExtendedArgument)
    requires rest == [] || StopsUnquoted(rest[0], testForExtendedArgument)
    ensures ScanArgument(t + rest, 0, testForExtendedArgument) == Token(t, |t|)
  {
    var s := t + rest;
    assert forall k :: 0 <= k < |t| ==> s[k] == t[k];
    if |t| < |s| {
      assert s[|t|] == rest[0];
    }
    UnquotedEndAt(s, 0, |t|, testForExtendedArgument);
    assert s[0..|t|] == t;
  }

  /** The unquoted token from `i` ends at `j` when no character before `j` stops it and `j` does. */
  lemma {:induction false} UnquotedEndAt(s: string, i: nat, j: nat, testForExtendedArgument: bool)
    requires i <= j <= |s|
    requires forall k :: i <= k < j ==> !StopsUnquoted(s[k], testForExtendedArgument)
    requires j == |s| || StopsUnquoted(s[j], testForExtendedArgument)
    ensures UnquotedEnd(s, i, testForExtendedArgument) == j
    decreases j - i
  {
    if i < j {
      UnquotedEndAt(s, i + 1, j, testForExtendedArgument);
    }
  }

  /** A plain token after any prefix is taken whole, up to a stopping character. */
  lemma PlainArgumentAfter(prefix: string, t: string, rest: string, testForExtendedArgument: bool)
    requires Plain(t, testForExtendedArgument)
    requires rest == [] || StopsUnquoted(rest[0], testForExtendedArgument)
    ensures ScanArgument(prefix + t + rest, |prefix|, testForExtendedArgument) == Token(t, |prefix| + |t|)
  {
    assert prefix + t + rest == prefix + (t + rest);
    PlainArgument(t, rest, testForExtendedArgument);
    ShiftArgument(prefix, t + rest, 0, |prefix|, testForExtendedArgument);
  }

  /** A record in terms of its primary token `p` and, after a ':', its extended token `e`. */
  lemma RecordOfTokens(s: string, i: nat, supportExtendedArguments: bool, p: Token, e: Token)
    requires i < |s| && !IsWhiteSpace(s[i])
    requires ScanArgument(s, ArgumentStart(s, i), supportExtendedArguments) == p
    requires CharAt(s, p.next) == EXTENDED_ARGUMENT_DELIMITER ==> p.next < |s| && ScanArgument(s, p.next + 1, false) == e
    ensures ScanRecord(s, i, supportExtendedArguments)
              == if CharAt(s, p.next) == EXTENDED_ARGUMENT_DELIMITER
                 then Scanned(CommandLineArgument(s[i] in FLAG_CHARS, p.text, Some(e.text)), e.next)
                 else Scanned(CommandLineArgument(s[i] in FLAG_CHARS, p.text, None), p.next)
  {
  }

  /** With extended arguments on, `-name:value` (or `/name:value`) is the flag `name` with the extended argument `value`. */
  lemma ExtendedFlagWithSupport(f: char, name: string, value: string, rest: string)
    requires f in FLAG_CHARS
    requires name != [] && Plain(name, true)
    requires Plain(value, false)
    requires rest == [] || StopsUnquoted(rest[0], false)
    ensures ScanRecord([f] + name + [':'] + value + rest, 0, true)
              == Scanned(CommandLineArgument(true, name, Some(value)), |name| + |value| + 2)
  {
    var s := [f] + name + [':'] + value + rest;
    assert s[0] == f && s[|name| + 1] == ':';
    assert ScanArgument(s, 1, true) == Token(name, |name| + 1) by {
      var tail := [':'] + value + rest;
      assert s == [f] + name + tail;
      PlainArgumentAfter([f], name, tail, true);
    }
    assert ScanArgument(s, |name| + 2, false) == Token(value, |name| + |value| + 2) by {
      PlainArgumentAfter([f] + name + [':'], value, rest, false);
    }
    RecordOfTokens(s, 0, true, Token(name, |name| + 1), Token(value, |name| + |value| + 2));
  }

  /** With extended arguments off, `-name:value` is the flag `name:value` with no extended argument. */
  lemma ExtendedFlagWithoutSupport(f: char, name: string, value: string, rest: string)
    requires f in FLAG_CHARS
    requires name != [] && Plain(name, true)
    requires Plain(value, false)
    requires rest == [] || StopsUnquoted(rest[0], false)
    ensures ScanRecord([f] + name + [':'] + value + rest, 0, false)
              == Scanned(CommandLineArgument(true, name + [':'] + value, None), |name| + |value| + 2)
  {
    var s := [f] + name + [':'] + value + rest;
    var nv := name + [':'] + value;
    assert s == [f] + nv + rest;
    assert Plain(nv, false) by {
      forall k | 0 <= k < |nv| ensures !StopsUnquoted(nv[k], false) {
        if k < |name| { assert nv[k] == name[k]; }
        else if k > |name| { assert nv[k] == value[k - |name| - 1]; }
      }
      assert nv[0] == name[0];
    }
    PlainArgumentAfter([f], nv, rest, false);
    if |s| > |nv| + 1 {
      assert s[|nv| + 1] == rest[0];
    }
  }

  /** Scanning an argument at `m` inside a longer text gives the same token, shifted. */
  lemma ShiftArgument(prefix: string, s: string, i: nat, m: nat, testForExtendedArgument: bool)
    requires i <= |s| && m == |prefix| + i
    ensures ScanArgument(prefix + s, m, testForExtendedArgument)
              == var t := ScanArgument(s, i, testForExtendedArgument); Token(t.text, |prefix| + t.next)
  {
    if i < |s| {
      assert (prefix + s)[m] == s[i];
    }
    if i < |s| && s[i] in QUOTE_CHARS {
      ShiftQuotedToken(prefix, s, i, m);
    } else {
      ShiftUnquotedToken(prefix, s, i, m, testForExtendedArgument);
    }
  }

  lemma ShiftQuotedToken(prefix: string, s: string, i: nat, m: nat)
    requires i < |s| && m == |prefix| + i
    ensures QuotedToken(prefix + s, m) == var t := QuotedToken(s, i); Token(t.text, |prefix| + t.next)
  {
    assert (prefix + s)[m] == s[i];
    ShiftQuoteClose(prefix, s, i + 1, m + 1, s[i]);
    var j := QuoteClose(s, i + 1, s[i]);
    SliceAfterPrefix(prefix, s, i + 1, j, m + 1, |prefix| + j);
  }

  lemma ShiftUnquotedToken(prefix: string, s: string, i: nat, m: nat, testForExtendedArgument: bool)
    requires i <= |s| && m == |prefix| + i
    ensures var j := UnquotedEnd(s, i, testForExtendedArgument);
            var n := UnquotedEnd(prefix + s, m, testForExtendedArgument);
            n == |prefix| + j && (prefix + s)[m..n] == s[i..j]
  {
    ShiftUnquotedEnd(prefix, s, i, m, testForExtendedArgument);
    var j := UnquotedEnd(s, i, testForExtendedArgument);
    SliceAfterPrefix(prefix, s, i, j, m, |prefix| + j);
  }

  /** A slice of `s` is the corresponding slice of `prefix + s`. */
  lemma SliceAfterPrefix<T>(prefix: seq<T>, s: seq<T>, i: nat, j: nat, m: nat, n: nat)
    requires i <= j <= |s| && m == |prefix| + i && n == |prefix| + j
    ensures (prefix + s)[m..n] == s[i..j]
  {
    assert forall k :: 0 <= k < j - i ==> (prefix + s)[m..n][k] == s[i..j][k];
  }

  lemma {:induction false} ShiftQuoteClose(prefix: string, s: string, i: nat, m: nat, q: char)
    requires i <= |s| && m == |prefix| + i
    ensures QuoteClose(prefix + s, m, q) == |prefix| + QuoteClose(s, i, q)
    decreases |s| - i
  {
    if i < |s| {
      assert (prefix + s)[m] == s[i];
      if s[i] != q {
        ShiftQuoteClose(prefix, s, i + 1, m + 1, q);
      }
    }
  }

  lemma {:induction false} ShiftUnquotedEnd(prefix: string, s: string, i: nat, m: nat, testForExtendedArgument: bool)
    requires i <= |s| && m == |prefix| + i
    ensures UnquotedEnd(prefix + s, m, testForExtendedArgument) == |prefix| + UnquotedEnd(s, i, testForExtendedArgument)
    decreases |s| - i
  {
    if i < |s| {
      assert (prefix + s)[m] == s[i];
      if !StopsUnquoted(s[i], testForExtendedArgument) {
        ShiftUnquotedEnd(prefix, s, i + 1, m + 1, testForExtendedArgument);
      }
    }
  }

  // ----- Composition -----

  /** Whitespace skipping is forward-only: a prefix shifts its result and changes nothing else. */
  lemma {:induction false} ShiftSkipWs(prefix: string, s: string, i: nat, m: nat)
    requires i <= |s| && m == |prefix| + i
    ensures SkipWs(prefix + s, m) == |prefix| + SkipWs(s, i)
    decreases |s| - i
  {
    if i < |s| {
      assert (prefix + s)[m] == s[i];
      if IsWhiteSpace(s[i]) {
        ShiftSkipWs(prefix, s, i + 1, m + 1);
      }
    }
  }

  /** A record depends only on the text from where it starts. */
  lemma ShiftRecord(prefix: string, s: string, i: nat, m: nat, supportExtendedArguments: bool)
    requires i < |s| && !IsWhiteSpace(s[i]) && m == |prefix| + i
    ensures ScanRecord(prefix + s, m, supportExtendedArguments)
              == var r := ScanRecord(s, i, supportExtendedArguments); Scanned(r.arg, |prefix| + r.next)
  {
    var p := ScanArgument(s, ArgumentStart(s, i), supportExtendedArguments);
    if CharAt(s, p.next) == EXTENDED_ARGUMENT_DELIMITER {
      ShiftExtendedRecord(prefix, s, i, m, supportExtendedArguments, p);
    } else {
      ShiftPlainRecord(prefix, s, i, m, supportExtendedArguments, p);
    }
  }

  /** The primary token of a record, and the character after it, do not depend on a prefix. */
  lemma ShiftPrimary(prefix: string, s: string, i: nat, m: nat, supportExtendedArguments: bool, p: Token)
    requires i < |s| && !IsWhiteSpace(s[i]) && m == |prefix| + i
    requires ScanArgument(s, ArgumentStart(s, i), supportExtendedArguments) == p
    ensures m < |prefix + s| && (prefix + s)[m] == s[i]
    ensures ScanArgument(prefix + s, ArgumentStart(prefix + s, m), supportExtendedArguments)
              == Token(p.text, |prefix| + p.next)
    ensures CharAt(prefix + s, |prefix| + p.next) == CharAt(s, p.next)
  {
    var ps := prefix + s;
    assert ps[m] == s[i];
    var start := ArgumentStart(s, i);
    assert ArgumentStart(ps, m) == |prefix| + start;
    ShiftArgument(prefix, s, start, |prefix| + start, supportExtendedArguments);
    if p.next < |s| {
      assert ps[|prefix| + p.next] == s[p.next];
    }
  }

  lemma ShiftPlainRecord(prefix: string, s: string, i: nat, m: nat, supportExtendedArguments: bool, p: Token)
    requires i < |s| && !IsWhiteSpace(s[i]) && m == |prefix| + i
    requires ScanArgument(s, ArgumentStart(s, i), supportExtendedArguments) == p
    requires CharAt(s, p.next) != EXTENDED_ARGUMENT_DELIMITER
    ensures ScanRecord(prefix + s, m, supportExtendedArguments)
              == var r := ScanRecord(s, i, supportExtendedArguments); Scanned(r.arg, |prefix| + r.next)
  {
    ShiftPrimary(prefix, s, i, m, supportExtendedArguments, p);
    RecordOfTokens(s, i, supportExtendedArguments, p, p);
    RecordOfTokens(prefix + s, m, supportExtendedArguments, Token(p.text, |prefix| + p.next), p);
  }

  lemma ShiftExtendedRecord(prefix: string, s: string, i: nat, m: nat, supportExtendedArguments: bool, p: Token)
    requires i < |s| && !IsWhiteSpace(s[i]) && m == |prefix| + i
    requires ScanArgument(s, ArgumentStart(s, i), supportExtendedArguments) == p
    requires CharAt(s, p.next) == EXTENDED_ARGUMENT_DELIMITER
    ensures ScanRecord(prefix + s, m, supportExtendedArguments)
              == var r := ScanRecord(s, i, supportExtendedArguments); Scanned(r.arg, |prefix| + r.next)
  {
    var q := p.next + 1;
    var e := ScanArgument(s, q, false);
    var pe := Token(p.text, |prefix| + p.next);
    var ee := Token(e.text, |prefix| + e.next);
    ShiftPrimary(prefix, s, i, m, supportExtendedArguments, p);
    ShiftArgument(prefix, s, q, pe.next + 1, false);
    RecordOfTokens(s, i, supportExtendedArguments, p, e);
    RecordOfTokens(prefix + s, m, supportExtendedArguments, pe, ee);
  }

  /** The scan is forward-only: the text before the scan position `m` does not change it. */
  lemma {:induction false} ShiftScan(prefix: string, s: string, i: nat, m: nat, supportExtendedArguments: bool)
    requires i <= |s| && m == |prefix| + i
    ensures Scan(prefix + s, m, supportExtendedArguments) == Scan(s, i, supportExtendedArguments)
    decreases |s| - i
  {
    var j := SkipWs(s, i);
    var mj := |prefix| + j;
    ShiftSkipWs(prefix, s, i, m);
    ScanSkip(prefix + s, m, supportExtendedArguments);
    ScanSkip(s, i, supportExtendedArguments);
    if j < |s| {
      var r := ScanRecord(s, j, supportExtendedArguments);
      var mn := |prefix| + r.next;
      ShiftScanHead(prefix, s, j, mj, supportExtendedArguments, r.arg, r.next, mn);
      ShiftScan(prefix, s, r.next, mn, supportExtendedArguments);
      ShiftScanRecord(prefix, s, j, mj, supportExtendedArguments, r.arg, r.next, mn);
    } else {
      assert mj == |prefix + s| && SkipWs(prefix + s, mj) == mj;
      assert Scan(prefix + s, mj, supportExtendedArguments) == [];
      assert Scan(s, j, supportExtendedArguments) == [];
    }
    assert SkipWs(prefix + s, m) == mj;
    assert Scan(prefix + s, m, supportExtendedArguments) == Scan(prefix + s, mj, supportExtendedArguments);
    assert Scan(s, i, supportExtendedArguments) == Scan(s, j, supportExtendedArguments);
    assert Scan(prefix + s, mj, supportExtendedArguments) == Scan(s, j, supportExtendedArguments);
    JoinEqual(Scan(prefix + s, m, supportExtendedArguments), Scan(prefix + s, mj, supportExtendedArguments),
              Scan(s, i, supportExtendedArguments), Scan(s, j, supportExtendedArguments));
  }

  /** A record of `s` and what follows it scan the same after a prefix, once what follows does. */
  lemma ShiftScanRecord(prefix: string, s: string, j: nat, m: nat, supportExtendedArguments: bool,
                        a: CommandLineArgument, next: nat, mn: nat)
    requires j < |s| && !IsWhiteSpace(s[j]) && m == |prefix| + j
    requires ScanRecord(s, j, supportExtendedArguments) == Scanned(a, next) && mn == |prefix| + next
    requires next <= |s| && Scan(prefix + s, mn, supportExtendedArguments) == Scan(s, next, supportExtendedArguments)
    ensures Scan(prefix + s, m, supportExtendedArguments) == Scan(s, j, supportExtendedArguments)
  {
    ScanStep(s, j, supportExtendedArguments, a, next);
    ShiftScanHead(prefix, s, j, m, supportExtendedArguments, a, next, mn);
    JoinHeads(Scan(prefix + s, m, supportExtendedArguments), Scan(prefix + s, mn, supportExtendedArguments),
              Scan(s, j, supportExtendedArguments), Scan(s, next, supportExtendedArguments), [a]);
  }

  // `JoinEqual` and `JoinHeads` hide the scans behind plain sequence variables, which keeps the
  // shift lemmas above cheap to prove; they state nothing about the tokenizer.

  /** Two sequences equal to equal sequences are equal. */
  lemma JoinEqual<T>(x: seq<T>, x1: seq<T>, y: seq<T>, y1: seq<T>)
    requires x == x1 && y == y1 && x1 == y1
    ensures x == y
  {
  }

  /** Two sequences made of the same head and equal tails are equal. */
  lemma JoinHeads<T>(x: seq<T>, x1: seq<T>, y: seq<T>, y1: seq<T>, h: seq<T>)
    requires x == h + x1 && y == h + y1 && x1 == y1
    ensures x == y
  {
  }

  /** After a prefix, a record of `s` is still the head of the scan, followed by the scan from its end. */
  lemma ShiftScanHead(prefix: string, s: string, j: nat, m: nat, supportExtendedArguments: bool,
                      a: CommandLineArgument, next: nat, mn: nat)
    requires j < |s| && !IsWhiteSpace(s[j]) && m == |prefix| + j
    requires ScanRecord(s, j, supportExtendedArguments) == Scanned(a, next) && mn == |prefix| + next
    ensures next <= |s|
    ensures Scan(prefix + s, m, supportExtendedArguments) == [a] + Scan(prefix + s, mn, supportExtendedArguments)
  {
    ShiftRecord(prefix, s, j, m, supportExtendedArguments);
    assert (prefix + s)[m] == s[j];
    ScanStep(prefix + s, m, supportExtendedArguments, a, mn);
  }

  /** A command line that starts with a whole record scans as that record followed by the records of the rest. */
  lemma ScanCons(tok: string, rest: string, a: CommandLineArgument, supportExtendedArguments: bool)
    requires tok != [] && !IsWhiteSpace(tok[0])
    requires ScanRecord(tok + rest, 0, supportExtendedArguments) == Scanned(a, |tok|)
    ensures Scan(tok + rest, 0, supportExtendedArguments) == [a] + Scan(rest, 0, supportExtendedArguments)
  {
    assert (tok + rest)[0] == tok[0];
    ScanStep(tok + rest, 0, supportExtendedArguments, a, |tok|);
    ShiftScan(tok, rest, 0, |tok|, supportExtendedArguments);
  }

  /** Whitespace before a command line does not change its records. */
  lemma LeadingWhiteSpace(w: string, s: string, supportExtendedArguments: bool)
    requires forall k :: 0 <= k < |w| ==> IsWhiteSpace(w[k])
    ensures Scan(w + s, 0, supportExtendedArguments) == Scan(s, 0, supportExtendedArguments)
  {
    assert forall k :: 0 <= k < |w| ==> (w + s)[k] == w[k];
    SkipWsOver(w + s, 0, |w|);
    ScanSkip(w + s, 0, supportExtendedArguments);
    ScanSkip(w + s, |w|, supportExtendedArguments);
    ShiftScan(w, s, 0, |w|, supportExtendedArguments);
  }

  lemma {:induction false} SkipWsOver(s: string, i: nat, j: nat)
    requires i <= j <= |s|
    requires forall k :: i <= k < j ==> IsWhiteSpace(s[k])
    ensures SkipWs(s, i) == SkipWs(s, j)
    decreases j - i
  {
    if i < j {
      SkipWsOver(s, i + 1, j);
    }
  }

  // ----- The whole parse -----

  /** An empty or all-whitespace command line gives no arguments. */
  lemma BlankCommandLine(s: string, supportExtendedArguments: bool, discardFirst: bool)
    requires forall k :: 0 <= k < |s| ==> IsWhiteSpace(s[k])
    ensures Parse(s, supportExtendedArguments, discardFirst) == []
  {
    assert SkipWs(s, 0) == |s|;
  }

  /** Filtering blank records leaves a scan in which no argument is blank as it is. */
  lemma {:induction false} KeptNoBlank(rs: seq<CommandLineArgument>)
    requires forall k :: 0 <= k < |rs| ==> !IsNullOrWhiteSpace(rs[k].Argument)
    ensures Kept(rs) == rs
  {
    if rs != [] {
      KeptNoBlank(rs[1..]);
      assert rs == [rs[0]] + rs[1..];
    }
  }

  /** Filtering blank records distributes over concatenation, so it keeps scan order. */
  lemma {:induction false} KeptAppend(a: seq<CommandLineArgument>, b: seq<CommandLineArgument>)
    ensures Kept(a + b) == Kept(a) + Kept(b)
    decreases |a|
  {
    if a != [] {
      assert (a + b)[0] == a[0];
      assert (a + b)[1..] == a[1..] + b;
      KeptAppend(a[1..], b);
      if !IsNullOrWhiteSpace(a[0].Argument) {
        assert [a[0]] + (Kept(a[1..]) + Kept(b)) == ([a[0]] + Kept(a[1..])) + Kept(b);
      }
    } else {
      assert a + b == b;
    }
  }

  /**
   * Without discarding, the result is exactly the non-blank records in scan order;
   * with discarding, the first of them is dropped and all the others are kept.
   */
  lemma DiscardFirstToken(s: string, supportExtendedArguments: bool)
    ensures Parse(s, supportExtendedArguments, false) == Kept(Scan(s, 0, supportExtendedArguments))
    ensures var all := Parse(s, supportExtendedArguments, false);
            Parse(s, supportExtendedArguments, true) == if all == [] then [] else all[1..]
  {
  }

  /** Every stored record is one the scan produced and whose argument is not blank. */
  lemma ParsedRecordsWereScanned(s: string, supportExtendedArguments: bool, discardFirst: bool)
    ensures forall a :: a in Parse(s, supportExtendedArguments, discardFirst) ==>
              a in Scan(s, 0, supportExtendedArguments) && !IsNullOrWhiteSpace(a.Argument)
  {
    var ks := Kept(Scan(s, 0, supportExtendedArguments));
    KeptMembers(Scan(s, 0, supportExtendedArguments));
    if discardFirst && ks != [] {
      assert forall a :: a in ks[1..] ==> a in ks;
    }
  }

  // ----- The query helpers -----

  /** Selecting records of one kind distributes over concatenation, so it keeps their order. */
  lemma {:induction false} WhereAppend(a: seq<CommandLineArgument>, b: seq<CommandLineArgument>, isFlag: bool)
    ensures Where(a + b, isFlag) == Where(a, isFlag) + Where(b, isFlag)
    decreases |a|
  {
    if a != [] {
      assert (a + b)[0] == a[0];
      assert (a + b)[1..] == a[1..] + b;
      WhereAppend(a[1..], b, isFlag);
      if a[0].IsFlag == isFlag {
        assert [a[0]] + (Where(a[1..], isFlag) + Where(b, isFlag))
                 == ([a[0]] + Where(a[1..], isFlag)) + Where(b, isFlag);
      }
    } else {
      assert a + b == b;
    }
  }

  /** The non-flag and the flag arguments together are all the arguments, each exactly once. */
  lemma {:induction false} WherePartition(args: seq<CommandLineArgument>)
    ensures multiset(Where(args, false)) + multiset(Where(args, true)) == multiset(args)
  {
    if args != [] {
      var h, t := args[0], args[1..];
      WherePartition(t);
      assert args == [h] + t;
      assert multiset(args) == multiset{h} + multiset(t);
      if h.IsFlag {
        assert Where(args, true) == [h] + Where(t, true);
        assert Where(args, false) == Where(t, false);
      } else {
        assert Where(args, false) == [h] + Where(t, false);
        assert Where(args, true) == Where(t, true);
      }
    }
  }

  /** `HasX` holds exactly when `GetX` finds a record. */
  lemma AnyIffFirst(args: seq<CommandLineArgument>, isFlag: bool, value: string, ignoreCase: bool)
    ensures AnyMatch(args, isFlag, value, ignoreCase) <==> FirstMatch(args, isFlag, value, ignoreCase).Some?
  {
  }

  /** An exact match is also a case-insensitive one. */
  lemma ExactMatchIgnoringCase(a: string, b: string)
    requires SameText(a, b, false)
    ensures SameText(a, b, true)
  {
  }
}
