/**
 * The scan cursor the tokenizer drives (the `ParsingHelper` class of an external
 * library). Its code is not part of this model: the class below follows the
 * contract described in README.md — an index into an immutable text, a peek that
 * yields a sentinel at the end, a saturating advance, whitespace skipping,
 * substring extraction and quoted-text parsing without any escape mechanism.
 */
module Parsing {

  /** What `Peek` returns once the cursor is at the end of the text. */
  const NULL_CHAR: char := '\0'

  /** A fixed whitespace classification: space, tab, LF, VT, FF and CR. */
  predicate IsWhiteSpace(c: char)
  {
    c == ' ' || c == '\t' || c == '\n' || c == '\U{B}' || c == '\U{C}' || c == '\r'
  }

  /** The character at `i`, or the sentinel when `i` is at or past the end. */
  function CharAt(s: string, i: nat): char
  {
    if i < |s| then s[i] else NULL_CHAR
  }

  /** A token taken from the text and the index just after what the scan consumed. */
  datatype Token = Token(text: string, next: nat)

  /** The index of the first non-whitespace character at or after `i`, or `|s|`. */
  function SkipWs(s: string, i: nat): (j: nat)
    requires i <= |s|
    ensures i <= j <= |s|
    ensures j == |s| || !IsWhiteSpace(s[j])
    decreases |s| - i
  {
    if i < |s| && IsWhiteSpace(s[i]) then SkipWs(s, i + 1) else i
  }

  /** `SkipWs` moves over whitespace only. */
  lemma {:induction false} SkipWsSpan(s: string, i: nat)
    requires i <= |s|
    ensures forall k :: i <= k < SkipWs(s, i) ==> IsWhiteSpace(s[k])
    decreases |s| - i
  {
    if i < |s| && IsWhiteSpace(s[i]) {
      SkipWsSpan(s, i + 1);
    }
  }

  /** The index of the first occurrence of `q` at or after `i`, or `|s|` when there is none. */
  function QuoteClose(s: string, i: nat, q: char): (j: nat)
    requires i <= |s|
    ensures i <= j <= |s|
    ensures j == |s| || s[j] == q
    decreases |s| - i
  {
    if i < |s| && s[i] != q then QuoteClose(s, i + 1, q) else i
  }

  /** `QuoteClose` moves over characters other than `q` only. */
  lemma {:induction false} QuoteCloseSpan(s: string, i: nat, q: char)
    requires i <= |s|
    ensures forall k :: i <= k < QuoteClose(s, i, q) ==> s[k] != q
    decreases |s| - i
  {
    if i < |s| && s[i] != q {
      QuoteCloseSpan(s, i + 1, q);
    }
  }

  /**
   * What quoted-text parsing does from index `i`: the character there is the
   * quote; the text runs to the next identical quote, which is consumed, or to
   * the end of the text when there is no closing quote.
   */
  function QuotedToken(s: string, i: nat): (t: Token)
    requires i <= |s|
    ensures i <= t.next <= |s|
    ensures i < |s| ==> i < t.next
  {
    var q := CharAt(s, i);
    var start := if i < |s| then i + 1 else i;
    var j := QuoteClose(s, start, q);
    Token(s[start..j], if j < |s| then j + 1 else j)
  }

  /**
   * From a quote at `i`, the token is the text up to the next identical quote;
   * that quote is consumed; with no closing quote the token runs to the end.
   */
  lemma QuotedTokenShape(s: string, i: nat)
    requires i < |s|
    ensures var t := QuotedToken(s, i);
            && (forall k :: 0 <= k < |t.text| ==> t.text[k] != s[i])
            && i + 1 + |t.text| <= |s| && t.text == s[i + 1..i + 1 + |t.text|]
            && (i + 1 + |t.text| < |s| ==> s[i + 1 + |t.text|] == s[i] && t.next == i + 2 + |t.text|)
            && (i + 1 + |t.text| == |s| ==> t.next == |s|)
  {
    QuoteCloseSpan(s, i + 1, s[i]);
  }

  class ParsingHelper {
    const Text: string
    var Index: nat

    ghost predicate Valid()
      reads this
    {
      Index <= |Text|
    }

    constructor (text: string)
      ensures Valid() && Text == text && Index == 0
    {
      Text := text;
      Index := 0;
    }

    predicate EndOfText(): (r: bool)
      reads this
      ensures !r ==> Index < |Text| && Peek() == Text[Index]
    {
      Index >= |Text|
    }

    /** The current character, or the sentinel at the end; never fails. */
    function Peek(): (c: char)
      reads this
      ensures Index < |Text| ==> c == Text[Index]
      ensures Index >= |Text| ==> c == NULL_CHAR
    {
      CharAt(Text, Index)
    }

    /** Moves one character ahead; does nothing at the end of the text. */
    method MoveAhead()
      requires Valid()
      modifies this
      ensures Valid()
      ensures Index == if old(Index) < |Text| then old(Index) + 1 else old(Index)
    {
      if Index < |Text| {
        Index := Index + 1;
      }
    }

    /** Moves over consecutive whitespace. */
    method SkipWhitespace()
      requires Valid()
      modifies this
      ensures Valid() && Index == SkipWs(Text, old(Index))
      ensures Index == |Text| || !IsWhiteSpace(Text[Index])
    {
      while IsWhiteSpace(Peek())
        invariant Valid() && old(Index) <= Index
        invariant SkipWs(Text, Index) == SkipWs(Text, old(Index))
        decreases |Text| - Index
      {
        MoveAhead();
      }
    }

    /** The text in `[start, end)`; a range outside the text is the caller's error. */
    function Extract(start: nat, end: nat): (r: string)
      requires start <= end <= |Text|
      reads this
      ensures |r| == end - start
      ensures forall k :: 0 <= k < |r| ==> r[k] == Text[start + k]
    {
      Text[start..end]
    }

    /**
     * Takes the current character as the quote, moves past it, reads up to the
     * next identical quote or to the end, moves past the closing quote if there
     * is one, and returns the text in between.
     */
    method ParseQuotedText() returns (r: string)
      requires Valid()
      modifies this
      ensures Valid()
      ensures Token(r, Index) == QuotedToken(Text, old(Index))
    {
      var quote := Peek();
      MoveAhead();
      var start := Index;
      while !EndOfText() && Peek() != quote
        invariant Valid() && start <= Index
        invariant QuoteClose(Text, Index, quote) == QuoteClose(Text, start, quote)
        decreases |Text| - Index
      {
        MoveAhead();
      }
      r := Extract(start, Index);
      MoveAhead();
    }
  }
}
