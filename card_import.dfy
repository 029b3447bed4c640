/**
 * The parsing half of the card import action: the pasted text is cut into
 * lines, blank lines are dropped, each line is cut at its commas, the first
 * two pieces are trimmed into a front and a back, and entries with an empty
 * or missing side are dropped. An import that leaves no card fails. There is
 * no quoting or escaping: a comma always separates fields.
 */
module CardImport {
  import opened Wrappers
  import opened Text

  /** One `{ front, back }` entry handed on to the bulk-create action. */
  datatype CardInput = CardInput(front: string, back: string)

  /** The error the action raises when no line yields a card. */
  const NoValidCards: string := "No valid cards found in the data"

  /** `line.trim()` is the empty string: the line is white space only. */
  predicate IsBlank(line: string): (b: bool)
    ensures b <==> AllWhitespace(line)
  {
    TrimEmpty(line);
    Trim(line) == []
  }

  /** A side as the parser leaves it: non-empty, comma-free, no surrounding white space. */
  ghost predicate CleanSide(f: string) {
    f != [] && ',' !in f && !IsWhitespace(f[0]) && !IsWhitespace(f[|f| - 1])
  }

  /** The card-level constraints of the bulk-create schema: at least one card, no empty side. */
  ghost predicate ValidBulkCards(cards: seq<CardInput>) {
    |cards| >= 1 && forall c | c in cards :: |c.front| >= 1 && |c.back| >= 1
  }

  /** Both sides of a parsed card are clean. */
  ghost predicate CleanCard(c: CardInput) {
    CleanSide(c.front) && CleanSide(c.back)
  }

  /** Neither side of a card spans two lines. */
  ghost predicate SingleLine(c: CardInput) {
    '\n' !in c.front && '\n' !in c.back
  }

  /** The text of `s` before its first comma (all of `s` when it has none). */
  function BeforeComma(s: string): (r: string)
    ensures |r| <= |s| && r == s[..|r|] && ',' !in r
    ensures |r| < |s| ==> s[|r|] == ','
  {
    s[..IndexOf(s, ',')]
  }

  /** One line to at most one card: none without a comma, and never one with an empty side. */
  function ParseLine(line: string): (r: Option<CardInput>)
    ensures ',' !in line ==> r == None
    ensures r.Some? ==> r.value.front != [] && r.value.back != []
  {
    var fields := Split(line, ',');
    assert ',' !in line ==> |fields| == 1 by {
      if ',' !in line { SplitWithoutSep(line, ','); }
    }
    var front := Trim(fields[0]);
    if |fields| < 2 then None
    else
      var back := Trim(fields[1]);
      if front != [] && back != [] then Some(CardInput(front, back)) else None
  }

  /** A card read from a line has two clean sides. */
  lemma ParseLineClean(line: string)
    ensures ParseLine(line).Some? ==> CleanCard(ParseLine(line).value)
  {
    var fields := Split(line, ',');
    if |fields| >= 2 {
      SplitPieceChars(line, ',', 0);
      SplitPieceChars(line, ',', 1);
      assert ',' !in Trim(fields[0]) && ',' !in Trim(fields[1]);
    }
  }

  /**
   * The card of a line, read off the line itself: none without a comma;
   * otherwise the front is the trimmed text before the first comma, the back
   * the trimmed text between the first and the second comma (or the end),
   * and there is a card exactly when both are non-empty.
   */
  lemma ParseLineByComma(line: string)
    ensures var k := IndexOf(line, ',');
      if k == |line| then ParseLine(line) == None
      else
        var front := Trim(BeforeComma(line));
        var back := Trim(BeforeComma(line[k + 1..]));
        ParseLine(line) == if front != [] && back != [] then Some(CardInput(front, back)) else None
  {
    var k := IndexOf(line, ',');
    SplitFirst(line, ',');
    if k < |line| {
      SplitFirst(line[k + 1..], ',');
    }
  }

  /** A line without a line break gives a card without one. */
  lemma ParseLineSingleLine(line: string)
    requires '\n' !in line && ParseLine(line).Some?
    ensures SingleLine(ParseLine(line).value)
  {
    SplitPieceChars(line, ',', 0);
    SplitPieceChars(line, ',', 1);
  }


  /** The lines that are not blank, in order. */
  function NonBlank(lines: seq<string>): (r: seq<string>)
    ensures |r| <= |lines|
  {
    if lines == [] then []
    else if IsBlank(lines[0]) then NonBlank(lines[1..])
    else [lines[0]] + NonBlank(lines[1..])
  }

  /** Each line to its card, if any, in order. */
  function ParseLines(lines: seq<string>): (r: seq<CardInput>)
    ensures |r| <= |lines|
  {
    FilterMap(ParseLine, lines)
  }


  /** The cards the import produces from the pasted text. */
  function ParseCards(csvData: string): (r: seq<CardInput>)
    ensures |r| <= |NonBlank(Split(csvData, '\n'))|
  {
    ParseLines(NonBlank(Split(csvData, '\n')))
  }

  /** The import: the parsed cards, or the error when there are none. */
  function ImportCards(csvData: string): (r: Result<seq<CardInput>, string>)
    ensures r.Failure? <==> ParseCards(csvData) == []
    ensures r.Failure? ==> r.error == NoValidCards
    ensures r.Success? ==> r.value == ParseCards(csvData) && ValidBulkCards(r.value)
  {
    var cards := ParseCards(csvData);
    ParseLinesClean(NonBlank(Split(csvData, '\n')));
    if |cards| == 0 then Failure(NoValidCards) else Success(cards)
  }

  /** A blank line yields no card, so dropping blank lines first loses nothing. */
  lemma BlankLineYieldsNone(line: string)
    requires IsBlank(line)
    ensures ParseLine(line) == None
  {
    ParseLineByComma(line);
    var front := BeforeComma(line);
    assert Trim(front) == [] by {
      TrimEmpty(line);
      AllWhitespaceSlice(line, 0, |front|);
      TrimEmpty(front);
    }
  }

  /** Filtering a concatenation of line lists filters each part. */
  lemma {:induction false} NonBlankAppend(a: seq<string>, b: seq<string>)
    ensures NonBlank(a + b) == NonBlank(a) + NonBlank(b)
  {
    if a == [] {
      assert a + b == b;
    } else {
      assert (a + b)[0] == a[0] && (a + b)[1..] == a[1..] + b;
      NonBlankAppend(a[1..], b);
      if !IsBlank(a[0]) {
        assert [a[0]] + (NonBlank(a[1..]) + NonBlank(b)) == ([a[0]] + NonBlank(a[1..])) + NonBlank(b);
      }
    }
  }

  /** Parsing a concatenation of line lists parses each part. */
  lemma ParseLinesAppend(a: seq<string>, b: seq<string>)
    ensures ParseLines(a + b) == ParseLines(a) + ParseLines(b)
  {
    FilterMapAppend(ParseLine, a, b);
  }


  /** Cards come out in the order of their lines: text joined at a line break parses part by part. */
  lemma ParseCardsAppend(a: string, b: string)
    ensures ParseCards(a + ['\n'] + b) == ParseCards(a) + ParseCards(b)
  {
    SplitConcat(a, b, '\n');
    NonBlankAppend(Split(a, '\n'), Split(b, '\n'));
    ParseLinesAppend(NonBlank(Split(a, '\n')), NonBlank(Split(b, '\n')));
  }

  /** Text without a line break is one line, giving the card of that line if it has one. */
  lemma ParseCardsOneLine(line: string)
    requires '\n' !in line
    ensures ParseCards(line) == if ParseLine(line).Some? then [ParseLine(line).value] else []
  {
    SplitWithoutSep(line, '\n');
    if IsBlank(line) {
      BlankLineYieldsNone(line);
    } else {
      assert NonBlank([line]) == [line];
    }
  }

  /** Every produced card is clean and lies on one line. */
  lemma {:induction false} ParseLinesSingleLine(lines: seq<string>)
    requires forall i | 0 <= i < |lines| :: '\n' !in lines[i]
    ensures forall c | c in ParseLines(lines) :: SingleLine(c)
  {
    if lines != [] {
      ParseLinesSingleLine(lines[1..]);
      if ParseLine(lines[0]).Some? {
        ParseLineSingleLine(lines[0]);
      }
    }
  }

  /** A line is kept by the blank-line filter exactly when it is an input line that is not blank. */
  lemma {:induction false} NonBlankMembers(lines: seq<string>, l: string)
    ensures l in NonBlank(lines) <==> l in lines && !IsBlank(l)
  {
    if lines != [] {
      NonBlankMembers(lines[1..], l);
      assert l in lines <==> l == lines[0] || l in lines[1..];
    }
  }

  /** Every card parsed from a list of lines is clean. */
  lemma {:induction false} ParseLinesClean(lines: seq<string>)
    ensures forall c | c in ParseLines(lines) :: CleanCard(c)
  {
    if lines != [] {
      ParseLinesClean(lines[1..]);
      ParseLineClean(lines[0]);
    }
  }

  /** No produced side contains a line break. */
  lemma ParseCardsSingleLine(csvData: string)
    ensures forall c | c in ParseCards(csvData) :: SingleLine(c)
  {
    var lines := Split(csvData, '\n');
    var kept := NonBlank(lines);
    forall i | 0 <= i < |kept| ensures '\n' !in kept[i] {
      NonBlankMembers(lines, kept[i]);
      var j :| 0 <= j < |lines| && lines[j] == kept[i];
      SplitPieceChars(csvData, '\n', j);
    }
    ParseLinesSingleLine(kept);
  }

  /** Text made only of white space and line breaks yields no card. */
  lemma {:induction false} WhitespaceOnlyParsesNothing(csvData: string)
    requires AllWhitespace(csvData)
    ensures ParseCards(csvData) == []
    decreases |csvData|
  {
    var k := IndexOf(csvData, '\n');
    if k < |csvData| {
      ParseCardsAtBreak(csvData, k);
      AllWhitespaceSlice(csvData, 0, k);
      AllWhitespaceSlice(csvData, k + 1, |csvData|);
      WhitespaceOnlyParsesNothing(csvData[..k]);
      WhitespaceOnlyParsesNothing(csvData[k + 1..]);
    } else {
      assert csvData[..k] == csvData;
      WhiteLineParsesNothing(csvData);
    }
  }

  /** ... and so its import fails with the "no valid cards" message. */
  lemma WhitespaceOnlyFails(csvData: string)
    requires AllWhitespace(csvData)
    ensures ImportCards(csvData) == Failure(NoValidCards)
  {
    WhitespaceOnlyParsesNothing(csvData);
  }

  /** Cutting the text at a line break cuts the parsed cards there. */
  lemma ParseCardsAtBreak(s: string, k: nat)
    requires k < |s| && s[k] == '\n'
    ensures ParseCards(s) == ParseCards(s[..k]) + ParseCards(s[k + 1..])
  {
    assert s == s[..k] + ['\n'] + s[k + 1..];
    ParseCardsAppend(s[..k], s[k + 1..]);
  }

  /** A single line of white space yields no card. */
  lemma WhiteLineParsesNothing(line: string)
    requires AllWhitespace(line) && '\n' !in line
    ensures ParseCards(line) == []
  {
    assert IsBlank(line) by { TrimEmpty(line); }
    ParseCardsOneLine(line);
    BlankLineYieldsNone(line);
  }

  /** A line ending in a carriage return gives the same card as the line without it. */
  lemma CarriageReturnIgnored(line: string)
    ensures ParseLine(line + ['\r']) == ParseLine(line)
  {
    var fields, fields' := Split(line, ','), Split(line + ['\r'], ',');
    SplitAppendChar(line, '\r', ',');
    var n := |fields|;
    assert |fields'| == n;
    if n >= 2 {
      assert fields'[0] == fields[0];
      if n == 2 {
        assert fields'[1] == fields[1] + ['\r'];
        TrimAppendWhitespace(fields[1], '\r');
      } else {
        assert fields'[1] == fields[1];
      }
    }
  }


  /** Blank lines yield no card, so dropping them before parsing changes nothing. */
  lemma {:induction false} ParseLinesNonBlank(lines: seq<string>)
    ensures ParseLines(NonBlank(lines)) == ParseLines(lines)
  {
    if lines != [] {
      ParseLinesNonBlank(lines[1..]);
      if IsBlank(lines[0]) {
        BlankLineYieldsNone(lines[0]);
      }
    }
  }

  /** Lines that may each carry an extra trailing carriage return parse like the lines without. */
  lemma {:induction false} ParseLinesIgnoreCarriageReturns(lines: seq<string>, lines': seq<string>)
    requires |lines'| == |lines|
    requires forall i | 0 <= i < |lines| :: lines'[i] == lines[i] || lines'[i] == lines[i] + ['\r']
    ensures ParseLines(lines') == ParseLines(lines)
  {
    if lines != [] {
      ParseLinesIgnoreCarriageReturns(lines[1..], lines'[1..]);
      CarriageReturnIgnored(lines[0]);
    }
  }

  /**
   * Text whose lines end in CRLF or LF, in any mix (the last line too may
   * carry a carriage return), imports exactly like the same lines joined
   * with LF alone.
   */
  lemma CrlfLikeLfEverywhere(lines: seq<string>, lines': seq<string>)
    requires |lines'| == |lines|
    requires forall i | 0 <= i < |lines| :: '\n' !in lines[i]
    requires forall i | 0 <= i < |lines| :: lines'[i] == lines[i] || lines'[i] == lines[i] + ['\r']
    ensures ParseCards(Join(lines', '\n')) == ParseCards(Join(lines, '\n'))
  {
    if lines != [] {
      assert forall i | 0 <= i < |lines'| :: '\n' !in lines'[i];
      SplitJoin(lines, '\n');
      SplitJoin(lines', '\n');
      ParseLinesNonBlank(lines);
      ParseLinesNonBlank(lines');
      ParseLinesIgnoreCarriageReturns(lines, lines');
    }
  }

  /** A CRLF line ending imports exactly like an LF line ending. */
  lemma CrlfLikeLf(line: string, rest: string)
    requires '\n' !in line
    ensures ParseCards(line + ['\r', '\n'] + rest) == ParseCards(line + ['\n'] + rest)
  {
    assert line + ['\r', '\n'] + rest == (line + ['\r']) + ['\n'] + rest;
    ParseCardsAppend(line + ['\r'], rest);
    ParseCardsAppend(line, rest);
    assert '\n' !in line + ['\r'];
    ParseCardsOneLine(line + ['\r']);
    ParseCardsOneLine(line);
    CarriageReturnIgnored(line);
  }
}
