# Flashcard study session and card import, in Dafny

This project models the two pieces of logic in a flashcard application:

- **The study-session engine.** This is the client component that runs one review pass over a deck's cards. It holds six pieces of state:
  - the cursor `currentIndex`;
  - `isFlipped`;
  - `isCompleted`;
  - the answer counters `stats`;
  - the working order `shuffledCards`;
  - the set `knownCardIds` of cards answered correctly.

  The user acts on it with flip, answer, previous, next, shuffle and reset. From the state it derives:
  - the remaining (not yet known) cards;
  - the current card;
  - the progress bar;
  - two scores.

  In `study_session.dfy` this is a class `Session`. Each handler is a method that computes the whole transition from the state before it and then sets every field at once, as React applies a handler's batched updates together. The value-level invariant `Inv` and its step lemmas (`InitialInv`, `AnswerStep`, `ShuffleStep`) carry the proofs the methods rely on.
- **The card import parser.** This is the pure part of the import action:
  - the pasted text is cut at line breaks;
  - blank lines are dropped;
  - each line is cut at its commas;
  - the first two pieces are trimmed into a front and a back;
  - entries with an empty or missing side are dropped;
  - an import that leaves no card fails with "No valid cards found in the data".

  This is in `card_import.dfy`. It rests on a model of JavaScript's `split` and `trim` in `text.dfy`.

Other files:
- `cards.dfy` holds the card record and the two order-preserving filters the session uses (unknown and known cards), with their lemmas.
- `percent.dfy` holds the integer arithmetic of the progress bar and of `Math.round`.
- `wrappers.dfy` holds `Option`, `Result` and a generic filter-map.

## Model

| member | source | states |
|---|---|---|
| StudySession.KnownIdsInDeck | src/components/StudySessionClient.tsx:59-66 | Under the session invariant, every known id is the id of a card of the deck. |
| StudySession.InitialInv | src/components/StudySessionClient.tsx:35-38 | When the working order is any reordering of a deck with unique ids, and nothing is known and no answer is counted, the invariant holds and every card remains. |
| StudySession.AnswerStep | src/components/StudySessionClient.tsx:51-66 | Answering the i-th remaining card counts the answer once, so total = correct + incorrect is kept. A correct answer marks exactly that card's not-yet-known id, so the known set grows by one. Exactly that card leaves the remaining cards, the others keep their order, and the invariant (correct = number of known ids, remaining + known = deck size) is kept. An incorrect answer leaves the known set and the remaining cards as they were. |
| StudySession.ShuffleStep | src/components/StudySessionClient.tsx:107-113 | The remaining cards reordered, followed by the known cards, make a reordering of the working order. Its remaining cards are exactly the new order, every known card sits behind them, and the invariant is kept. |
| StudySession.Session.Remaining | src/components/StudySessionClient.tsx:41 | `remainingCards` holds only cards of the working order whose id is not known, and is no longer than the working order. It is the unknown-cards filter, whose membership, order and count are pinned by `Cards.UnknownMembers`, `Cards.UnknownRemove` and `Cards.UnknownCount`. |
| StudySession.Session.CurrentCard | src/components/StudySessionClient.tsx:42 | The card under the cursor is a card of the working order whose id is not known. |
| StudySession.Session.Progress | src/components/StudySessionClient.tsx:43-45 | Progress is at most 100. For a non-empty deck it is 100 exactly when no card remains. |
| StudySession.Session.Score | src/components/StudySessionClient.tsx:270 | The in-session score (correct answers over deck size, rounded) is at most 100, and is 100 once every card of a non-empty deck is known. |
| StudySession.Session.FinalScore | src/components/StudySessionClient.tsx:188 | The completion score (correct answers over attempts, rounded) is at most 100. With no incorrect answer it is 100, or 0 when nothing was answered. |
| StudySession.Session.constructor | src/components/StudySessionClient.tsx:27-38 | Mounting with a reordering of the deck gives a valid session: cursor 0, not flipped, not completed, zero counters, no known id, every card remaining. |
| StudySession.Session.Flip | src/components/StudySessionClient.tsx:47-49 | Only `isFlipped` changes, and it is negated. Validity and progress are kept. |
| StudySession.Session.Answer | src/components/StudySessionClient.tsx:51-80 | The counters grow as in `AnswerStep`. A correct answer adds exactly the current card's id and removes exactly that card from the remaining ones. The cursor advances by one when another card follows in the new remaining list, and then a correct answer skips the card that slid into the current slot. Otherwise it wraps to 0 when more than one card remains. Either move clears `isFlipped`. The session completes exactly when at most one card remains afterwards, even after an incorrect answer. Validity is kept and progress never decreases. |
| StudySession.Session.Previous | src/components/StudySessionClient.tsx:82-87 | Moves back one and clears `isFlipped` when not on the first card, and otherwise does nothing. Counters, known ids and progress are untouched. |
| StudySession.Session.Next | src/components/StudySessionClient.tsx:89-94 | Moves forward one and clears `isFlipped` when not on the last remaining card, and otherwise does nothing. Counters, known ids and progress are untouched. |
| StudySession.Session.Shuffle | src/components/StudySessionClient.tsx:107-116 | The new working order is the given order of the remaining cards followed by the known ones. It is a reordering of the old working order, its remaining cards are exactly the given order, and every known card sits behind them. Cursor 0, not flipped, and counters, known ids and progress unchanged. |
| StudySession.Session.Reset | src/components/StudySessionClient.tsx:96-105 | The session starts over on the given reordering of the deck: cursor 0, not flipped, not completed, zero counters, no known id. |
| StudySession.Session.CompleteIfExhausted | src/components/StudySessionClient.tsx:172-184 | A loaded session with no remaining card becomes completed. In a valid session this never changes the flag, because a running session always has a card under the cursor. |
| StudySession.CompletesWithCardLeft | src/components/StudySessionClient.tsx:69-79 | With two cards, one correct answer on the first completes the session while the second card is still unanswered, at 50% progress. |
| StudySession.CompletesAfterWrongAnswer | src/components/StudySessionClient.tsx:69-79 | With one card, an incorrect answer completes the session with nothing known, counters (0, 1, 1), progress 0 and completion score 0. |
| Cards.UnknownMembers | src/components/StudySessionClient.tsx:41 | A card is remaining exactly when it is in the working order and its id is not known. |
| Cards.KnownMembers | src/components/StudySessionClient.tsx:112 | A card is in the known part exactly when it is in the working order and its id is known. |
| Cards.UnknownAppend | src/components/StudySessionClient.tsx:41 | Filtering a concatenation filters each part. |
| Cards.PartitionIsPermutation | src/components/StudySessionClient.tsx:109-113 | The unknown and the known cards of a sequence together are that sequence, up to order. |
| Cards.UnknownRemove | src/components/StudySessionClient.tsx:65-66 | With unique ids, marking the i-th remaining card's id removes exactly that card from the remaining ones. |
| Cards.UniqueIdsPermutation | src/db/schema.ts:13 | Unique ids (the primary key) survive any reordering of the cards. |
| Cards.Unknown | src/components/StudySessionClient.tsx:41 | The order-preserving filter of the remaining cards: never longer than its input. Its meaning is `UnknownMembers` (a card is kept exactly when its id is not known), `UnknownAppend` and `PartitionIsPermutation`. |
| Cards.Known | src/components/StudySessionClient.tsx:112 | The order-preserving filter of the known cards: never longer than its input. Its meaning is `KnownMembers` (a card is kept exactly when its id is known), and with `Unknown` it partitions the sequence (`PartitionIsPermutation`). |
| Cards.MarkKnown | src/components/StudySessionClient.tsx:59-66 | In a reordering of a deck with unique ids, the i-th remaining card's id is not yet known and belongs to the deck. Marking it shortens the remaining cards by exactly that card. |
| Cards.UnknownFirst | src/components/StudySessionClient.tsx:107-113 | A reordering of the unknown cards followed by the known cards is a reordering of the sequence. Its unknown cards are exactly that reordering, and the known cards come last. |
| Cards.UnknownCount | src/components/StudySessionClient.tsx:41-45 | With unique ids, the remaining cards number the cards minus those whose id is known. |
| Percent.RoundedPercent | src/components/StudySessionClient.tsx:188 | `Math.round(num / den * 100)` guarded by `den > 0`: 0 for no denominator, at most 100 when num ≤ den, and 100 when num = den > 0. |
| Percent.RoundedBounds | src/components/StudySessionClient.tsx:270 | The rounded percentage is the integer nearest to 100 num / den, ties going up. |
| Percent.Progress | src/components/StudySessionClient.tsx:45 | The progress ratio: 0 for an empty deck, at most 100, below 100 while a card is unknown, and 100 when all are known. |
| Percent.ProgressBounds | src/components/StudySessionClient.tsx:45 | The modelled progress is 100 known / total rounded down. |
| Percent.ProgressMonotonic | src/components/StudySessionClient.tsx:44-45 | More known cards never make the progress bar shorter. |
| Text.IndexOf | src/actions/card-actions.ts:145 | The position of the first separator, or the length when there is none. |
| Text.Split | src/actions/card-actions.ts:143 | JavaScript `split` with a one-character separator gives at least one piece. `JoinSplit` and `SplitJoin` make joining its inverse, and `SplitPieceChars` shows every piece is separator-free and made of the text's characters. |
| Text.TrimStart | src/actions/card-actions.ts:145 | A suffix of the text whose dropped prefix is all white space and which does not start with white space. |
| Text.TrimEnd | src/actions/card-actions.ts:145 | A prefix of the text whose dropped suffix is all white space and which does not end with white space. |
| Text.Trim | src/actions/card-actions.ts:145 | The trimmed text is the slice of the input left after dropping white space at both ends. When non-empty it neither starts nor ends with white space, and it holds only characters of the input. |
| Text.TrimEmpty | src/actions/card-actions.ts:143 | A text trims to the empty string exactly when it is all white space. |
| Text.JoinSplit | src/actions/card-actions.ts:143 | Splitting at a separator and joining again gives the text back. |
| Text.SplitJoin | src/actions/card-actions.ts:143 | Joining pieces free of the separator and splitting again gives the pieces back. |
| Text.SplitWithoutSep | src/actions/card-actions.ts:143 | A text without the separator is a single piece. |
| Text.SplitConcat | src/actions/card-actions.ts:143 | Splitting two texts joined at a separator splits each. |
| Text.SplitFirst | src/actions/card-actions.ts:145 | The first piece is the text before the first separator. A second piece exists exactly when the separator occurs, and the later pieces split what follows it. |
| Text.SplitPieceChars | src/actions/card-actions.ts:143-145 | Every character of a piece is a character of the text and is not the separator. |
| Text.SplitAppendChar | src/actions/card-actions.ts:143-145 | Appending a character other than the separator extends the last piece only. |
| Text.TrimAppendWhitespace | src/actions/card-actions.ts:145 | Trailing white space does not change the trimmed text. |
| CardImport.BeforeComma | src/actions/card-actions.ts:145 | The longest comma-free prefix of a text: it is a prefix, has no comma, and is followed by a comma when shorter than the text. |
| CardImport.ParseLine | src/actions/card-actions.ts:144-147 | A line without a comma gives no card, and a card never has an empty side. `ParseLineByComma` pins it completely: front before the first comma, back between the first and second, both trimmed. |
| CardImport.IsBlank | src/actions/card-actions.ts:143 | A line fails the `line.trim()` filter exactly when it is white space only. |
| CardImport.NonBlank | src/actions/card-actions.ts:143 | The blank-line filter is never longer than its input. `NonBlankMembers` shows it keeps exactly the lines that are not blank, and `NonBlankAppend` that it keeps their order. |
| CardImport.ParseLineByComma | src/actions/card-actions.ts:144-147 | A line without a comma gives no card. Otherwise the front is the trimmed text before the first comma and the back the trimmed text between the first and second comma (anything after is ignored), and there is a card exactly when both are non-empty. |
| CardImport.ParseLineClean | src/actions/card-actions.ts:144-147 | A card read from a line has a non-empty, comma-free front and back, neither starting nor ending with white space. |
| CardImport.ParseLineSingleLine | src/actions/card-actions.ts:143-145 | A card read from a line without a line break has no line break in either side. |
| CardImport.BlankLineYieldsNone | src/actions/card-actions.ts:143 | A blank line gives no card, so the blank-line filter never drops a card. |
| CardImport.NonBlankMembers | src/actions/card-actions.ts:143 | A line is kept by the blank-line filter exactly when it is an input line that is not blank. |
| CardImport.NonBlankAppend | src/actions/card-actions.ts:143 | The blank-line filter handles a concatenation part by part. |
| CardImport.ParseLinesAppend | src/actions/card-actions.ts:144-147 | Parsing a concatenation of lines parses each part, so cards keep the order of their lines. |
| CardImport.ParseLines | src/actions/card-actions.ts:144-147 | There are at most as many cards as lines. |
| CardImport.ParseCards | src/actions/card-actions.ts:143-147 | There are at most as many cards as non-blank lines. |
| CardImport.ParseCardsAppend | src/actions/card-actions.ts:143-147 | Text joined at a line break parses as the cards of the first part followed by those of the second. |
| CardImport.ParseCardsAtBreak | src/actions/card-actions.ts:143-147 | Cutting the text at any line break cuts the card list there. |
| CardImport.ParseCardsOneLine | src/actions/card-actions.ts:143-147 | Text without a line break gives the card of that single line, if it has one. |
| CardImport.ParseLinesClean | src/actions/card-actions.ts:144-147 | Every card parsed from a list of lines has two clean sides. |
| CardImport.ParseLinesSingleLine | src/actions/card-actions.ts:143-147 | Lines without line breaks give cards without line breaks. |
| CardImport.ParseCardsSingleLine | src/actions/card-actions.ts:143-147 | No side of an imported card contains a line break. |
| CardImport.CarriageReturnIgnored | src/actions/card-actions.ts:145 | A line ending in a carriage return gives the same card as the line without it. |
| CardImport.CrlfLikeLf | src/actions/card-actions.ts:143-145 | A CRLF ending the first line imports exactly like an LF there, whatever text follows. |
| CardImport.ParseLinesNonBlank | src/actions/card-actions.ts:143-147 | Dropping blank lines before parsing changes no card, because a blank line never yields one. |
| CardImport.ParseLinesIgnoreCarriageReturns | src/actions/card-actions.ts:144-147 | Lines that may each carry an extra trailing carriage return parse to the same cards as the lines without. |
| CardImport.CrlfLikeLfEverywhere | src/actions/card-actions.ts:143-147 | Text whose lines end in CRLF or LF, in any mix (the last line included), imports exactly like the same lines joined with LF alone. |
| CardImport.WhitespaceOnlyParsesNothing | src/actions/card-actions.ts:143-147 | Text made only of white space and line breaks gives no card. |
| CardImport.WhiteLineParsesNothing | src/actions/card-actions.ts:143 | A single line of white space gives no card. |
| CardImport.WhitespaceOnlyFails | src/actions/card-actions.ts:149-151 | An import of white space only fails with the "no valid cards" message. |
| CardImport.ImportCards | src/actions/card-actions.ts:140-151 | The import fails exactly when no card is parsed, and then with "No valid cards found in the data". Otherwise it hands on the parsed cards, which meet the bulk-create schema's card constraints: at least one card, and every front and back of length at least 1. |
| Wrappers.FilterMapAppend | src/actions/card-actions.ts:144-147 | Mapping and filtering a concatenation handles each part on its own. |

## Left out

- Randomness: the `Math.random` comparator sorts on mount, on reset and on shuffle are not modelled. Each becomes an `order` parameter that is only required to be a reordering (equal multisets) of what the source sorts. Nothing is claimed about the distribution.
- React mechanics are left out: `useState`/`useEffect` scheduling, setter batching, re-renders, and the keydown listener with its guards (input focus, completed session, shuffle only with more than one remaining card). Each handler is one atomic transition. The guards, including the shuffle button being disabled at one remaining card, belong to the caller.
- The loading screen while `shuffledCards` is still empty is folded into the constructor: mounting and the effect that fills the working order are one step. The render-time completion rule is the separate method `CompleteIfExhausted`.
- StudySession.Session.Answer: requires a running, loaded session, because only the study screen (shown while not loading and not completed) offers the answer buttons, and it reads the current card's sides. The source's `currentCard &&` guards for a missing card are therefore never exercised.
- StudySession.Session.Progress: the source computes an exact floating-point ratio. The model floors it to an integer percentage, which keeps its bounds and its ordering but not its fractional part.
- Percent.RoundedPercent: `Math.round` of a floating-point quotient is modelled exactly on rationals as floor(x + 1/2). Floating-point error in the quotient is not modelled.
- Three behaviours of the code that a reader might not expect are modelled as written, not corrected:
  - Completion happens when at most one card (not zero) remains after an answer, even after an incorrect answer.
  - A correct answer advances the cursor past the card that slid into the current slot.
  - The completion score is computed over attempts while the in-session score is computed over deck size.
- JSX rendering, the page layout and all dialogs are not modelled. The deck title is used only for display.
- The import action's `deckId`, the Zod parsing of `BulkCreateCardsSchema` (only its card constraints are restated, as `ValidBulkCards`), the `deckId` positivity rule, the database insert, path revalidation and the error logging and re-throwing around the parser are left out. They are I/O or foreign library code.
- The parser has no quoting or escaping in the sense of RFC 4180 section 2 (rules 5-7). A comma always separates fields, and the model says the same.
- Text.Split: the model covers only a one-character separator, which is all the import uses.
