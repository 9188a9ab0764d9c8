# Solitaire keystream cipher and array linked list

This project models two classes from a data-structures course repository, written in Java, and proves properties of them in Dafny.

**Solitaire** (`Solitaire/Solitaire.java`) is a simplified Solitaire keystream cipher. The deck has 28 cards: values 1..26 are ordinary cards, 27 is joker A and 28 is joker B. It is kept as a circular linked list reached through `deckRear`, the bottom card.

- Each key comes from `getKey`, which runs four steps on the deck: joker A moves one card down, joker B moves two, a triple cut, and a count cut.
- `getKey` then reads the card at the position named by the top card. If that card is a joker, it starts again.
- `encrypt` keeps the upper-case letters of a message and shifts each one up by the next key, modulo 26. `decrypt` shifts each one down.

In the model:

- The deck is the sequence of card values from the top card (`deckRear.next`) down to the bottom card (`deckRear`).
- Class `SolitaireCipher.Solitaire` walks the positions the way the Java walks `ptr` and `prev`, then puts the cards in the order its relinking leaves them.
- Each method is proved against a step function in module `DeckSpec`.
- `DeckSpec` relates every step to an independent description:
  - a joker move is "take the card out and put it back d places further round the circle" (`MoveDown`);
  - the triple cut is the textbook B ++ jokers ++ A, read from another rear card.
- `DeckSpec` also defines the keystream: `NextKey` for one key and `Keys` for several, each starting from the deck the previous key left.
- `CipherSpec` holds the letter shifts, encrypt and decrypt over a keystream, and the round trip between them.

**ArrayLL** (`ArrayLinkedList/ArrayLL.java`) is a list of names packed at the front of an array of items, front first.

- Class `ArrayLinkedList.ArrayLL` keeps the array as `array<Option<string>>`. An empty slot, `null` in Java, is `None`.
- A ghost field `names` holds the abstract list, and `Valid()` ties the two together.
- The methods follow the code as written. Where it differs from what its comments promise, the module gives both the as-written behaviour and the intended one (see Findings).

## Model

| member | source | states |
|---|---|---|
| SolitaireCipher.Solitaire.constructor | Solitaire/Solitaire.java:58-74 | makeDeck(Scanner) with the values given as a sequence: the first value read ends up on top and the last one at the bottom (`deckRear`) |
| DeckSpec.FullDeckIsShuffledNewDeck | Solitaire/Solitaire.java:24-53 | a full deck (each of 1..28 once) is exactly a 28-card reordering of the ascending cards 1..28 that makeDeck shuffles |
| DeckSpec.ShuffleCanEndInJoker | Solitaire/Solitaire.java:33-39 | the shuffle can produce a full deck with joker A at the bottom, which is not playable; and one with joker B at the bottom, which step 1 keeps at the bottom |
| DeckSpec.JokerMovesFromBottom | Solitaire/Solitaire.java:79-109 | the reference move is defined for a card on the bottom too: by one it comes round under the top card, by two under the second card, and the cards are kept |
| DeckSpec.FullDeckFacts | Solitaire/Solitaire.java:24-53 | a full deck holds both jokers, exactly two joker cards, and only values 1..28 |
| SolitaireCipher.Solitaire.JokerA | Solitaire/Solitaire.java:79-92 | the deck after step 1 is `DeckSpec.JokerA` of the deck before; joker A on the bottom, where `prev` stays null, is excluded |
| DeckSpec.IndexOf | Solitaire/Solitaire.java:82-85 | where the walk from the rear stops: the first position holding the card (joker A here; joker B in the same walk at lines 100-103) |
| DeckSpec.JokerAAt | Solitaire/Solitaire.java:86-90 | the relinking with joker A at position i, branch by branch: inside the deck it trades places with the next card; from second-to-last it comes round to the top; the length and the bottom card stay |
| DeckSpec.JokerA | Solitaire/Solitaire.java:79-92 | step 1 is `JokerAAt` at the position of joker A; it keeps the number of cards and the bottom card |
| DeckSpec.JokerAMovesOneDown | Solitaire/Solitaire.java:79-92 | step 1 equals moving joker A one place down the circle of the other cards (the reference `MoveDown`); from second-to-last it comes round to the top |
| DeckSpec.JokerAAtIsMoveDown | Solitaire/Solitaire.java:79-92 | the relinking at any position of joker A equals the reference move by one |
| DeckSpec.JokerAKeepsCards | Solitaire/Solitaire.java:79-92 | step 1 keeps the cards (same multiset) |
| DeckSpec.JokerAAtPermutes | Solitaire/Solitaire.java:79-92 | the step 1 relinking at any position keeps the length and the cards |
| DeckSpec.MoveDownAtPermutes | Solitaire/Solitaire.java:79-109 | the reference joker move keeps the length and the cards |
| SolitaireCipher.Solitaire.JokerB | Solitaire/Solitaire.java:97-109 | the deck after step 2 is `DeckSpec.JokerB` of the deck before; joker B on the bottom is excluded |
| DeckSpec.JokerBAt | Solitaire/Solitaire.java:104-108 | the relinking with joker B at position j, branch by branch: two cards further down inside the deck; from third-to-last it comes round to the top; from second-to-last it lands under the top card; in a two-card deck nothing moves; the length and the bottom card stay |
| DeckSpec.JokerB | Solitaire/Solitaire.java:97-109 | step 2 is `JokerBAt` at the position of joker B; it keeps the number of cards and the bottom card |
| DeckSpec.JokerBMovesTwoDown | Solitaire/Solitaire.java:97-109 | step 2 equals moving joker B two places down the circle: from third-to-last it comes round to the top, and from second-to-last it lands under the top card |
| DeckSpec.JokerBAtIsMoveDown | Solitaire/Solitaire.java:97-109 | the relinking at any position of joker B equals the reference move by two |
| DeckSpec.JokerBKeepsCards | Solitaire/Solitaire.java:97-109 | step 2 keeps the cards |
| DeckSpec.JokerPair | Solitaire/Solitaire.java:114-156 | in a deck with exactly two jokers, the positions a < b of the two jokers; every other card is not a joker |
| DeckSpec.TripleCutAt | Solitaire/Solitaire.java:114-154 | the relinking with jokers at a < b, branch by branch: a joker on top leaves the deck as it is; a joker only at the bottom gives the jokers' run then the cards above it; otherwise the jokers' run, the cards above it, then the cards below it; the length stays |
| DeckSpec.TripleCutAtPlaces | Solitaire/Solitaire.java:114-154 | with a joker on top nothing moves; otherwise the first joker comes to the top and the second follows the cards between them; the bottom card changes only when the second joker was the bottom card, to the card above the first joker |
| SolitaireCipher.Solitaire.TripleCut | Solitaire/Solitaire.java:114-156 | the deck after step 3 is `DeckSpec.TripleCut` of the deck before, for a deck holding exactly two jokers |
| DeckSpec.TripleCut | Solitaire/Solitaire.java:114-156 | step 3 keeps the number of cards; the bottom card stays, except when the only joker at an end is at the bottom, where the card above the first joker becomes the bottom card |
| DeckSpec.TripleCutAtRotatesTextbook | Solitaire/Solitaire.java:114-156 | for jokers at any a < b, the code's result is the textbook triple cut (cards below the second joker, then the jokers and what lies between them, then the cards above the first joker), read from a rear moved by the number of cards below the second joker |
| DeckSpec.TextbookTripleCutAtPermutes | Solitaire/Solitaire.java:114-156 | the textbook triple cut keeps the length and the cards |
| DeckSpec.TripleCutAtPermutes | Solitaire/Solitaire.java:114-156 | the code's triple cut at any a < b keeps the length and the cards |
| DeckSpec.TripleCutKeepsCards | Solitaire/Solitaire.java:114-156 | step 3 keeps the cards |
| SolitaireCipher.Solitaire.CountCut | Solitaire/Solitaire.java:161-180 | the deck after step 4 is `DeckSpec.CountCut` of the deck before, for a bottom value v with 1 <= v <= length - 2 |
| DeckSpec.CountCutAt | Solitaire/Solitaire.java:169-178 | the relinking for a cut of v cards: the card v places down comes to the top, the old top card lands v places above the bottom, and the length and the bottom card stay |
| DeckSpec.CountCut | Solitaire/Solitaire.java:161-180 | step 4 is `CountCutAt` by the bottom card's value; it keeps the number of cards and the bottom card |
| DeckSpec.CountCutRotates | Solitaire/Solitaire.java:161-180 | step 4 rotates the cards above the bottom card by the bottom card's value |
| DeckSpec.CountCutKeepsCards | Solitaire/Solitaire.java:161-180 | step 4 keeps the cards |
| DeckSpec.JokerAKeepsPlayable | Solitaire/Solitaire.java:190-194 | on a full deck with an ordinary card at the bottom, step 1 can run and leaves such a deck |
| DeckSpec.JokerBKeepsPlayable | Solitaire/Solitaire.java:190-194 | the same for step 2 |
| DeckSpec.TripleCutLeavesCardAtBottom | Solitaire/Solitaire.java:190-194 | on such a deck, step 3 can run, keeps a full deck and leaves a card valued 1..26 at the bottom, as step 4 needs |
| DeckSpec.CountCutKeepsPlayable | Solitaire/Solitaire.java:190-194 | with a card valued 1..26 at the bottom of a full deck, step 4 can run and leaves a full deck with an ordinary bottom card |
| DeckSpec.Round | Solitaire/Solitaire.java:190-194 | the four steps in order keep a full deck with an ordinary card at the bottom, so every later pass can run as well |
| SolitaireCipher.Solitaire.RunRound | Solitaire/Solitaire.java:190-194 | calling the four step methods in order leaves `DeckSpec.Round` of the deck |
| DeckSpec.KeyIndex | Solitaire/Solitaire.java:197-200 | the position getKey counts down to: the top card's value, except that 28 counts as 27, so it is never 28 |
| DeckSpec.KeyIndexInDeck | Solitaire/Solitaire.java:196-206 | on a full deck, the position getKey reads (the top card's value, with 28 counted as 27) is a card below the top; a non-joker there has a value 1..26 |
| SolitaireCipher.Solitaire.ReadKey | Solitaire/Solitaire.java:196-206 | counting down the top card's value from the rear reads the card at that position; nothing changes |
| DeckSpec.NextKey | Solitaire/Solitaire.java:190-214 | getKey within a bound on passes: a key found is the non-joker card, 1..26, at the key position of the deck left behind; the deck stays playable; with no passes left, nothing happens |
| DeckSpec.Pass | Solitaire/Solitaire.java:190-214 | one pass: the four steps, then the card at the key position, or another pass when that card is a joker |
| DeckSpec.NextKeyAfterRound | Solitaire/Solitaire.java:196-213 | after the four steps, a joker at the key position gives the result of getKey on the new deck; any other card is the key, with the new deck left behind |
| SolitaireCipher.Solitaire.GetKey | Solitaire/Solitaire.java:190-214 | the key returned and the deck left behind are those of `DeckSpec.NextKey` |
| DeckSpec.Keys | Solitaire/Solitaire.java:251-259 | the keys for `count` letters, asked for one after another from the same deck: exactly `count` of them, unless some getKey runs out of passes |
| DeckSpec.KeysStayFailed | Solitaire/Solitaire.java:251-259 | once a getKey fails, later letters neither produce keys nor move the deck |
| CipherSpec.Letters | Solitaire/Solitaire.java:243-250 | the first loop of encrypt and decrypt keeps only upper-case letters, at most as many characters as the message |
| CipherSpec.LettersOfLetters | Solitaire/Solitaire.java:243-250 | a message of upper-case letters only is kept whole |
| SolitaireCipher.FilterLetters | Solitaire/Solitaire.java:243-250 | the loop builds exactly `Letters` of the message |
| CipherSpec.EncryptChar | Solitaire/Solitaire.java:252-258 | encrypt's shift of one letter gives a letter whose offset from 'A' is (offset + key) mod 26 |
| CipherSpec.DecryptChar | Solitaire/Solitaire.java:281-289 | decrypt's shift gives a letter whose offset from 'A' is (offset - key) mod 26 |
| CipherSpec.ShiftsCancel | Solitaire/Solitaire.java:252-289 | the two shifts by the same key undo each other, in either order |
| CipherSpec.EncryptWith | Solitaire/Solitaire.java:251-259 | letter i of the result is letter i of the message shifted up by key i |
| CipherSpec.DecryptWith | Solitaire/Solitaire.java:280-290 | letter i of the result is letter i of the message shifted down by key i |
| CipherSpec.DecryptWithUndoes | Solitaire/Solitaire.java:251-290 | shifting down by a key sequence undoes shifting up by it, and the other way round |
| CipherSpec.EncryptLetters | Solitaire/Solitaire.java:251-259 | the ciphertext has one upper-case letter per letter of the message, and the deck is the one the keystream leaves; the ciphertext is None exactly when the keystream fails |
| CipherSpec.DecryptLetters | Solitaire/Solitaire.java:280-290 | the same for the plaintext of decrypt |
| SolitaireCipher.Solitaire.EncryptLetters | Solitaire/Solitaire.java:251-259 | the loop returns `CipherSpec.EncryptLetters` and leaves its deck |
| SolitaireCipher.Solitaire.DecryptLetters | Solitaire/Solitaire.java:280-290 | the loop returns `CipherSpec.DecryptLetters` and leaves its deck |
| CipherSpec.Encrypt | Solitaire/Solitaire.java:240-261 | encrypt from a deck: the ciphertext has one upper-case letter per upper-case letter of the message, and exists exactly when the keystream for them does; the deck left is the one the keystream leaves |
| CipherSpec.Decrypt | Solitaire/Solitaire.java:269-292 | decrypt likewise |
| SolitaireCipher.Solitaire.Encrypt | Solitaire/Solitaire.java:240-261 | encrypt returns the letters of the message encrypted from the current deck, and leaves the deck the keystream leaves |
| SolitaireCipher.Solitaire.Decrypt | Solitaire/Solitaire.java:269-292 | decrypt likewise |
| CipherSpec.DecryptUndoesEncrypt | Solitaire/Solitaire.java:240-292 | decrypting the ciphertext from the same starting deck gives back the upper-case letters of the message and leaves the same deck |
| CipherSpec.EncryptUndoesDecrypt | Solitaire/Solitaire.java:240-292 | encrypting a decrypted message from the same starting deck gives back its letters |
| ArrayLinkedList.ArrayLL.constructor | ArrayLinkedList/ArrayLL.java:27-33 | an empty list with every one of the maxItems slots free |
| ArrayLinkedList.ArrayLL.AddFront | ArrayLinkedList/ArrayLL.java:44-70 | false exactly when no slot is free, with nothing changed; otherwise the name is first, followed by the old names in order; the array stays packed |
| ArrayLinkedList.ArrayLL.DeleteFront | ArrayLinkedList/ArrayLL.java:75-91 | on a non-empty list, returns the front name and leaves the names `DeletedFrontAsWritten` gives; the array stays packed |
| ArrayLinkedList.DeletedFrontAsWritten | ArrayLinkedList/ArrayLL.java:75-91 | the returned name is the front name; with two or more names the rest remain, in order, but a single name stays in the list |
| ArrayLinkedList.DeletedFrontAsWrittenUndoesAddFront | ArrayLinkedList/ArrayLL.java:44-91 | deleteFront as written undoes addFront on a non-empty list, but not on an empty one, where the added name stays |
| ArrayLinkedList.DeletedFront | ArrayLinkedList/ArrayLL.java:72-91 | the intended deleteFront: None exactly on an empty list; otherwise the front name, with the list becoming the rest |
| ArrayLinkedList.DeletedFrontUndoesAddFront | ArrayLinkedList/ArrayLL.java:44-91 | the intended deleteFront undoes addFront on every list |
| ArrayLinkedList.EmptyListHasNoFrontItem | ArrayLinkedList/ArrayLL.java:75-79 | on an empty list, the slot deleteFront reads before its emptiness check holds no item |
| ArrayLinkedList.FirstIndex | ArrayLinkedList/ArrayLL.java:114-115 | where the search of delete stops: the first slot holding the name |
| ArrayLinkedList.ArrayLL.Delete | ArrayLinkedList/ArrayLL.java:108-136 | true exactly when the name is in the list; the names become `DeletedAsWritten` of the old names; the array stays packed |
| ArrayLinkedList.ArrayLL.DropAt | ArrayLinkedList/ArrayLL.java:116-125 | for a match at slot i: away from the front, the names after i move down one; at the front, the last name is dropped |
| ArrayLinkedList.DeletedAsWritten | ArrayLinkedList/ArrayLL.java:108-136 | a missing name changes nothing; otherwise the list loses one name |
| ArrayLinkedList.DeletedAsWrittenAwayFromFront | ArrayLinkedList/ArrayLL.java:114-125 | as written, delete equals the intended delete unless the name is first in a list of two or more |
| ArrayLinkedList.DeleteFrontNameDropsLast | ArrayLinkedList/ArrayLL.java:114-125 | deleting the front name of [a, b] as written leaves [a], while the intended delete leaves [b] |
| ArrayLinkedList.Deleted | ArrayLinkedList/ArrayLL.java:102-136 | the intended delete: a missing name changes nothing; otherwise the list loses one name |
| ArrayLinkedList.DeletedRemovesOne | ArrayLinkedList/ArrayLL.java:102-136 | the intended delete removes exactly one occurrence of the name and no other name |
| ArrayLinkedList.DeletedUndoesInsert | ArrayLinkedList/ArrayLL.java:102-136 | inserting a name at any position before all its earlier occurrences, then deleting it, gives back the list |
| ArrayLinkedList.ArrayLL.Contains | ArrayLinkedList/ArrayLL.java:141-157 | true exactly when the name is in the list; nothing changes |

## Left out

- makeDeck() (Solitaire.java:24-53) uses `java.util.Random`. Its shuffle is not modelled. The decks it can produce are characterised by `DeckSpec.FullDeckIsShuffledNewDeck`.
- makeDeck(Scanner) reads from a `Scanner`. The constructor takes the values as a sequence instead. It needs at least one value, because with none the Java leaves `deckRear` null.
- printList in both classes and printArray in ArrayLL only print, so they are not modelled.
- printAvailableSpots in ArrayLL is a debugging aid and is not modelled. Before printing, it rewrites the `avail` array, which is not modelled either: it stores the free slot numbers and marks some zero entries with -1. Entries written by one call stay and show up in the output of a later call.
- The deck is a sequence of values, not `CardNode` objects. Node identity, aliasing and the relinking of `next` fields are not modelled; only the order of the cards round the circle is.
- Each step is modelled on a chosen range of decks, given by its precondition:
  - Steps 1 and 2 exclude their joker on the bottom. There the walk stops at once with `prev` null, and the Java throws (see Findings).
  - Step 3 covers decks with exactly two jokers. With one joker the Java still runs: its second walk goes round the circle back to the same joker, so [1, 27, 2, 3] becomes [27, 1, 2, 3]. With no joker, its walks never stop.
  - Step 4 covers a bottom value v with 1 <= v <= length - 2. For a larger v the count loop goes round the circle, so v acts as v modulo the length. A remainder of length - 1 leaves `prev` null and throws. A remainder of 0, or v <= 0, leaves the rear node outside the circle.
  - getKey, encrypt and decrypt cover the full decks (each of 1..28 once) whose bottom card is not a joker: the decks on which the four steps above stay in range pass after pass. The Java also runs on other decks, for example 28 cards with a repeated ordinary value; the model does not say what it produces there.
- SolitaireCipher.Solitaire.GetKey: does not model the unbounded recursion of getKey. It makes at most `fuel` passes and returns None when all of them meet a joker. For the same reason, SolitaireCipher.Solitaire.Encrypt and Decrypt return None when a key runs out of passes.
- CipherSpec.Letters: keeps only 'A'..'Z'. The Java keeps every character for which `Character.isLetter` and `Character.isUpperCase` hold, including upper-case letters outside A..Z.
- ArrayLL's `avail` array, its `front` field and the `next` index stored in each `Item` are not modelled. No modelled method reads `avail`. addFront reads `front` (lines 50 and 57), but only to fill in the new item's `next` index.
- ArrayLL's items are new `Item` objects on every shift. Item identity is not modelled; a slot holds only its name.
- A null name is not modelled. With one stored, `delete` and `contains` would throw when they call `equals` on it.
- A negative maxItems is not modelled. The Java throws when it allocates the array; the constructor takes a `nat`.
- DeckSpec.TripleCutAt: its own contract states only that the length is kept. Where the cards go is stated by `DeckSpec.TripleCutAtPlaces` and `DeckSpec.TripleCutAtRotatesTextbook` instead, to keep the proofs that unfold the four steps small.
- The corrected steps 1 and 2 (the reference move from the bottom) are not used by `DeckSpec.Round`. getKey stays modelled on playable decks, where the code as written and the reference move agree.
- ArrayLinkedList.ArrayLL.DeleteFront: requires a non-empty list, because the Java reads `all[0].name` before its emptiness check and throws there. It does not model the `return null` branch, which cannot be reached.

## Findings

| source | as written | input that shows it | evidently intended | confidence | as-written member | corrected member |
|---|---|---|---|---|---|---|
| Solitaire/Solitaire.java:82-87 | when joker A is the bottom card, the walk of jokerA stops before its first step, so `prev.next` at line 87 dereferences null. makeDeck's shuffle (lines 33-39) can produce such a deck, as well as one with joker B at the bottom, where jokerB fails in the same way at line 105 | the deck 1, 2, ..., 26, 28, 27 (joker A at the bottom), then `getKey()` | move the bottom joker round the circle, under the top card (joker A) or under the second card (joker B), which is what steps 1 and 2 already do from every other position (`DeckSpec.JokerAMovesOneDown`, `DeckSpec.JokerBMovesTwoDown`) | high; not executed | DeckSpec.ShuffleCanEndInJoker | DeckSpec.JokerMovesFromBottom |
| ArrayLinkedList/ArrayLL.java:76-79 | deleteFront reads `all[0].name` before checking `numItems == 0`; on an empty list `all[0]` is null, so it throws instead of returning null | an empty list from `new ArrayLL(3)`, then `deleteFront()` | return null on an empty list, as the comment says | high; not executed | ArrayLinkedList.EmptyListHasNoFrontItem | ArrayLinkedList.DeletedFront |
| ArrayLinkedList/ArrayLL.java:80-81 | with one name, deleteFront returns it but leaves it in the list | the list ["x"], then `deleteFront()` leaves ["x"] | the list becomes empty | high; not executed | ArrayLinkedList.DeletedFrontAsWrittenUndoesAddFront | ArrayLinkedList.DeletedFrontUndoesAddFront |
| ArrayLinkedList/ArrayLL.java:116-122 | when the first match is at slot 0, delete shifts nothing and clears the last slot, so it removes the last name and keeps the one asked for | the list ["a", "b"], then `delete("a")` leaves ["a"] | remove "a", leaving ["b"] | high; not executed | ArrayLinkedList.DeleteFrontNameDropsLast | ArrayLinkedList.DeletedRemovesOne |
