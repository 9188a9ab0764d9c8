/** The Solitaire object of Solitaire.java. The circular list reached through `deckRear` is
    held as the sequence of card values read from `deckRear.next` (the top card) round to
    `deckRear` (the bottom card), so a position in the sequence stands for a node and the
    last position for the node `deckRear` names. Each step walks the positions the way the
    Java walks `ptr` and `prev` from `deckRear`, then puts the cards in the order its
    relinking leaves them in. */
module SolitaireCipher {

  import opened Options
  import opened DeckSpec
  import opened CipherSpec

  /** The position after k on a circle of n cards: `ptr = ptr.next`. */
  function Succ(k: nat, n: nat): (r: nat)
    requires k < n
    ensures r < n && (r == 0 <==> k == n - 1) && (k < n - 1 ==> r == k + 1)
  {
    if k == n - 1 then 0 else k + 1
  }

  class Solitaire {
    /** The cards from the top (`deckRear.next`) to the bottom (`deckRear`). */
    var deck: seq<int>

    /** makeDeck(Scanner) without the scanner: the values come as a sequence, and each one is
        linked in after the rear and becomes the new rear, so it goes to the bottom. */
    constructor (values: seq<int>)
      requires |values| >= 1
      ensures deck == values
    {
      var cards := [values[0]];
      var i := 1;
      while i < |values|
        invariant 1 <= i <= |values| && cards == values[..i]
      {
        cards := cards + [values[i]];
        i := i + 1;
      }
      assert values[..|values|] == values;
      deck := cards;
    }

    /** Step 1. The walk from `deckRear` stops at joker A; joker A on the bottom would stop it
        at once with `prev` still null, so that is excluded. Joker A is unlinked and linked in
        again after the card that followed it, which moves it one place down the circle. */
    method JokerA()
      requires 27 in deck && deck[|deck| - 1] != 27
      modifies this
      ensures deck == DeckSpec.JokerA(old(deck))
    {
      ghost var s := deck;
      ghost var p := IndexOf(s, 27);
      var n := |deck|;
      var ptr: nat := n - 1;
      while deck[ptr] != 27
        invariant deck == s && ptr < n && (ptr == n - 1 || ptr <= p)
        decreases if ptr == n - 1 then p + 1 else p - ptr
      {
        ptr := Succ(ptr, n);
      }
      var after := Succ(ptr, n);
      if after != n - 1 {
        // the joker and the card after it trade places
        deck := deck[ptr := deck[after]][after := 27];
        assert deck == s[..p] + [s[p + 1], s[p]] + s[p + 2..];
      } else {
        // linked in after the rear node, which stays the rear: the joker is the top card
        deck := [27] + deck[..ptr] + [deck[n - 1]];
      }
      assert deck == JokerAAt(s, p);
    }

    /** Step 2. The walk stops at joker B (not on the bottom, for the same null `prev`); it is
        unlinked and linked in again after the card two places further on. */
    method JokerB()
      requires 28 in deck && deck[|deck| - 1] != 28
      modifies this
      ensures deck == DeckSpec.JokerB(old(deck))
    {
      ghost var s := deck;
      ghost var q := IndexOf(s, 28);
      var n := |deck|;
      var ptr: nat := n - 1;
      while deck[ptr] != 28
        invariant deck == s && ptr < n && (ptr == n - 1 || ptr <= q)
        decreases if ptr == n - 1 then q + 1 else q - ptr
      {
        ptr := Succ(ptr, n);
      }
      var after := Succ(Succ(ptr, n), n);
      if n == 2 {
        // `prev` is the rear, which the unlinking points at itself: the joker goes back
        // where it was
      } else if after == n - 1 {
        deck := [28] + deck[..ptr] + deck[ptr + 1..];
      } else if after == 0 {
        deck := [deck[0], 28] + deck[1..ptr] + deck[ptr + 1..];
      } else {
        deck := deck[..ptr] + [deck[ptr + 1], deck[after], 28] + deck[after + 1..];
      }
      assert deck == JokerBAt(s, q);
    }

    /** Step 3, on a deck with exactly two jokers. With a joker on top and one on the bottom
        it returns at once. A joker on top moves `deckRear` to the second joker and a joker at
        the rear moves it to the card above the first joker; the last walk finds `prev` above
        the first joker, and the jokers' run is spliced in after `deckRear`. */
    method TripleCut()
      requires CountJokers(deck) == 2
      modifies this
      ensures deck == DeckSpec.TripleCut(old(deck))
    {
      ghost var s := deck;
      ghost var a, b := JokerPair(s).0, JokerPair(s).1;
      var n := |deck|;
      var ptr: nat := n - 1;
      var prev: nat := ptr;
      var rear: nat := n - 1;
      if IsJoker(deck[0]) {
        if IsJoker(deck[n - 1]) {
          return;
        }
        ptr := Succ(Succ(ptr, n), n);
        while !IsJoker(deck[ptr])
          invariant 1 <= ptr <= b
          decreases b - ptr
        {
          ptr := ptr + 1;
        }
        rear := ptr;
      }
      assert a == 0 ==> rear == b && ptr == b && prev == n - 1;
      assert a != 0 ==> rear == n - 1 && ptr == n - 1 && prev == n - 1;
      if IsJoker(deck[rear]) {
        ptr := Succ(ptr, n);
        while !IsJoker(deck[ptr])
          invariant ptr < n && prev < n
          invariant a == 0 ==> b < ptr || (ptr == 0 && prev == n - 1)
          invariant a != 0 ==> ptr <= a && prev == if ptr == 0 then n - 1 else ptr - 1
          decreases if a != 0 then a - ptr else if ptr == 0 then 0 else n - ptr
        {
          prev := ptr;
          ptr := Succ(ptr, n);
        }
        rear := prev;
      }
      assert ptr == n - 1 || ptr == a;
      while !IsJoker(deck[ptr])
        invariant ptr < n && prev < n
        invariant (ptr == n - 1 && prev == n - 1) || (ptr <= a && prev == if ptr == 0 then n - 1 else ptr - 1)
        decreases if ptr == n - 1 then a + 1 else a - ptr
      {
        prev := ptr;
        ptr := Succ(ptr, n);
      }
      var temp := ptr;
      ptr := Succ(ptr, n);
      while !IsJoker(deck[ptr])
        invariant a < ptr <= b
        decreases b - ptr
      {
        ptr := ptr + 1;
      }
      assert temp == a && ptr == b;
      if prev == rear {
        // the run already follows the rear node: the links come back as they were and the
        // deck is read from the new rear
        assert (a == 0 && rear == n - 1) || (a != 0 && b == n - 1 && rear == a - 1);
        deck := deck[rear + 1..] + deck[..rear + 1];
        assert a == 0 ==> deck == s;
      } else {
        assert a != 0 && b != n - 1;
        // the rear node stays; the run goes in after it, the cards above it follow and the
        // cards below the second joker close the circle
        deck := deck[temp..ptr + 1] + deck[..temp] + deck[ptr + 1..];
      }
      assert deck == TripleCutAt(s, a, b);
    }

    /** Step 4: counts down the value v of the bottom card from `deckRear`, links the rear node
        in under the v-th card, and links the card above the rear to the old top card. The
        model covers v in 1..|deck| - 2, the values step 3 leaves at the bottom of a playable
        deck; the Java also runs for other v, see DeckSpec.CountCut. */
    method CountCut()
      requires |deck| >= 1 && 1 <= deck[|deck| - 1] <= |deck| - 2
      modifies this
      ensures deck == DeckSpec.CountCut(old(deck))
    {
      var n := |deck|;
      var ptr: nat := n - 1;
      var count := 0;
      while count < deck[n - 1]
        invariant 0 <= count <= deck[n - 1] && ptr == if count == 0 then n - 1 else count - 1
      {
        ptr := Succ(ptr, n);
        count := count + 1;
      }
      var cut := Succ(ptr, n);
      // the walk from the new top down to the rear, over the relinked circle
      var q := cut;
      var prev := -1;
      while q != n - 1
        invariant cut <= q <= n - 1 && prev == if q == cut then -1 else q - 1
        decreases n - 1 - q
      {
        prev := q;
        q := q + 1;
      }
      deck := deck[cut..prev + 1] + deck[..cut] + [deck[n - 1]];
    }

    /** The four steps getKey starts with, in order, on a playable deck. */
    method RunRound()
      requires Playable(deck)
      modifies this
      ensures deck == Round(old(deck))
    {
      ghost var s := deck;
      JokerAKeepsPlayable(s);
      JokerA();
      JokerBKeepsPlayable(deck);
      JokerB();
      TripleCutLeavesCardAtBottom(deck);
      TripleCut();
      CountCutKeepsPlayable(deck);
      CountCut();
    }

    /** getKey with at most `fuel` passes of the four steps (the Java recursion is unbounded).
        After each pass it counts down the top card's value (28 counted as 27) from the rear
        and reads the next card; a joker there means another pass. */
    method GetKey(fuel: nat) returns (key: Option<Key>)
      requires Playable(deck)
      modifies this
      ensures (key, deck) == NextKey(old(deck), fuel)
      decreases fuel
    {
      if fuel == 0 {
        return None;
      }
      ghost var s := deck;
      RunRound();
      ghost var d := deck;
      var card := ReadKey();
      KeyIndexInDeck(d);
      NextKeyAfterRound(s, d, fuel);
      if !IsJoker(card) {
        key := Some(card);
        assert NextKey(s, fuel) == (key, d);
      } else {
        key := GetKey(fuel - 1);
        assert (key, deck) == NextKey(s, fuel);
      }
    }

    /** The end of a pass of getKey: counts down the top card's value, 28 counted as 27, from
        the rear and reads the card after the one it stops on. */
    method ReadKey() returns (card: int)
      requires IsFullDeck(deck)
      ensures 1 <= KeyIndex(deck) < |deck| && card == deck[KeyIndex(deck)]
    {
      KeyIndexInDeck(deck);
      var n := |deck|;
      var target := deck[0];
      if target == 28 {
        target := 27;
      }
      var ptr: nat := n - 1;
      var count := 0;
      while count < target
        invariant 0 <= count <= target && ptr == if count == 0 then n - 1 else count - 1
      {
        ptr := Succ(ptr, n);
        count := count + 1;
      }
      card := deck[Succ(ptr, n)];
    }

    /** encrypt: keeps the upper-case letters, then shifts each one up by the next key, every
        letter asking getKey (with `fuel` passes) for its own. None when a key is not found. */
    method Encrypt(message: string, fuel: nat) returns (r: Option<string>)
      requires Playable(deck)
      modifies this
      ensures (r, deck) == CipherSpec.Encrypt(old(deck), message, fuel)
    {
      var m := FilterLetters(message);
      r := EncryptLetters(m, fuel);
    }

    /** decrypt: keeps the upper-case letters, then shifts each one down by the next key. */
    method Decrypt(message: string, fuel: nat) returns (r: Option<string>)
      requires Playable(deck)
      modifies this
      ensures (r, deck) == CipherSpec.Decrypt(old(deck), message, fuel)
    {
      var m := FilterLetters(message);
      r := DecryptLetters(m, fuel);
    }

    /** The second loop of encrypt: letter i of m goes up by the i-th key. */
    method EncryptLetters(m: string, fuel: nat) returns (r: Option<string>)
      requires Playable(deck) && AllUpper(m)
      modifies this
      ensures (r, deck) == CipherSpec.EncryptLetters(old(deck), m, fuel)
    {
      ghost var s := deck;
      var result := "";
      ghost var keys: seq<Key> := [];
      for i := 0 to |m|
        invariant Keys(s, i, fuel) == (Some(keys), deck)
        invariant |keys| == i && result == EncryptWith(m[..i], keys)
      {
        var key := GetKey(fuel);
        if key.None? {
          assert Keys(s, i + 1, fuel) == (None, deck);
          KeysStayFailed(s, i + 1, |m|, fuel);
          return None;
        }
        assert m[..i + 1][..i] == m[..i];
        result := result + [EncryptChar(m[i], key.value)];
        keys := keys + [key.value];
      }
      assert m[..|m|] == m;
      r := Some(result);
    }

    /** The second loop of decrypt: letter i of m goes down by the i-th key. */
    method DecryptLetters(m: string, fuel: nat) returns (r: Option<string>)
      requires Playable(deck) && AllUpper(m)
      modifies this
      ensures (r, deck) == CipherSpec.DecryptLetters(old(deck), m, fuel)
    {
      ghost var s := deck;
      var result := "";
      ghost var keys: seq<Key> := [];
      for i := 0 to |m|
        invariant Keys(s, i, fuel) == (Some(keys), deck)
        invariant |keys| == i && result == DecryptWith(m[..i], keys)
      {
        var key := GetKey(fuel);
        if key.None? {
          assert Keys(s, i + 1, fuel) == (None, deck);
          KeysStayFailed(s, i + 1, |m|, fuel);
          return None;
        }
        assert m[..i + 1][..i] == m[..i];
        result := result + [DecryptChar(m[i], key.value)];
        keys := keys + [key.value];
      }
      assert m[..|m|] == m;
      r := Some(result);
    }
  }

  /** The first loop of encrypt and decrypt: the upper-case letters of the message. */
  method FilterLetters(message: string) returns (m: string)
    ensures m == Letters(message)
  {
    m := "";
    for i := 0 to |message|
      invariant m == Letters(message[..i])
    {
      assert message[..i + 1][..i] == message[..i];
      if IsUpper(message[i]) {
        m := m + [message[i]];
      }
    }
    assert message[..|message|] == message;
  }
}
