/** What encrypt and decrypt of Solitaire.java compute, as values: the letters they keep, the
    shift of one letter by one key, and the whole message against the keystream that getKey
    hands out from a given deck. */
module CipherSpec {

  import opened Options
  import opened DeckSpec

  /** The characters both methods keep: the letters A..Z. */
  predicate IsUpper(c: char)
  {
    'A' <= c <= 'Z'
  }

  predicate AllUpper(s: string)
  {
    forall i :: 0 <= i < |s| ==> IsUpper(s[i])
  }

  /** The upper-case letters of s, in order. */
  function Letters(s: string): (r: string)
    ensures |r| <= |s| && AllUpper(r)
  {
    if s == [] then []
    else Letters(s[..|s| - 1]) + (if IsUpper(s[|s| - 1]) then [s[|s| - 1]] else [])
  }

  /** A string of letters only is kept whole. */
  lemma {:induction false} LettersOfLetters(s: string)
    requires AllUpper(s)
    ensures Letters(s) == s
  {
    if s != [] {
      LettersOfLetters(s[..|s| - 1]);
      assert s == s[..|s| - 1] + [s[|s| - 1]];
    }
  }

  /** Offset of a letter from 'A', 0..25. */
  function Offset(c: char): (o: int)
    ensures IsUpper(c) ==> 0 <= o < 26
  {
    c as int - 'A' as int
  }

  /** encrypt's shift of one letter: 'A' counts as 1, the key is added, and a sum above 26
      comes back down by 26. */
  function EncryptChar(c: char, k: Key): (r: char)
    requires IsUpper(c)
    ensures IsUpper(r) && Offset(r) == (Offset(c) + k) % 26
  {
    var index := c as int - 64 + k;
    var index := if index > 26 then index - 26 else index;
    (index + 64) as char
  }

  /** decrypt's shift of one letter: the key is subtracted, and a result of 0 or below goes
      up by 26. */
  function DecryptChar(c: char, k: Key): (r: char)
    requires IsUpper(c)
    ensures IsUpper(r) && Offset(r) == (Offset(c) - k) % 26
  {
    var index := c as int - 64 - k;
    var index := if index <= 0 then index + 26 else index;
    (index + 64) as char
  }

  /** The two shifts by the same key undo each other, in either order. */
  lemma ShiftsCancel(c: char, k: Key)
    requires IsUpper(c)
    ensures DecryptChar(EncryptChar(c, k), k) == c
    ensures EncryptChar(DecryptChar(c, k), k) == c
  {
  }

  /** Letter i of m shifted up by key i. */
  function EncryptWith(m: string, keys: seq<Key>): (r: string)
    requires |keys| == |m| && AllUpper(m)
    ensures |r| == |m| && forall i :: 0 <= i < |m| ==> r[i] == EncryptChar(m[i], keys[i])
  {
    if m == [] then []
    else EncryptWith(m[..|m| - 1], keys[..|m| - 1]) + [EncryptChar(m[|m| - 1], keys[|m| - 1])]
  }

  /** Letter i of m shifted down by key i. */
  function DecryptWith(m: string, keys: seq<Key>): (r: string)
    requires |keys| == |m| && AllUpper(m)
    ensures |r| == |m| && forall i :: 0 <= i < |m| ==> r[i] == DecryptChar(m[i], keys[i])
  {
    if m == [] then []
    else DecryptWith(m[..|m| - 1], keys[..|m| - 1]) + [DecryptChar(m[|m| - 1], keys[|m| - 1])]
  }

  /** encrypt's second loop, over the letters m, from deck s with at most `fuel` passes per
      getKey: the ciphertext, or None when some letter found no key, and the deck afterwards.
      The ciphertext has one letter per letter of m. */
  function EncryptLetters(s: seq<int>, m: string, fuel: nat): (r: (Option<string>, seq<int>))
    requires Playable(s) && AllUpper(m)
    ensures Playable(r.1) && r.1 == Keys(s, |m|, fuel).1
    ensures r.0.Some? <==> Keys(s, |m|, fuel).0.Some?
    ensures r.0.Some? ==> |r.0.value| == |m| && AllUpper(r.0.value)
  {
    var ks := Keys(s, |m|, fuel);
    if ks.0.None? then (None, ks.1) else (Some(EncryptWith(m, ks.0.value)), ks.1)
  }

  /** decrypt's second loop, likewise. */
  function DecryptLetters(s: seq<int>, m: string, fuel: nat): (r: (Option<string>, seq<int>))
    requires Playable(s) && AllUpper(m)
    ensures Playable(r.1) && r.1 == Keys(s, |m|, fuel).1
    ensures r.0.Some? <==> Keys(s, |m|, fuel).0.Some?
    ensures r.0.Some? ==> |r.0.value| == |m| && AllUpper(r.0.value)
  {
    var ks := Keys(s, |m|, fuel);
    if ks.0.None? then (None, ks.1) else (Some(DecryptWith(m, ks.0.value)), ks.1)
  }

  /** encrypt: the letters of the message, encrypted from deck s. */
  function Encrypt(s: seq<int>, message: string, fuel: nat): (r: (Option<string>, seq<int>))
    requires Playable(s)
    ensures Playable(r.1) && r.1 == Keys(s, |Letters(message)|, fuel).1
    ensures r.0.Some? <==> Keys(s, |Letters(message)|, fuel).0.Some?
    ensures r.0.Some? ==> |r.0.value| == |Letters(message)| && AllUpper(r.0.value)
  {
    EncryptLetters(s, Letters(message), fuel)
  }

  /** decrypt: the letters of the message, decrypted from deck s. */
  function Decrypt(s: seq<int>, message: string, fuel: nat): (r: (Option<string>, seq<int>))
    requires Playable(s)
    ensures Playable(r.1) && r.1 == Keys(s, |Letters(message)|, fuel).1
    ensures r.0.Some? <==> Keys(s, |Letters(message)|, fuel).0.Some?
    ensures r.0.Some? ==> |r.0.value| == |Letters(message)| && AllUpper(r.0.value)
  {
    DecryptLetters(s, Letters(message), fuel)
  }

  lemma DecryptWithUndoes(m: string, keys: seq<Key>)
    requires |keys| == |m| && AllUpper(m)
    ensures DecryptWith(EncryptWith(m, keys), keys) == m
    ensures EncryptWith(DecryptWith(m, keys), keys) == m
  {
    forall i | 0 <= i < |m| {
      ShiftsCancel(m[i], keys[i]);
    }
  }

  /** Decrypting the ciphertext from the same starting deck gives back the letters of the
      message and leaves the deck where encrypting left it. */
  lemma DecryptUndoesEncrypt(s: seq<int>, message: string, fuel: nat)
    requires Playable(s) && Encrypt(s, message, fuel).0.Some?
    ensures Decrypt(s, Encrypt(s, message, fuel).0.value, fuel) == (Some(Letters(message)), Encrypt(s, message, fuel).1)
  {
    var m := Letters(message);
    var c := Encrypt(s, message, fuel).0.value;
    LettersOfLetters(c);
    DecryptWithUndoes(m, Keys(s, |m|, fuel).0.value);
  }

  /** And the other way round: encrypting a decrypted message restores its letters. */
  lemma EncryptUndoesDecrypt(s: seq<int>, message: string, fuel: nat)
    requires Playable(s) && Decrypt(s, message, fuel).0.Some?
    ensures Encrypt(s, Decrypt(s, message, fuel).0.value, fuel) == (Some(Letters(message)), Decrypt(s, message, fuel).1)
  {
    var m := Letters(message);
    var p := Decrypt(s, message, fuel).0.value;
    LettersOfLetters(p);
    DecryptWithUndoes(m, Keys(s, |m|, fuel).0.value);
  }
}
