/** The game's two stateful pieces of classes.js: the phrase being guessed,
    with the string shown to the player, and the snowman whose parts appear
    one after another on wrong guesses. */
module Classes {
  import opened Casing

  /** The string `display` with `replacement` written over it from position
      `index` on; characters of `replacement` past the end of `display` extend
      it, and an `index` past the end appends `replacement`. */
  function ReplaceAt(display: string, index: nat, replacement: string): (r: string)
    ensures index + |replacement| <= |display| ==>
      && |r| == |display|
      && r[index..index + |replacement|] == replacement
      && (forall j :: 0 <= j < |display| && !(index <= j < index + |replacement|) ==> r[j] == display[j])
    ensures |display| <= index ==> r == display + replacement
    ensures index <= |display| <= index + |replacement| ==> r == display[..index] + replacement
  {
    var head := if index <= |display| then index else |display|;
    var tail := if index + |replacement| <= |display| then index + |replacement| else |display|;
    display[..head] + replacement + display[tail..]
  }

  /** The display after writing the one-character string [letter] at each of
      `indices` in turn, the first index first. */
  function PlaceAll(display: string, letter: char, indices: seq<nat>): string
    decreases |indices|
  {
    if indices == [] then display
    else PlaceAll(ReplaceAt(display, indices[0], [letter]), letter, indices[1..])
  }

  /** Writing a letter at in-range positions keeps the length, puts the letter
      at every listed position and leaves every other position as it was. */
  lemma {:induction false} PlaceAllAt(display: string, letter: char, indices: seq<nat>)
    requires forall k :: 0 <= k < |indices| ==> indices[k] < |display|
    ensures |PlaceAll(display, letter, indices)| == |display|
    ensures forall j :: 0 <= j < |display| ==>
      PlaceAll(display, letter, indices)[j] == if j in indices then letter else display[j]
    decreases |indices|
  {
    if indices != [] {
      var next := ReplaceAt(display, indices[0], [letter]);
      assert |next| == |display|;
      PlaceAllAt(next, letter, indices[1..]);
      forall j | 0 <= j < |display|
        ensures PlaceAll(display, letter, indices)[j] == if j in indices then letter else display[j]
      {
        assert j in indices <==> j == indices[0] || j in indices[1..] by {
          assert indices == [indices[0]] + indices[1..];
        }
        if j == indices[0] {
          assert next[j] == letter by { assert next[j..j + 1] == [letter]; }
        }
      }
    }
  }

  /** The reference meaning of a guess: every position of `text` whose
      character occurs in `letters` shows that character, every other position
      keeps what `display` showed. */
  function Reveal(text: string, display: string, letters: string): (r: string)
    requires |display| == |text|
    ensures |r| == |text|
  {
    seq(|text|, j requires 0 <= j < |text| => if text[j] in letters then text[j] else display[j])
  }

  /** Whether an upper-cased guess is accepted against the phrase `text`: an
      empty guess is, a single letter is when it occurs in the phrase, and a
      longer guess is when it is the phrase. */
  predicate Accepts(text: string, guess: string) {
    || |guess| == 0
    || (|guess| == 1 && guess[0] in text)
    || (|guess| > 1 && guess == text)
  }

  /** Revealing one more letter, given the display for the letters before it:
      positions holding that letter show it, the others are unchanged. */
  lemma RevealOneMore(text: string, start: string, letters: string, letter: char, before: string, after: string)
    requires |start| == |text|
    requires before == Reveal(text, start, letters)
    requires |after| == |text|
    requires forall j :: 0 <= j < |text| ==> after[j] == if text[j] == letter then letter else before[j]
    ensures after == Reveal(text, start, letters + [letter])
  {
    forall j | 0 <= j < |text|
      ensures after[j] == Reveal(text, start, letters + [letter])[j]
    {
      assert text[j] in letters + [letter] <==> text[j] in letters || text[j] == letter;
    }
  }

  /** One step of a guess: writing the upper-case letter `guess[i]` at
      exactly the positions where the upper-case phrase holds it extends the
      revealed letters from `guess[..i]` to `guess[..i + 1]`. */
  lemma RevealLetter(text: string, start: string, guess: string, i: nat,
                     indices: seq<nat>, before: string, after: string)
    requires IsUpper(text) && IsUpper(start) && i < |guess| && Upper(guess[i]) == guess[i]
    requires |start| == |text|
    requires before == Reveal(text, start, guess[..i])
    requires forall k :: 0 <= k < |indices| ==> indices[k] < |text| && Upper(guess[i]) == Upper(text[indices[k]])
    requires forall j :: 0 <= j < |text| && Upper(guess[i]) == Upper(text[j]) ==> j in indices
    requires |after| == |before|
    requires forall j :: 0 <= j < |after| ==> after[j] == if j in indices then guess[i] else before[j]
    ensures after == Reveal(text, start, guess[..i + 1])
    ensures IsUpper(after)
    ensures |indices| > 0 ==> guess[i] in text
  {
    RevealOneMore(text, start, guess[..i], guess[i], before, after);
    assert guess[..i + 1] == guess[..i] + [guess[i]];
    if |indices| > 0 {
      assert text[indices[0]] == guess[i];
    }
  }

  /** A character whose upper-case form matches no position of the phrase
      does not occur in it. */
  lemma NotInText(text: string, c: char)
    requires forall i :: 0 <= i < |text| ==> Upper(c) != Upper(text[i])
    ensures c !in text
  {
  }

  /** Revealing letters into a display that already shows the phrase changes
      nothing: the phrase stays complete. */
  lemma RevealKeepsComplete(text: string, letters: string)
    ensures Reveal(text, text, letters) == text
  {
  }

  /** Revealing the phrase's own characters shows the whole phrase, whatever
      the display showed before. */
  lemma RevealWholePhrase(text: string, display: string)
    requires |display| == |text|
    ensures Reveal(text, display, text) == text
  {
  }

  /** Guessing the same letters twice shows the same display as guessing them
      once. */
  lemma RevealIdempotent(text: string, display: string, letters: string)
    requires |display| == |text|
    ensures Reveal(text, Reveal(text, display, letters), letters) == Reveal(text, display, letters)
  {
  }

  /** Revealing nothing leaves the display as it was. */
  lemma RevealNothing(text: string, display: string)
    requires |display| == |text|
    ensures Reveal(text, display, []) == display
  {
  }

  /** Guessing the phrase itself, in any case, is accepted. */
  lemma WholePhraseAccepted(text: string, guess: string)
    requires IsUpper(text)
    requires UpperStr(guess) == text
    ensures Accepts(text, UpperStr(guess))
  {
  }

  /** A letter that does not occur in the phrase, in any case, is rejected. */
  lemma MissingLetterRejected(text: string, letter: char)
    requires IsUpper(text)
    requires forall i :: 0 <= i < |text| ==> text[i] != Upper(letter)
    ensures !Accepts(text, UpperStr([letter]))
  {
    assert UpperStr([letter])[0] == Upper(letter);
  }

  /** The phrase to guess: the upper-cased secret `text` and the `display`
      shown to the player. */
  class Phrase {
    const text: string
    var display: string

    /** The display has the phrase's length, and both are upper case. */
    ghost predicate Valid()
      reads this
    {
      |display| == |text| && IsUpper(text) && IsUpper(display)
    }

    /** The phrase is stored upper-cased and the display starts as the whole
        phrase, so the phrase counts as complete from the start. */
    constructor (t: string)
      ensures Valid()
      ensures text == UpperStr(t)
      ensures display == text
    {
      text := UpperStr(t);
      display := UpperStr(t);
    }

    /** The positions of `guessLetter` in the phrase, compared in upper case,
        in ascending order. */
    method FindLetter(guessLetter: char) returns (indices: seq<nat>)
      ensures forall k :: 0 <= k < |indices| ==>
        indices[k] < |text| && Upper(guessLetter) == Upper(text[indices[k]])
      ensures forall i :: 0 <= i < |text| && Upper(guessLetter) == Upper(text[i]) ==> i in indices
      ensures forall k, l :: 0 <= k < l < |indices| ==> indices[k] < indices[l]
    {
      indices := [];
      for index := 0 to |text|
        invariant forall k :: 0 <= k < |indices| ==>
          indices[k] < index && Upper(guessLetter) == Upper(text[indices[k]])
        invariant forall i :: 0 <= i < index && Upper(guessLetter) == Upper(text[i]) ==> i in indices
        invariant forall k, l :: 0 <= k < l < |indices| ==> indices[k] < indices[l]
      {
        if Upper(guessLetter) == Upper(text[index]) {
          indices := indices + [index];
        }
      }
    }

    /** Writes `letter` into the display at each of `indices`; at in-range
        positions this shows the letter there and changes nothing else. */
    method ReplaceLetterPlaceholders(letter: char, indices: seq<nat>)
      modifies this
      ensures display == PlaceAll(old(display), letter, indices)
      ensures (forall k :: 0 <= k < |indices| ==> indices[k] < |old(display)|) ==>
        && |display| == |old(display)|
        && (forall j :: 0 <= j < |display| ==> display[j] == if j in indices then letter else old(display)[j])
    {
      for k := 0 to |indices|
        invariant PlaceAll(display, letter, indices[k..]) == PlaceAll(old(display), letter, indices)
      {
        assert indices[k..][1..] == indices[k + 1..];
        display := ReplaceAt(display, indices[k], [letter]);
      }
      assert indices[|indices|..] == [];
      if forall k :: 0 <= k < |indices| ==> indices[k] < |old(display)| {
        PlaceAllAt(old(display), letter, indices);
      }
    }

    /** Evaluates a guess, a single letter or the whole phrase. The guess is
        accepted exactly as `Accepts` says; an accepted guess reveals its
        letters, a rejected one leaves the display as it was. The display
        keeps the phrase's length, once it shows the phrase it keeps
        showing it, and the empty guess is accepted and changes nothing. */
    method IsInPhrase(letterOrPhrase: string) returns (found: bool)
      requires Valid()
      modifies this
      ensures Valid()
      ensures found == Accepts(text, UpperStr(letterOrPhrase))
      ensures found ==> display == Reveal(text, old(display), UpperStr(letterOrPhrase))
      ensures !found ==> display == old(display)
      ensures old(display) == text ==> display == text
      ensures |letterOrPhrase| == 0 ==> found && display == old(display)
    {
      var guess := UpperStr(letterOrPhrase);
      if |guess| > 1 && UpperStr(guess) != UpperStr(text) {
        return false;
      }
      ghost var start := display;
      var i := 0;
      while i < |guess|
        invariant 0 <= i <= |guess|
        invariant Valid()
        invariant |guess| > 1 ==> guess == text
        invariant i > 0 ==> guess[0] in text
        invariant display == Reveal(text, start, guess[..i])
      {
        var letterIndexes := FindLetter(guess[i]);
        if |letterIndexes| == 0 {
          assert |guess| > 1 ==> i in letterIndexes;
          RevealNothing(text, start);
          NotInText(text, guess[0]);
          return false;
        }
        ghost var before := display;
        ReplaceLetterPlaceholders(guess[i], letterIndexes);
        RevealLetter(text, start, guess, i, letterIndexes, before, display);
        i := i + 1;
      }
      assert guess[..i] == guess;
      RevealKeepsComplete(text, guess);
      RevealNothing(text, start);
      return true;
    }

    /** Whether the display shows the phrase. Because the display starts as
        the phrase and every guess keeps it so, this holds for every
        `Phrase` the game builds. */
    function IsPhraseComplete(): (complete: bool)
      reads this
      ensures display == text ==> complete
      ensures Valid() ==> (complete <==> display == text)
    {
      UpperStr(text) == UpperStr(display)
    }
  }

  /** The snowman drawn on wrong guesses: one visibility flag per part image,
      and the index of the last part shown (-1 when none is). */
  class Snowman {
    const parts: array<bool>
    var visibleIndex: int

    /** Exactly the parts up to `visibleIndex` are visible. */
    ghost predicate Valid()
      reads this, parts
    {
      && -1 <= visibleIndex < parts.Length
      && forall i :: 0 <= i < parts.Length ==> parts[i] == (i <= visibleIndex)
    }

    /** Four part images, all hidden. */
    constructor ()
      ensures Valid() && fresh(parts)
      ensures parts.Length == 4 && visibleIndex == -1
    {
      parts := new bool[4](_ => false);
      visibleIndex := -1;
    }

    /** Shows the next part, or does nothing once the last part is shown. */
    method ShowNext()
      requires Valid()
      modifies this, parts
      ensures Valid()
      ensures old(visibleIndex) == parts.Length - 1 ==>
        visibleIndex == old(visibleIndex) && parts[..] == old(parts[..])
      ensures old(visibleIndex) < parts.Length - 1 ==>
        visibleIndex == old(visibleIndex) + 1 && parts[..] == old(parts[..])[visibleIndex := true]
    {
      if visibleIndex == parts.Length - 1 {
        return;
      }
      visibleIndex := visibleIndex + 1;
      parts[visibleIndex] := true;
    }

    /** Whether some part is still hidden, which is whether `ShowNext` would
        still show one. */
    function HasMoreParts(): (more: bool)
      reads this, parts
      ensures Valid() ==> (more <==> visibleIndex < parts.Length - 1)
    {
      assert Valid() && visibleIndex < parts.Length - 1 ==> !parts[parts.Length - 1];
      exists i :: 0 <= i < parts.Length && !parts[i]
    }

    /** Hides every part. */
    method Reset()
      modifies this, parts
      ensures Valid() && visibleIndex == -1
      ensures forall i :: 0 <= i < parts.Length ==> !parts[i]
    {
      for k := 0 to parts.Length
        invariant forall i :: 0 <= i < k ==> !parts[i]
      {
        parts[k] := false;
      }
      visibleIndex := -1;
    }
  }
}
