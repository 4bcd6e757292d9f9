# Tongue-Twister game logic in Dafny

Tongue-Twister is a word-guessing game. The player guesses a secret tongue
twister one letter at a time, or guesses the whole phrase at once. Each wrong
guess shows one more part of a snowman. This project models the game's
browser-side logic and proves what it promises:

- `Classes.Phrase` holds the upper-cased secret `text` and the `display`
  shown to the player. It finds the positions of a guessed letter, writes the
  letter into the display there, and says whether the display shows the
  phrase.
- `Classes.Snowman` is the snowman's part counter. Its part images are
  abstracted to an array of visibility flags.
- `Dictionaries.Dictionary` serves phrases from a fixed catalog of nine
  tongue twisters. It pops them from a pool that is a Fisher–Yates shuffle of
  a copy of the catalog, and reshuffles once the pool is empty.

Files:

- `casing.dfy` (module `Casing`): upper-casing of characters and strings.
- `classes.dfy` (module `Classes`): `Phrase`, `Snowman` and the reference
  functions their contracts use.
  - `Reveal` is what a guess shows.
  - `Accepts` says which guesses are right.
  - `PlaceAll` is the effect of writing a letter at a list of positions.
- `dictionary.dfy` (module `Dictionaries`): the catalog, the shuffle and the
  `Dictionary` class.
  - `ShuffleDown` and `Shuffled` are the reference definition of the shuffle
    loop.
  - `picks[i]` is the random index, between 0 and i, that position i is
    swapped with.

The model follows the code where its comments suggest otherwise. The
`Phrase` constructor sets `display` to the phrase itself (public/classes.js:132).
So the display starts fully revealed, not as placeholders. Every accepted
guess writes the phrase's own characters back into the display. The model
keeps this behaviour and proves its consequences:

- `Phrase.IsInPhrase` keeps `display == text` once it holds.
- `Phrase.IsPhraseComplete` is then true from construction on.

## Model

| member | source | states |
|---|---|---|
| Casing.Upper | public/classes.js:172 | the upper-case form of a character is never a lower-case letter; only lower-case letters change, and each becomes the matching upper-case letter ('a' to 'A', ..., 'z' to 'Z') |
| Casing.UpperStr | public/classes.js:131 | upper-casing a string keeps its length and upper-cases each character in place; the result is upper case, and an upper-case string is left unchanged (so it is idempotent) |
| Classes.ReplaceAt | public/classes.js:207-210 | writing a replacement inside the display keeps the length, puts the replacement at the index and changes no other position; at or past the end it extends or appends |
| Classes.PlaceAllAt | public/classes.js:184-188 | writing a letter at in-range positions keeps the length, shows the letter at every listed position and leaves every other position as it was |
| Classes.Phrase.constructor | public/classes.js:130-133 | the phrase is the upper-cased input and the display starts equal to it |
| Classes.Phrase.FindLetter | public/classes.js:169-177 | the result is exactly the positions whose upper-case character matches the upper-cased guess letter, in strictly ascending order |
| Classes.Phrase.ReplaceLetterPlaceholders | public/classes.js:184-188 | the new display is the letter written at each index in turn; for in-range indices the letter is shown at exactly those positions and nothing else changes |
| Classes.Phrase.IsInPhrase | public/classes.js:147-163 | a guess is accepted iff it is empty, a letter that occurs in the phrase, or the phrase itself (case-insensitively); an accepted guess reveals its letters, a rejected one leaves the display alone, the empty guess changes nothing, and a display showing the phrase keeps showing it |
| Classes.Phrase.IsPhraseComplete | public/classes.js:195-197 | the phrase is complete iff the display equals the phrase, and it is whenever the display is the phrase |
| Classes.RevealLetter | public/classes.js:155-159 | one step of the guess loop: writing a letter at the positions where the phrase holds it reveals that letter in addition to the earlier ones |
| Classes.RevealOneMore | public/classes.js:154-160 | revealing one more letter changes exactly the positions holding that letter |
| Classes.NotInText | public/classes.js:155-157 | a letter with no upper-case match in the phrase does not occur in it, so the guess is rejected |
| Classes.RevealKeepsComplete | public/classes.js:130-160 | revealing any letters into a display that shows the phrase leaves it showing the phrase |
| Classes.RevealWholePhrase | public/classes.js:150-162 | revealing the phrase's own characters shows the whole phrase, whatever the display was |
| Classes.RevealIdempotent | public/classes.js:154-160 | guessing the same letters again does not change the display any further |
| Classes.RevealNothing | public/classes.js:154-162 | revealing no letters leaves the display as it was |
| Classes.WholePhraseAccepted | public/classes.js:148-153 | guessing the phrase in any case is accepted |
| Classes.MissingLetterRejected | public/classes.js:154-158 | a letter that occurs nowhere in the phrase, in any case, is rejected |
| Classes.Snowman.constructor | public/classes.js:39-41 | the snowman has four parts, all hidden, and no part index is visible |
| Classes.Snowman.ShowNext | public/classes.js:48-53 | with the last part shown nothing changes; otherwise the index moves up by one and exactly that part becomes visible; the parts up to the index stay the visible ones |
| Classes.Snowman.HasMoreParts | public/classes.js:59-61 | some part is hidden iff the visible index is below the last part, that is, iff `ShowNext` would still show a part |
| Classes.Snowman.Reset | public/classes.js:65-68 | every part is hidden and the visible index is -1 |
| Dictionaries.CatalogDistinct | public/dictionary.js:18-28 | the catalog holds nine phrases and no two are equal |
| Dictionaries.ShuffleDown | public/dictionary.js:66-71 | the swap loop run from position i down to 1, as a function: the length is kept and the positions above i are left alone, since each pick is at most its position |
| Dictionaries.Shuffled | public/dictionary.js:64-73 | the whole shuffle, the loop run from the last position down: the length is kept |
| Dictionaries.Clone | public/dictionary.js:30 | the copy is a fresh array holding the sequence's elements in order |
| Dictionaries.ShuffleDownPermutes | public/dictionary.js:66-71 | the shuffle loop's result is a permutation of its input |
| Dictionaries.ShuffleDownUsesLowerPicks | public/dictionary.js:66-71 | the result of the loop from position i down depends only on the random picks for positions up to i |
| Dictionaries.ShuffleReachesEvery | public/dictionary.js:66-71 | every permutation of the input is produced by some choice of random indices within bounds |
| Dictionaries.ShuffleDownReachesEvery | public/dictionary.js:66-71 | any arrangement of the prefix up to position i is produced by some picks, given the rest already agrees |
| Dictionaries.SwapIntoPlace | public/dictionary.js:67-70 | some index j <= i moves the wanted element to position i and leaves the elements of the target prefix below i |
| Dictionaries.Dictionary.Shuffle | public/dictionary.js:64-73 | the array after the in-place loop is the reference shuffle of the array before it, with in-bounds accesses throughout, and its elements form the same multiset |
| Dictionaries.Dictionary.ShuffledCopy | public/dictionary.js:41-54 | shuffling a copy of the catalog yields the reference shuffle of the catalog, a permutation of it, and leaves the catalog alone |
| Dictionaries.Dictionary.constructor | public/dictionary.js:40-42 | the catalog is the phrase list and the pool is its shuffle, a permutation of the catalog |
| Dictionaries.Dictionary.GetPhrase | public/dictionary.js:52-57 | a non-empty pool loses exactly its last entry, which is returned; an empty pool is first refilled with a shuffle of the catalog; the phrase returned is always a catalog phrase and the pool stays a sub-multiset of the catalog |
| Dictionaries.DrawCycle | public/dictionary.js:40-57 | from a full pool, as many draws as the catalog has phrases return every catalog phrase exactly once and empty the pool |
| Dictionaries.CountOfDistinct | public/dictionary.js:18-28 | in a catalog without repeats every phrase occurs exactly once |

## Left out

- functions/index.js is not part of this model. It routes Dialogflow and
  Firebase intents and picks canned replies with a floating-point random
  index.
- `PhrasePlaceholder` (public/classes.js:80-118) is not modelled. It only
  lays out Phaser bitmap text with floating-point screen arithmetic.
- The Phaser images of the `Snowman` constructor (public/classes.js:27-43)
  are not modelled. The model keeps one visibility flag per part, and the
  flags start hidden.
- `setBitmapText` and the `bitMapText.text` write in `isInPhrase`
  (public/classes.js:138-140, 161) are not modelled. They are rendering side
  effects.
- `Math.random` in `shuffle` (public/dictionary.js:67) becomes the `picks`
  parameter: one index in `[0, i]` per position. No claim about the
  distribution of shuffles is made. What is proved instead is that every
  permutation is reachable by some picks.
- Casing.Upper: `toUpperCase`/`toLocaleUpperCase` are modelled as ASCII
  upper-casing, one character to one character. Locale rules and Unicode
  mappings that change a string's length (such as the German sharp s) are
  not modelled.
- Strings are sequences of Dafny characters. JavaScript's UTF-16 code units,
  which `letterOrPhrase[i]` indexes, are not modelled separately.
- The JSON `clone` (public/dictionary.js:30) is modelled as copying a
  sequence into a fresh array.
