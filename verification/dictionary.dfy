/** The supply of phrases of dictionary.js: a fixed catalog, served in a
    shuffled order without repetition until the pool runs out, then
    reshuffled. The random numbers of the shuffle are a parameter: `picks[i]`
    is the index, between 0 and i, that position i is swapped with. */
module Dictionaries {

  /** The catalog of tongue twisters the game asks the player to guess. */
  const Phrases: seq<string> := [
    SheSells, SusieShoe, IScream, RuggedRock, SixthSheik,
    ThoughtAThought, DeniseFleece, LukeLuck, BlackBackground
  ]

  const SheSells: string := "She sells seashells by the seashore"
  const SusieShoe: string := "I saw Susie sitting in a shoe shine shop"
  const IScream: string := "I scream, you scream, we all scream for ice cream"
  const RuggedRock: string := "Round the rough and rugged rock the ragged rascal rudely ran."
  const SixthSheik: string := "The sixth sick sheik's sixth sheep's sick."
  const ThoughtAThought: string := "I thought a thought, But the thought I thought wasn\U{2019}t the thought I thought I thought. If the thought I thought thought had been the thought thought, I wouldn\U{2019}t have thought so much."
  const DeniseFleece: string := "Denise sees the fleece, Denise sees the fleas. At least Denise could sneeze. And feed and freeze the fleas."
  const LukeLuck: string := "Luke Luck likes lakes. Luke\U{2019}s duck likes lakes. Luke Luck licks lakes. Luke\U{2019}s duck licks lakes. Duck takes licks in lakes Luke Luck likes. Luke Luck takes licks in lakes duck likes."
  const BlackBackground: string := "Black background, brown background, Brown background, black background, Background background, black, black, brown, brown."

  /** No element of `s` occurs twice. */
  predicate Distinct<T(==)>(s: seq<T>) {
    forall i, j :: 0 <= i < j < |s| ==> s[i] != s[j]
  }

  /** The catalog holds nine phrases, no two alike. */
  lemma CatalogDistinct()
    ensures |Phrases| == 9
    ensures Distinct(Phrases)
  {
  }

  /** Random choices a shuffle of `n` elements can make: for every position
      i, an index between 0 and i. */
  predicate ValidPicks(picks: seq<int>, n: nat) {
    |picks| == n && forall i :: 0 <= i < n ==> 0 <= picks[i] <= i
  }

  /** `s` with the elements at `i` and `j` exchanged. */
  function Swap<T>(s: seq<T>, i: nat, j: nat): (r: seq<T>)
    requires i < |s| && j < |s|
    ensures |r| == |s|
  {
    s[i := s[j]][j := s[i]]
  }

  /** Exchanging two elements keeps the multiset of elements. */
  lemma SwapPermutes<T>(s: seq<T>, i: nat, j: nat)
    requires i < |s| && j < |s|
    ensures multiset(Swap(s, i, j)) == multiset(s)
  {
  }

  /** The result of the shuffle's loop run from position `i` down to 1: each
      position in turn is exchanged with the one its pick names. Since a pick
      never exceeds its position, the positions above `i` are left alone. */
  function ShuffleDown<T>(s: seq<T>, picks: seq<int>, i: int): (r: seq<T>)
    requires ValidPicks(picks, |s|) && i < |s|
    ensures |r| == |s|
    ensures forall k :: 0 <= k < |s| && i < k ==> r[k] == s[k]
    decreases i
  {
    if i <= 0 then s else ShuffleDown(Swap(s, i, picks[i]), picks, i - 1)
  }

  /** The shuffle rearranges its input: it is a permutation of `s`. */
  lemma {:induction false} ShuffleDownPermutes<T>(s: seq<T>, picks: seq<int>, i: int)
    requires ValidPicks(picks, |s|) && i < |s|
    ensures multiset(ShuffleDown(s, picks, i)) == multiset(s)
    decreases i
  {
    if i > 0 {
      SwapPermutes(s, i, picks[i]);
      ShuffleDownPermutes(Swap(s, i, picks[i]), picks, i - 1);
    }
  }

  /** The shuffle of a whole sequence. */
  function Shuffled<T>(s: seq<T>, picks: seq<int>): (r: seq<T>)
    requires ValidPicks(picks, |s|)
    ensures |r| == |s|
  {
    ShuffleDown(s, picks, |s| - 1)
  }

  /** The shuffle's result at positions `i` and below depends only on the
      picks for those positions. */
  lemma {:induction false} ShuffleDownUsesLowerPicks<T>(s: seq<T>, picks: seq<int>, other: seq<int>, i: int)
    requires ValidPicks(picks, |s|) && ValidPicks(other, |s|) && i < |s|
    requires forall k :: 0 <= k <= i ==> picks[k] == other[k]
    ensures ShuffleDown(s, picks, i) == ShuffleDown(s, other, i)
    decreases i
  {
    if i > 0 {
      var s' := Swap(s, i, picks[i]);
      assert picks[i] == other[i];
      ShuffleDownUsesLowerPicks(s', picks, other, i - 1);
      assert ShuffleDown(s, other, i) == ShuffleDown(s', other, i - 1);
    }
  }

  /** Moving an element of the prefix `s[..i + 1]` that equals `t[i]` to
      position i leaves a prefix with the elements of `t[..i]` and agreement
      with `t` from position i on. */
  lemma SwapIntoPlace<T>(s: seq<T>, t: seq<T>, i: nat) returns (j: nat)
    requires |s| == |t| && 0 < i < |s|
    requires multiset(s[..i + 1]) == multiset(t[..i + 1])
    requires forall k :: i < k < |s| ==> s[k] == t[k]
    ensures j <= i
    ensures multiset(Swap(s, i, j)[..i]) == multiset(t[..i])
    ensures forall k :: i - 1 < k < |s| ==> Swap(s, i, j)[k] == t[k]
  {
    j := FindInPrefix(s, t, i);
    SwapKeepsRest(s, t, i, j);
    SwapLeavesPrefix(s, t, i, j);
  }

  /** An element of `t[..i + 1]` occurs in `s[..i + 1]` when the two prefixes
      hold the same elements. */
  lemma FindInPrefix<T>(s: seq<T>, t: seq<T>, i: nat) returns (j: nat)
    requires |s| == |t| && i < |s|
    requires multiset(s[..i + 1]) == multiset(t[..i + 1])
    ensures j <= i && s[j] == t[i]
  {
    assert t[i] in multiset(s[..i + 1]) by {
      assert t[..i + 1] == t[..i] + [t[i]];
    }
    j :| 0 <= j <= i && s[j] == t[i];
  }

  /** After moving `t[i]` from position j to position i, `s` agrees with `t`
      from position i on. */
  lemma SwapKeepsRest<T>(s: seq<T>, t: seq<T>, i: nat, j: nat)
    requires |s| == |t| && j <= i < |s| && s[j] == t[i]
    requires forall k :: i < k < |s| ==> s[k] == t[k]
    ensures forall k :: i - 1 < k < |s| ==> Swap(s, i, j)[k] == t[k]
  {
  }

  /** After moving `t[i]` from position j to position i, the positions below
      i hold the elements of `t[..i]`. */
  lemma SwapLeavesPrefix<T>(s: seq<T>, t: seq<T>, i: nat, j: nat)
    requires |s| == |t| && j <= i < |s| && s[j] == t[i]
    requires multiset(s[..i + 1]) == multiset(t[..i + 1])
    ensures multiset(Swap(s, i, j)[..i]) == multiset(t[..i])
  {
    var s' := Swap(s, i, j);
    SwapWithinPrefix(s, i, j);
    assert s'[..i + 1] == s'[..i] + [t[i]];
    assert t[..i + 1] == t[..i] + [t[i]];
    CancelLast(s'[..i], t[..i], t[i]);
  }

  /** An exchange of two positions up to `i` keeps the multiset of the
      prefix up to `i`. */
  lemma SwapWithinPrefix<T>(s: seq<T>, i: nat, j: nat)
    requires j <= i < |s|
    ensures multiset(Swap(s, i, j)[..i + 1]) == multiset(s[..i + 1])
  {
    assert Swap(s, i, j)[..i + 1] == Swap(s[..i + 1], i, j);
    SwapPermutes(s[..i + 1], i, j);
  }

  /** Equal multisets stay equal when the same element is taken from both. */
  lemma CancelLast<T>(a: seq<T>, b: seq<T>, x: T)
    requires multiset(a + [x]) == multiset(b + [x])
    ensures multiset(a) == multiset(b)
  {
    calc {
      multiset(a);
      multiset(a + [x]) - multiset{x};
      multiset(b + [x]) - multiset{x};
      multiset(b);
    }
  }

  /** Setting the pick of position `i` to `j` puts the exchange of `i` and
      `j` in front of the shuffle of the lower positions. */
  lemma PickInFront<T>(s: seq<T>, rest: seq<int>, i: int, j: nat)
    requires ValidPicks(rest, |s|) && 0 < i < |s| && j <= i
    ensures ValidPicks(rest[i := j], |s|)
    ensures ShuffleDown(s, rest[i := j], i) == ShuffleDown(Swap(s, i, j), rest, i - 1)
  {
    ShuffleDownUsesLowerPicks(Swap(s, i, j), rest, rest[i := j], i - 1);
  }

  /** Every arrangement of the prefix `s[..i + 1]` is produced by some picks:
      the shuffle can produce every permutation. */
  lemma {:induction false} ShuffleDownReachesEvery<T>(s: seq<T>, t: seq<T>, i: int) returns (picks: seq<int>)
    requires |s| == |t| && i < |s|
    requires 0 <= i ==> multiset(s[..i + 1]) == multiset(t[..i + 1])
    requires forall k :: i < k < |s| && 0 <= k ==> s[k] == t[k]
    ensures ValidPicks(picks, |s|)
    ensures ShuffleDown(s, picks, i) == t
    decreases i
  {
    if i <= 0 {
      picks := seq(|s|, k => 0);
      SameWhenPrefixAgrees(s, t, i);
    } else {
      var j := SwapIntoPlace(s, t, i);
      var rest := ShuffleDownReachesEvery(Swap(s, i, j), t, i - 1);
      PickInFront(s, rest, i, j);
      picks := rest[i := j];
    }
  }

  /** Two sequences that agree above position `i <= 0` and, when `i` is 0,
      hold the same element at 0, are equal. */
  lemma SameWhenPrefixAgrees<T>(s: seq<T>, t: seq<T>, i: int)
    requires |s| == |t| && i <= 0 && i < |s|
    requires i == 0 ==> multiset(s[..1]) == multiset(t[..1])
    requires forall k :: i < k < |s| && 0 <= k ==> s[k] == t[k]
    ensures s == t
  {
    if i == 0 && |s| > 0 {
      assert s[..1] == [s[0]] && t[..1] == [t[0]];
      assert s[0] in multiset{t[0]};
    }
  }

  /** For every permutation `t` of `s` there are picks that shuffle `s` into
      `t`. */
  lemma ShuffleReachesEvery<T>(s: seq<T>, t: seq<T>)
    requires multiset(s) == multiset(t)
    ensures exists picks :: ValidPicks(picks, |s|) && Shuffled(s, picks) == t
  {
    assert |s| == |multiset(s)| == |multiset(t)| == |t|;
    assert s[..|s|] == s && t[..|t|] == t;
    var picks := ShuffleDownReachesEvery(s, t, |s| - 1);
  }

  /** A fresh array holding the elements of `s`. */
  method Clone<T>(s: seq<T>) returns (a: array<T>)
    ensures fresh(a) && a[..] == s
  {
    a := new T[|s|](i requires 0 <= i < |s| => s[i]);
  }

  /** The phrase supply: `entries` is the pool still to be served, its last
      element first; `catalog` is the phrase catalog the pool is refilled
      from, which nothing changes. */
  class Dictionary {
    const catalog: seq<string>
    var entries: seq<string>

    /** The catalog is non-empty and without repeats, and the pool holds
        catalog phrases only, each at most as often as the catalog does. */
    ghost predicate Valid()
      reads this
    {
      && catalog != []
      && Distinct(catalog)
      && multiset(entries) <= multiset(catalog)
    }

    /** Fisher-Yates shuffle of `a` in place: from the last position down to
        position 1, each position is exchanged with the one its pick names. */
    static method Shuffle<T>(a: array<T>, picks: seq<int>)
      requires ValidPicks(picks, a.Length)
      modifies a
      ensures a[..] == Shuffled(old(a[..]), picks)
      ensures multiset(a[..]) == multiset(old(a[..]))
    {
      ShuffleDownPermutes(a[..], picks, a.Length - 1);
      ghost var goal := Shuffled(a[..], picks);
      ghost var current := a[..];
      var i := a.Length - 1;
      while i > 0
        invariant -1 <= i < a.Length
        invariant a[..] == current
        invariant ShuffleDown(current, picks, i) == goal
      {
        var j := picks[i];
        var x := a[i];
        a[i] := a[j];
        a[j] := x;
        current := Swap(current, i, j);
        i := i - 1;
      }
    }

    /** A shuffled copy of the catalog `c`, as the pool is filled: the
        shuffle of an array holding the elements of `c`, which leaves `c`
        itself alone. */
    static method ShuffledCopy(c: seq<string>, picks: seq<int>) returns (pool: seq<string>)
      requires ValidPicks(picks, |c|)
      ensures pool == Shuffled(c, picks)
      ensures multiset(pool) == multiset(c)
    {
      var a := Clone(c);
      Shuffle(a, picks);
      pool := a[..];
    }

    /** The catalog is the phrase list, and the pool starts as a shuffle of
        a copy of it. */
    constructor (picks: seq<int>)
      requires ValidPicks(picks, |Phrases|)
      ensures Valid()
      ensures catalog == Phrases
      ensures entries == Shuffled(catalog, picks)
      ensures multiset(entries) == multiset(catalog)
    {
      catalog := Phrases;
      CatalogDistinct();
      var pool := ShuffledCopy(Phrases, picks);
      entries := pool;
    }

    /** Serves the last phrase of the pool and removes it; an empty pool is
        first refilled with a shuffle of a copy of the catalog (the picks are
        used only then). A phrase is always served, and it is a catalog
        phrase. */
    method GetPhrase(picks: seq<int>) returns (phrase: string)
      requires Valid()
      requires ValidPicks(picks, |catalog|)
      modifies this
      ensures Valid()
      ensures phrase in catalog
      ensures old(entries) != [] ==>
        && phrase == old(entries)[|old(entries)| - 1]
        && entries == old(entries)[..|old(entries)| - 1]
      ensures old(entries) == [] ==>
        var pool := Shuffled(catalog, picks);
        && phrase == pool[|pool| - 1]
        && entries == pool[..|pool| - 1]
      ensures multiset(entries) + multiset{phrase} ==
        if old(entries) == [] then multiset(catalog) else multiset(old(entries))
    {
      if |entries| == 0 {
        entries := ShuffledCopy(catalog, picks);
      }
      phrase := entries[|entries| - 1];
      ghost var pool := entries;
      entries := entries[..|entries| - 1];
      assert pool == entries + [phrase];
      assert phrase in multiset(catalog);
    }
  }

  /** Drawing as many phrases as the catalog holds, starting from a full
      pool, serves every catalog phrase exactly once and empties the pool. */
  method DrawCycle(d: Dictionary, picks: seq<int>) returns (drawn: seq<string>)
    requires d.Valid() && multiset(d.entries) == multiset(d.catalog)
    requires ValidPicks(picks, |d.catalog|)
    modifies d
    ensures d.Valid() && d.entries == []
    ensures multiset(drawn) == multiset(d.catalog)
    ensures forall p :: p in d.catalog ==> multiset(drawn)[p] == 1
  {
    var n := |d.catalog|;
    assert |d.entries| == |multiset(d.entries)| == |multiset(d.catalog)| == n;
    drawn := [];
    for k := 0 to n
      invariant d.Valid()
      invariant |drawn| == k && |d.entries| == n - k
      invariant multiset(drawn) + multiset(d.entries) == multiset(d.catalog)
    {
      var phrase := d.GetPhrase(picks);
      drawn := drawn + [phrase];
    }
    forall p | p in d.catalog
      ensures multiset(drawn)[p] == 1
    {
      var i :| 0 <= i < |d.catalog| && d.catalog[i] == p;
      CountOfDistinct(d.catalog, i);
    }
  }

  /** In a sequence without repeated elements every element occurs once. */
  lemma {:induction false} CountOfDistinct<T>(s: seq<T>, i: nat)
    requires Distinct(s)
    requires i < |s|
    ensures multiset(s)[s[i]] == 1
  {
    if i == |s| - 1 {
      assert s == s[..i] + [s[i]];
      assert s[i] !in s[..i];
    } else {
      assert s == s[..|s| - 1] + [s[|s| - 1]];
      CountOfDistinct(s[..|s| - 1], i);
    }
  }
}
