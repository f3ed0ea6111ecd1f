/**
 * `State` of main.c: the secret word and a parallel mask of revealed
 * positions, updated in place by `State_reveal`.
 */
module GameState {
  /** The character `State_print` shows for a hidden letter. */
  const Hidden: char := '-'

  /** The mask after revealing `c`: a position is shown if it already was or if it holds `c`. */
  function Revealed(word: seq<char>, mask: seq<bool>, c: char): seq<bool>
    requires |mask| == |word|
  {
    seq(|word|, i requires 0 <= i < |word| => mask[i] || word[i] == c)
  }

  /** The mask of a new state after the guesses `gs`: a position is shown iff its letter was guessed. */
  function MaskAfter(word: seq<char>, gs: seq<char>): seq<bool>
  {
    seq(|word|, i requires 0 <= i < |word| => word[i] in gs)
  }

  predicate FullyRevealed(mask: seq<bool>)
  {
    forall i :: 0 <= i < |mask| ==> mask[i]
  }

  /** Every distinct letter of `word` occurs among the guesses. */
  predicate AllGuessed(word: seq<char>, gs: seq<char>)
  {
    forall c :: c in word ==> c in gs
  }

  /** The text `State_print` writes for a word under a mask. */
  function Rendered(word: seq<char>, mask: seq<bool>): seq<char>
    requires |mask| == |word|
  {
    seq(|word|, i requires 0 <= i < |word| => if mask[i] then word[i] else Hidden) + ['\n']
  }

  /** Revealing the same letter twice changes nothing the second time. */
  lemma RevealIdempotent(word: seq<char>, mask: seq<bool>, c: char)
    requires |mask| == |word|
    ensures Revealed(word, Revealed(word, mask, c), c) == Revealed(word, mask, c)
  {
  }

  /** A revealed position stays revealed, and a letter absent from the word leaves the mask as it was. */
  lemma RevealNeverHides(word: seq<char>, mask: seq<bool>, c: char)
    requires |mask| == |word|
    ensures forall i :: 0 <= i < |word| && mask[i] ==> Revealed(word, mask, c)[i]
    ensures c !in word ==> Revealed(word, mask, c) == mask
  {
  }

  /** Revealing a letter after the guesses `gs` gives the mask of the guesses `gs + [c]`. */
  lemma RevealExtendsGuesses(word: seq<char>, gs: seq<char>, c: char)
    ensures Revealed(word, MaskAfter(word, gs), c) == MaskAfter(word, gs + [c])
  {
  }

  /** The mask is full exactly when every distinct letter of the word has been guessed. */
  lemma FullyRevealedIffAllGuessed(word: seq<char>, gs: seq<char>)
    ensures FullyRevealed(MaskAfter(word, gs)) <==> AllGuessed(word, gs)
  {
    if FullyRevealed(MaskAfter(word, gs)) {
      forall c | c in word
        ensures c in gs
      {
        var i :| 0 <= i < |word| && word[i] == c;
        assert MaskAfter(word, gs)[i];
      }
    }
  }

  /** A new state shows one `-` per letter. */
  lemma NewStateRendersHidden(word: seq<char>)
    ensures Rendered(word, MaskAfter(word, [])) == seq(|word|, _ => Hidden) + ['\n']
  {
  }

  class State {
    const word: seq<char>
    const revealed: array<bool>

    /** `revealed` runs parallel to `word`, which as a C string holds no NUL. */
    ghost predicate Valid()
      reads this
    {
      revealed.Length == |word| && '\0' !in word
    }

    /** `State_new`: every position starts hidden. */
    constructor (word: seq<char>)
      requires '\0' !in word
      ensures Valid() && this.word == word && fresh(revealed)
      ensures revealed[..] == MaskAfter(word, [])
    {
      this.word := word;
      revealed := new bool[|word|](_ => false);
    }

    /** `State_reveal`: shows every position holding `c` and reports whether there was one. */
    method Reveal(c: char) returns (success: bool)
      requires Valid()
      modifies revealed
      ensures success <==> c in word
      ensures revealed[..] == Revealed(word, old(revealed[..]), c)
    {
      success := false;
      for i := 0 to |word|
        invariant success <==> exists k :: 0 <= k < i && word[k] == c
        invariant forall k :: 0 <= k < i ==> revealed[k] == (old(revealed[k]) || word[k] == c)
        invariant forall k :: i <= k < |word| ==> revealed[k] == old(revealed[k])
      {
        if word[i] == c {
          revealed[i] := true;
          success := true;
        }
      }
    }

    /** `State_print`, writing to a string: one character per letter, then a newline. */
    method Render() returns (s: seq<char>)
      requires Valid()
      ensures |s| == |word| + 1 && s[|word|] == '\n'
      ensures forall i :: 0 <= i < |word| ==> s[i] == (if revealed[i] then word[i] else Hidden)
      ensures s == Rendered(word, revealed[..])
    {
      s := [];
      for i := 0 to |word|
        invariant |s| == i
        invariant forall k :: 0 <= k < i ==> s[k] == (if revealed[k] then word[k] else Hidden)
      {
        s := s + [if revealed[i] then word[i] else Hidden];
      }
      s := s + ['\n'];
    }

    /** `State_is_fully_revealed`. */
    method IsFullyRevealed() returns (r: bool)
      requires Valid()
      ensures r <==> FullyRevealed(revealed[..])
    {
      for i := 0 to |word|
        invariant forall k :: 0 <= k < i ==> revealed[k]
      {
        if !revealed[i] {
          return false;
        }
      }
      return true;
    }
  }
}
