/**
 * The guessing loop of `main` in main.c, with `read_char`. Standard input is
 * the sequence of characters typed; what `State_print` writes is collected
 * as a list of frames, one before the first guess and one after each guess.
 */
module Game {
  import opened Wrappers
  import opened GameState
  import opened Dictionaries

  /** `MAX_ERRORS`: the number of wrong guesses that loses the game. */
  const MaxErrors: nat := 10

  /** How a session ends; `InputExhausted` when standard input runs out first. */
  datatype Outcome = Won(errors: nat) | Lost | InputExhausted

  /** The guesses `read_char` makes of the characters typed: every newline is skipped. */
  function Guesses(input: seq<char>): (r: seq<char>)
    ensures |r| <= |input|
  {
    if input == [] then []
    else (if input[0] == '\n' then [] else [input[0]]) + Guesses(input[1..])
  }

  /** The number of guesses whose letter is not in the word, i.e. of failed reveals. */
  function Misses(word: seq<char>, gs: seq<char>): (r: nat)
    ensures r <= |gs|
  {
    if gs == [] then 0
    else (if gs[0] in word then 0 else 1) + Misses(word, gs[1..])
  }

  /** The failure count grows by one exactly when a guess is not in the word. */
  lemma {:induction false} MissesStep(word: seq<char>, gs: seq<char>, c: char)
    ensures Misses(word, gs + [c]) == Misses(word, gs) + (if c in word then 0 else 1)
  {
    if gs != [] {
      assert (gs + [c])[1..] == gs[1..] + [c];
      MissesStep(word, gs[1..], c);
    }
  }

  /** A guess that is not in the word does not bring the game closer to a win. */
  lemma MissKeepsWordHidden(word: seq<char>, gs: seq<char>, c: char)
    requires c !in word
    ensures AllGuessed(word, gs + [c]) <==> AllGuessed(word, gs)
  {
  }

  /** The frame printed after the guesses `gs`. */
  function Frame(word: seq<char>, gs: seq<char>): seq<char>
  {
    Rendered(word, MaskAfter(word, gs))
  }

  /** After the guesses `gs` the game goes on: the word is not found and fewer than 10 guesses failed. */
  predicate InPlay(word: seq<char>, gs: seq<char>)
  {
    !AllGuessed(word, gs) && Misses(word, gs) < MaxErrors
  }

  /**
   * A session on `word` in which the guesses `g` were available decided
   * `outcome` after the first `used` guesses and printed `frames`.
   */
  ghost predicate Decided(word: seq<char>, g: seq<char>, outcome: Outcome, used: nat, frames: seq<seq<char>>)
  {
    && used <= |g|
    && |frames| == used + 1
    && (forall j :: 0 <= j <= used ==> frames[j] == Frame(word, g[..j]))
    && (forall j :: 1 <= j < used ==> InPlay(word, g[..j]))
    && match outcome
       case Won(errors) =>
         1 <= used && AllGuessed(word, g[..used]) && errors == Misses(word, g[..used]) && errors < MaxErrors
       case Lost =>
         1 <= used && !AllGuessed(word, g[..used]) && Misses(word, g[..used]) == MaxErrors
       case InputExhausted =>
         used == |g| && (used == 0 || InPlay(word, g))
  }

  /** The guesses determine the session: outcome, guesses consumed and frames. */
  lemma DecidedIsUnique(word: seq<char>, g: seq<char>, o1: Outcome, u1: nat, f1: seq<seq<char>>,
                        o2: Outcome, u2: nat, f2: seq<seq<char>>)
    requires Decided(word, g, o1, u1, f1) && Decided(word, g, o2, u2, f2)
    ensures o1 == o2 && u1 == u2 && f1 == f2
  {
    assert 1 <= u1 < u2 ==> InPlay(word, g[..u1]);
    assert 1 <= u2 < u1 ==> InPlay(word, g[..u2]);
    assert u1 == u2;
    if u1 == |g| {
      assert g[..u1] == g;
    }
    assert forall j :: 0 <= j < |f1| ==> f1[j] == f2[j];
  }

  /** `read_char`: the next character typed that is not a newline, or `None` at end of input. */
  method ReadChar(stdin: seq<char>) returns (c: Option<char>, rest: seq<char>)
    ensures c.None? ==> rest == [] && forall k :: 0 <= k < |stdin| ==> stdin[k] == '\n'
    ensures c.Some? ==> c.value != '\n' && |rest| < |stdin| && stdin[|stdin| - |rest| - 1] == c.value
    ensures rest == stdin[|stdin| - |rest|..]
    ensures forall k :: 0 <= k < |stdin| - |rest| - 1 ==> stdin[k] == '\n'
    ensures Guesses(stdin) == (if c.Some? then [c.value] else []) + Guesses(rest)
  {
    rest := stdin;
    while rest != [] && rest[0] == '\n'
      invariant |rest| <= |stdin| && rest == stdin[|stdin| - |rest|..]
      invariant forall k :: 0 <= k < |stdin| - |rest| ==> stdin[k] == '\n'
      invariant Guesses(stdin) == Guesses(rest)
    {
      rest := rest[1..];
    }
    if rest == [] {
      c := None;
    } else {
      c := Some(rest[0]);
      rest := rest[1..];
    }
  }

  /**
   * `read_char` as written, at end of input: the unread input and the local
   * `ch`, which is `None` while no byte has been read into it.
   */
  datatype ReadCharState = ReadCharState(pending: seq<char>, ch: Option<char>)

  /**
   * One pass through the `do` body of `read_char` as written: `read` stores
   * the next byte in `ch`, or returns 0 at end of input and leaves `ch` as it was.
   */
  function ReadAttempt(s: ReadCharState): (r: ReadCharState)
    ensures |r.pending| <= |s.pending|
    ensures s.pending == [] <==> r == s
    ensures s.pending != [] ==> r.ch == Some(s.pending[0]) && s.pending == [s.pending[0]] + r.pending
  {
    if s.pending == [] then s else ReadCharState(s.pending[1..], Some(s.pending[0]))
  }

  /** `k` passes through the `do` body. */
  function Attempts(s: ReadCharState, k: nat): (r: ReadCharState)
    ensures |r.pending| <= |s.pending|
    ensures s.pending == [] ==> r == s
    decreases k
  {
    if k == 0 then s else Attempts(ReadAttempt(s), k - 1)
  }

  /**
   * As written, once only newlines are left to read, `ch == '\n'` holds
   * after every pass however many there are, so the `do`-`while` never exits.
   */
  lemma {:induction false} NewlinesKeepLooping(s: ReadCharState, k: nat)
    requires forall i :: 0 <= i < |s.pending| ==> s.pending[i] == '\n'
    requires s.ch == Some('\n') || (s.pending != [] && 1 <= k)
    ensures Attempts(s, k).ch == Some('\n')
    decreases k
  {
    if k != 0 {
      var next := ReadAttempt(s);
      assert next.ch == Some('\n');
      NewlinesKeepLooping(next, k - 1);
    }
  }

  /** On the input `p` and a newline, the second call of `read_char` as written never returns. */
  lemma SecondReadCharNeverReturns(k: nat)
    requires 1 <= k
    ensures Attempts(ReadCharState("\n", None), k).ch == Some('\n')
  {
    NewlinesKeepLooping(ReadCharState("\n", None), k);
  }

  /** What holds at the head of the loop of `main` once the guesses `done` have been made. */
  ghost predicate Playing(word: seq<char>, done: seq<char>, attempt: nat, frames: seq<seq<char>>)
  {
    && attempt == Misses(word, done) <= MaxErrors
    && |frames| == |done| + 1
    && (forall j :: 0 <= j <= |done| ==> frames[j] == Frame(word, done[..j]))
    && (forall j :: 1 <= j < |done| ==> InPlay(word, done[..j]))
  }

  /** One more guess while the game is on keeps the loop invariant, counting a failure exactly when the guess misses. */
  lemma PlayingStep(word: seq<char>, done: seq<char>, attempt: nat, frames: seq<seq<char>>, c: char)
    requires Playing(word, done, attempt, frames) && attempt < MaxErrors
    requires 1 <= |done| ==> !AllGuessed(word, done)
    ensures Playing(word, done + [c], attempt + (if c in word then 0 else 1), frames + [Frame(word, done + [c])])
  {
    var next := done + [c];
    assert next[..|done|] == done;
    MissesStep(word, done, c);
    forall j | 0 <= j <= |done|
      ensures next[..j] == done[..j]
    {
    }
  }

  /** The loop invariant, together with the way the loop was left, decides the session. */
  lemma PlayingDecides(word: seq<char>, g: seq<char>, done: seq<char>, attempt: nat, frames: seq<seq<char>>, outcome: Outcome)
    requires Playing(word, done, attempt, frames) && done <= g
    requires 1 <= |done| && !outcome.Won? ==> !AllGuessed(word, done)
    requires outcome.Won? ==> 1 <= |done| && AllGuessed(word, done) && outcome.errors == attempt < MaxErrors
    requires outcome.Lost? ==> attempt == MaxErrors
    requires outcome.InputExhausted? ==> done == g && attempt < MaxErrors
    ensures Decided(word, g, outcome, |done|, frames)
  {
    assert g[..|done|] == done;
    forall j | 0 <= j <= |done|
      ensures g[..j] == done[..j]
    {
    }
  }

  /**
   * The body of the loop of `main` once a guess `c` is read: `State_reveal`,
   * `State_print` and `State_is_fully_revealed` on a state that shows the
   * letters of the earlier guesses `done`.
   */
  method Turn(state: State, c: char, ghost done: seq<char>) returns (found: bool, frame: seq<char>, full: bool)
    requires state.Valid() && state.revealed[..] == MaskAfter(state.word, done)
    modifies state.revealed
    ensures state.revealed[..] == MaskAfter(state.word, done + [c])
    ensures found <==> c in state.word
    ensures frame == Frame(state.word, done + [c])
    ensures full <==> AllGuessed(state.word, done + [c])
  {
    found := state.Reveal(c);
    RevealExtendsGuesses(state.word, done, c);
    frame := state.Render();
    full := state.IsFullyRevealed();
    FullyRevealedIffAllGuessed(state.word, done + [c]);
  }

  /** A proof step of `Play`: regrouping the sequences after a read, kept apart so that `Play` stays cheap to verify. */
  lemma GuessesAfterRead(g: seq<char>, done: seq<char>, c: char, rest: seq<char>)
    requires g == done + ([c] + Guesses(rest))
    ensures g == (done + [c]) + Guesses(rest)
  {
  }

  /** The loop of `main` on the secret `word`, reading guesses from `stdin`. */
  method Play(word: seq<char>, stdin: seq<char>) returns (outcome: Outcome, used: nat, frames: seq<seq<char>>)
    requires '\0' !in word
    ensures Decided(word, Guesses(stdin), outcome, used, frames)
  {
    ghost var g := Guesses(stdin);
    ghost var done: seq<char> := [];
    var state := new State(word);
    var s := state.Render();
    frames := [s];
    var attempt: nat := 0;
    var rest := stdin;
    used := 0;
    while attempt < MaxErrors
      invariant fresh(state.revealed) && state.Valid() && state.word == word
      invariant Playing(word, done, attempt, frames) && used == |done|
      invariant 1 <= used ==> !AllGuessed(word, done)
      invariant g == done + Guesses(rest)
      invariant state.revealed[..] == MaskAfter(word, done)
      decreases |rest|
    {
      var c;
      c, rest := ReadChar(rest);
      if c.None? {
        assert done + [] == done;
        outcome := InputExhausted;
        PlayingDecides(word, g, done, attempt, frames, outcome);
        return;
      }
      PlayingStep(word, done, attempt, frames, c.value);
      var found, frame, full := Turn(state, c.value, done);
      if !found {
        attempt := attempt + 1;
        MissKeepsWordHidden(word, done, c.value);
      }
      frames := frames + [frame];
      GuessesAfterRead(g, done, c.value, rest);
      done := done + [c.value];
      used := used + 1;
      if full {
        assert !found ==> used == 1;
        outcome := Won(attempt);
        PlayingDecides(word, g, done, attempt, frames, outcome);
        return;
      }
    }
    outcome := Lost;
    PlayingDecides(word, g, done, attempt, frames, outcome);
  }

  /** Guessing p, o, m, e on "pomme" wins with no error, both m's appearing together. */
  lemma PommeIsWonWithoutError()
    ensures Decided("pomme", Guesses("p\no\nm\ne\n"), Won(0), 4,
                    ["-----\n", "p----\n", "po---\n", "pomm-\n", "pomme\n"])
  {
    PommeGuesses();
    PommeFrames();
    PommeProgress();
  }

  lemma PommeGuesses()
    ensures Guesses("p\no\nm\ne\n") == "pome"
  {
    assert Guesses("e\n") == "e";
    assert Guesses("m\ne\n") == "me";
    assert Guesses("o\nm\ne\n") == "ome";
  }

  lemma PommeFrames()
    ensures var frames := ["-----\n", "p----\n", "po---\n", "pomm-\n", "pomme\n"];
      forall j :: 0 <= j <= 4 ==> frames[j] == Frame("pomme", "pome"[..j])
  {
    var word, g := "pomme", "pome";
    assert g[..0] == "" && g[..1] == "p" && g[..2] == "po" && g[..3] == "pom" && g[..4] == g;
    assert Frame(word, "") == "-----\n";
    assert Frame(word, "p") == "p----\n";
    assert Frame(word, "po") == "po---\n";
    assert Frame(word, "pom") == "pomm-\n";
    assert Frame(word, g) == "pomme\n";
  }

  lemma PommeProgress()
    ensures forall j :: 1 <= j < 4 ==> InPlay("pomme", "pome"[..j])
    ensures AllGuessed("pomme", "pome"[..4]) && Misses("pomme", "pome"[..4]) == 0
  {
    var word, g := "pomme", "pome";
    assert g[..1] == "p" && g[..2] == "po" && g[..3] == "pom" && g[..4] == g;
    assert "p"[..0] == "" && "po"[..1] == "p" && "pom"[..2] == "po" && g[..3] == "pom";
    assert Misses(word, g) == 0;
    assert 'o' in word && 'o' !in "p";
    assert 'm' in word && 'm' !in "po";
    assert 'e' in word && 'e' !in "pom";
  }

  /** Ten guesses that all miss a non-empty word lose the game, the word staying hidden throughout. */
  lemma TenMissesLose(word: seq<char>, g: seq<char>)
    requires word != [] && |g| == MaxErrors && forall k :: 0 <= k < |g| ==> g[k] !in word
    ensures Decided(word, g, Lost, MaxErrors, seq(MaxErrors + 1, _ => seq(|word|, _ => Hidden) + ['\n']))
  {
    WrongGuessesShowNothing(word, g);
    assert g[..|g|] == g;
  }

  /** While every guess misses a non-empty word, each one counts as a failure and the word stays hidden. */
  lemma WrongGuessesShowNothing(word: seq<char>, g: seq<char>)
    requires word != [] && forall k :: 0 <= k < |g| ==> g[k] !in word
    ensures forall j :: 0 <= j <= |g| ==>
      Misses(word, g[..j]) == j && !AllGuessed(word, g[..j]) &&
      Frame(word, g[..j]) == seq(|word|, _ => Hidden) + ['\n']
  {
    forall j | 0 <= j <= |g|
      ensures Misses(word, g[..j]) == j && !AllGuessed(word, g[..j])
      ensures Frame(word, g[..j]) == seq(|word|, _ => Hidden) + ['\n']
    {
      MissesAllWrong(word, g[..j]);
      assert word[0] in word && word[0] !in g[..j];
      assert MaskAfter(word, g[..j]) == MaskAfter(word, []);
      NewStateRendersHidden(word);
    }
  }

  /** Characters typed without a newline are all guesses. */
  lemma {:induction false} GuessesWithoutNewline(input: seq<char>)
    requires '\n' !in input
    ensures Guesses(input) == input
  {
    if input != [] {
      GuessesWithoutNewline(input[1..]);
    }
  }

  /** When no guess is in the word, every guess is a failure. */
  lemma {:induction false} MissesAllWrong(word: seq<char>, gs: seq<char>)
    requires forall k :: 0 <= k < |gs| ==> gs[k] !in word
    ensures Misses(word, gs) == |gs|
  {
    if gs != [] {
      MissesAllWrong(word, gs[1..]);
    }
  }

  /** How the program ends: a fatal load error, an empty dictionary, or a session played on a secret. */
  datatype Session =
    | LoadFailed(error: LoadError)
    | EmptyDictionary
    | Played(secret: seq<char>, outcome: Outcome, used: nat, frames: seq<seq<char>>)

  /**
   * `main`: loads the dictionary, picks the secret with the value `rand`
   * that `rand()` returned, and plays on `stdin`.
   */
  method RunGame(file: File, rand: nat, stdin: seq<char>) returns (session: Session)
    ensures LoadDictionary(file).Failure? ==> session == LoadFailed(LoadDictionary(file).error)
    ensures LoadDictionary(file) == Success([]) ==> session == EmptyDictionary
    ensures LoadDictionary(file).Success? && LoadDictionary(file).value != [] ==> session.Played?
    ensures session.Played? ==>
      && LoadDictionary(file).Success?
      && var words := LoadDictionary(file).value;
      && words != [] && session.secret == words[rand % |words|]
      && Decided(session.secret, Guesses(stdin), session.outcome, session.used, session.frames)
  {
    var loaded := DictionaryRead(file);
    if loaded.Failure? {
      return LoadFailed(loaded.error);
    }
    var secret := SelectWord(loaded.value, rand);
    if secret.None? {
      return EmptyDictionary;
    }
    LoadedWordsAreWellFormed(file);
    var outcome, used, frames := Play(secret.value, stdin);
    session := Played(secret.value, outcome, used, frames);
  }
}
