# Hangman in Dafny

A model of the terminal hangman game of `main.c`. The program loads a word
list (`dico.txt`), one word per line, skipping blank lines and lines that
start with `#`. It picks a secret word with `rand()`, prints one `-` per
letter and then reads single-character guesses from standard input. Each
guess reveals every position holding that letter. A guess that reveals
nothing counts as an error. The game is won when every position is shown;
it is lost after `MAX_ERRORS` (10) errors.

The model follows the program's three pieces, one module each. A fourth
module holds the `Option` and `Result` wrappers.

- `LineReading` (`line_reader.dfy`) models `read_line`.
  - `LineReader` is a class. Its `buffer` field is the static 256-byte `BUFFER`, and its `remaining` field is the part of the file that `read` has not returned yet.
  - `ReadLine` fills the buffer one byte at a time. It is proved against `NextLine`, the specification of one call.
- `Dictionaries` (`dictionary.dfy`) models `Dictionary_read`, `Dictionary_get` and `Dictionary_get_random_word`.
  - `SplitLines` specifies the repeated calls of `read_line`. `KeptLines` specifies the comment and blank-line filter. `LoadDictionary` puts the two together.
  - The linked list of `DictionaryEntry` nodes is the `Entry` datatype.
  - `DictionaryRead` loops over a `LineReader` and appends at the tail of the list, keeping a count.
- `GameState` (`game_state.dfy`) models `State`. It is a class whose `revealed` mask is an `array<bool>` updated in place by `Reveal`. `Render` returns the text `State_print` writes.
- `Game` (`game.dfy`) models `read_char` and the guessing loop of `main`.
  - Standard input is a sequence of characters.
  - Everything printed by `State_print` is collected as a list of frames.
  - `Decided` characterises a whole session: which guesses it consumed, what it printed, and how it ended. The characterisation is given in terms of the guesses alone, and `Play` is proved to produce it. `DecidedIsUnique` shows that the guesses determine the session.

Characters stand for bytes. Words are C strings, so they hold no NUL. `rand()` is a parameter of `RunGame`.

`read_line` exits as soon as 256 bytes without a newline are in its buffer (main.c:71-74), so a line it accepts has at most 255 characters.

## Model

| member | source | states |
|---|---|---|
| LineReading.CString | main.c:65-67 | the word copied out of the buffer is the longest prefix without a NUL byte |
| LineReading.ScanLine | main.c:62-77 | one `read_line` consumes at least the bytes already buffered, no more than the file holds, and at most 256 bytes. A line ends at the first newline, which is consumed; its text is the bytes before it, cut at a NUL, and is well formed (no newline, no NUL, at most 255 bytes). End of input is reported only when the rest of the file is shorter than 256 bytes and holds no newline, and after consuming all of it. "Too long" is reported after exactly 256 bytes, none of them a newline |
| LineReading.ReadsUpToNewline | main.c:64-68 | if a newline appears within the first 256 bytes, the result is the text before it (cut at a NUL), and exactly that text plus the newline is consumed |
| LineReading.RejectsLongLine | main.c:71-74 | 256 bytes without a newline are the "line too long" path, after consuming exactly 256 bytes |
| LineReading.DropsUnterminatedLine | main.c:63-77 | a final line of fewer than 256 bytes without a newline is consumed and reported as end of input, i.e. it is dropped |
| LineReading.LineReader.constructor | main.c:60 | a reader over the file contents, with a fresh 256-byte buffer |
| LineReading.LineReader.ReadLine | main.c:59-78 | the result and the bytes consumed are those of `NextLine` on the unread input; the rest of the input stays unread |
| Dictionaries.SplitLines | main.c:94 | the lines that successive calls of `read_line` return until end of input, or the "line too long" error that stops the load; a successful split has at most one line per byte read |
| Dictionaries.KeptLines | main.c:95-98 | the lines kept as words, in order: never more than there were lines, and every one non-empty and not starting with `#` |
| Dictionaries.LoadDictionary | main.c:80-109 | what `Dictionary_read` loads: a failure to open, the "line too long" failure, or the kept lines; a successful load comes from a readable file and holds only words |
| Dictionaries.SplitFirstLine | main.c:64-68 | a well-formed line followed by a newline is the first line read, followed by the lines of the rest of the file |
| Dictionaries.SplitAfterLines | main.c:94 | reading back the newline-terminated text of well-formed lines yields exactly those lines, in order, before the lines of what follows |
| Dictionaries.SplitJoinRoundTrip | main.c:94 | the lines of a file made of well-formed lines, optionally followed by an unterminated tail of fewer than 256 bytes, are exactly those lines (round trip) |
| Dictionaries.SplitRejectsLongLine | main.c:71-74 | a file whose first line is too long fails to load, whatever follows |
| Dictionaries.SplitLinesWellFormed | main.c:64-74 | every line read from a file that loads is well formed |
| Dictionaries.KeptLinesAppend | main.c:95-98 | the filter distributes over concatenation, so it can be applied line by line |
| Dictionaries.KeptLinesMembership | main.c:95-105 | a line is kept if and only if it is non-empty and does not start with `#` |
| Dictionaries.LoadedWordsAreWellFormed | main.c:94-101 | every loaded word is a non-empty, newline-free, NUL-free, non-comment line of at most 255 bytes |
| Dictionaries.LoadsExampleDictionary | main.c:94-106 | the file `apple`, blank, `# comment`, `banana` loads as exactly `["apple", "banana"]` |
| Dictionaries.ExampleLines | main.c:59-78 | the example file splits into the four lines `apple`, blank, `# comment`, `banana` |
| Dictionaries.ExampleWords | main.c:95-98 | of those four lines, exactly `apple` and `banana` are kept |
| Dictionaries.CommentOnlyDictionaryIsEmpty | main.c:95-98 | a file holding only a comment loads successfully, with no word |
| Dictionaries.Append | main.c:100-103 | linking a node at the tail adds the word at the end of the list |
| Dictionaries.DictionaryRead | main.c:80-114 | it fails exactly when loading fails, with the same error; otherwise the list holds exactly the kept lines in file order, and `len` is the number of entries |
| Dictionaries.Get | main.c:30-40 | given `index < len`, it returns the `index`-th word in list order |
| Dictionaries.GetRandomWord | main.c:42-44 | as written: only defined when `len > 0`, and then it returns the word at `rand % len`, which is in the dictionary |
| Dictionaries.SelectWord | main.c:42-44 | corrected: no word exactly when the dictionary is empty, and otherwise the word at `rand % len` |
| GameState.RevealIdempotent | main.c:141-146 | revealing the same letter twice leaves the mask as after the first time |
| GameState.RevealNeverHides | main.c:141-146 | a revealed flag is never cleared, and a letter absent from the word leaves the mask unchanged |
| GameState.RevealExtendsGuesses | main.c:141-146 | revealing `c` on the mask of the guesses `gs` gives the mask of `gs + [c]`: a position is shown iff its letter was guessed |
| GameState.FullyRevealedIffAllGuessed | main.c:159-165 | the mask is full if and only if every distinct letter of the word has been guessed |
| GameState.NewStateRendersHidden | main.c:151-157 | right after `State_new`, the printed text is one `-` per letter followed by a newline |
| GameState.State.constructor | main.c:127-132 | the mask has the word's length and every flag is false |
| GameState.State.Reveal | main.c:137-149 | the result is true iff `c` occurs in the word; every position holding `c` is set, and every other flag is unchanged |
| GameState.State.Render | main.c:151-157 | `len(word)` characters followed by a newline; character `i` is the letter if it is revealed and `-` otherwise |
| GameState.State.IsFullyRevealed | main.c:159-165 | true if and only if every flag of the mask is set |
| Game.ReadChar | main.c:167-178 | it skips newlines only and returns the first other character, or nothing when only newlines remain; the guesses of the input are that character followed by the guesses of the rest |
| Game.Guesses | main.c:170-175 | the guesses that successive calls of `read_char` take from the input: every character but the newlines, in order, so never more guesses than characters |
| Game.Misses | main.c:211 | the errors among the guesses: the number of guesses not in the word, never more than the number of guesses |
| Game.ReadAttempt | main.c:170-175 | as written: one pass reads the next byte into `ch`, and the state is left exactly as it was if and only if no input remains |
| Game.Attempts | main.c:170-175 | as written: `k` passes through the `do` body of `read_char`, which never add input, and change nothing once the input is exhausted |
| Game.NewlinesKeepLooping | main.c:170-175 | as written: once only newlines remain to be read, `ch` is a newline after every pass, however many passes there are, so the loop never exits |
| Game.SecondReadCharNeverReturns | main.c:170-175 | as written: on the input `p` and a newline, the second call of `read_char` loops forever |
| Game.GuessesWithoutNewline | main.c:170-175 | input that contains no newline is taken entirely as guesses |
| Game.MissesStep | main.c:211 | the error count grows by exactly one when a guess is not in the word, and stays the same otherwise |
| Game.MissesAllWrong | main.c:211 | when no guess is in the word, every guess counts as an error |
| Game.MissKeepsWordHidden | main.c:211-214 | a guess that misses cannot complete the word |
| Game.PlayingStep | main.c:208-212 | a guess made while the game is on keeps the loop invariant: the counter equals the errors so far and stays at most 10, and the frames printed are those of the guesses made |
| Game.PlayingDecides | main.c:208-222 | the loop invariant, together with the way the loop was left, gives the characterisation of the session |
| Game.Turn | main.c:210-214 | the loop body once a guess has been read: the new mask is that of the extended guesses, the reveal reports a hit iff the letter is in the word, the printed frame is the new mask, and the word counts as found iff all of its letters were guessed |
| Game.Play | main.c:203-222 | the session satisfies `Decided` for the guesses typed. It prints the hidden word, then one frame per guess. It stops at the first guess after which the word is complete (won, with the errors counted so far, which are fewer than 10) or after which the 10th error was made (lost). If neither happens, it reads all the input |
| Game.DecidedIsUnique | main.c:208-222 | the guesses determine the outcome, the number of guesses consumed and the frames printed |
| Game.PommeIsWonWithoutError | main.c:208-217 | on `pomme`, the guesses p, o, m, e (newline-separated) print `-----`, `p----`, `po---`, `pomm-` and `pomme`, and win with 0 errors |
| Game.WrongGuessesShowNothing | main.c:208-212 | while every guess misses, each one counts as an error and the word stays fully hidden |
| Game.TenMissesLose | main.c:208-222 | ten guesses that all miss a non-empty word lose after exactly those ten guesses, every frame showing only `-` |
| Game.RunGame | main.c:192-225 | a load failure is reported with its error; an empty dictionary is reported as such; a non-empty dictionary always leads to a played session, whose secret is the loaded word at `rand % len` and which satisfies `Decided` |

## Left out

- The syscalls `open`, `read` and `close`, and their `errno`/`strerror` diagnostics (main.c:46-53, 81-85, 171-174) are left out. An unopenable file is the `Unopenable` case of `File`, and both fatal `exit(1)` paths become `Failure` results. A failing `read()` is not modelled, because it depends on the operating system.
- `printf` and `fflush` are left out: the banner, the `? ` prompt, and the win and loss messages. `State_print` becomes `Render`, which returns its text, and `Play` returns every frame. The number of errors reported on a win is the `errors` of `Won`.
- `empty_stdin` (main.c:187-190) is left out. It only discards terminal input after the game has ended.
- `rand`, `srand(clock())` and the `NDEBUG` switch (main.c:193-199) are left out. The value of `rand()` is the parameter `rand` of `RunGame`.
- `malloc`, `calloc` and `strcpy` memory management is left out, together with the non-thread-safety of the static buffer. Allocation cannot fail in the model.
- Game.ReadChar: at end of input, `read` returns 0 and leaves `ch` unchanged (main.c:170-175). If the call has already read a newline, `ch == '\n'` stays true and `read_char` never returns (see Findings). If the call hits end of input on its first `read`, `ch` was never written and the loop test reads an indeterminate value, which is not modelled. `ReadChar` models the intended behaviour instead: it reports end of input, and `Play` ends the session with the outcome `InputExhausted`.
- Dictionaries.DictionaryRead: the list is built as a value (`Append` rebuilds it), so the in-place write through the `tail` pointer and the aliasing it relies on are not modelled. Only the resulting order and count are.
- Game.Turn is not a function of `main.c`. It is the body of the loop of `main` (lines 210-214) factored out of `Play`.

## Findings

| source | as written | input that shows it | evidently intended | confidence | as-written member | corrected member |
|---|---|---|---|---|---|---|
| main.c:42-44, main.c:201 | `main` passes the loaded dictionary straight to `Dictionary_get_random_word`, which computes `rand() % self.len`. When every line was skipped, `len` is 0 and the remainder is a division by zero | a `dico.txt` holding only `# mots` and a newline, which loads successfully with no word (`CommentOnlyDictionaryIsEmpty`) | report an empty dictionary instead of picking a word | not executed | Dictionaries.GetRandomWord, with Dictionaries.CommentOnlyDictionaryIsEmpty | Dictionaries.SelectWord |
| main.c:170-175 | `read_char` repeats `read` while `ch == '\n'`. At end of input, `read` returns 0 and leaves `ch` holding the newline it just read, so on a pipe or a file the loop spins forever | the word `pomme` and standard input `p` followed by a newline: the second call reads the newline, then finds end of input and never returns (`SecondReadCharNeverReturns`) | stop at end of input and end the game | not executed | Game.ReadAttempt, with Game.NewlinesKeepLooping | Game.ReadChar |
