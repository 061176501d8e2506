# wordle-helper, modelled in Dafny

This project models the core of `wordle-helper`, a terminal assistant for
Wordle-style games. For each guessing session it keeps:

- the **letter pool**: the letters no guess has used yet. The pool is kept
  twice, once in alphabetical order and once in English letter-frequency
  order, and both copies shrink in lockstep (`Letters`, `src/letters.rs`);
- a **position tracker**: for each of the 26 letters, one flag per position
  of the word, saying whether the letter may still sit there;
- the union of the **double letters** seen in guesses;
- the **guess history**.

Around the session the model also covers:

- guess construction and double-letter detection (`src/guess.rs`);
- command parsing (`src/args.rs`);
- classification of an input line as a guess or a command;
- the text routines that render a letter's surviving positions, the masked
  placement line, and items cut into lines of `num_items` (five, `ALPHABET_LINE_SIZE`, for the pool).

Modules, one per source file:

- `Alphabet` (`alphabet.dfy`): the constants of `src/main.rs`;
- `LetterSets` (`letters.dfy`): `src/letters.rs`, with `Letters` as a class
  whose two `IndexSet<char>` fields are duplicate-free `seq<char>` fields;
- `Guesses` (`guess.dfy`): `src/guess.rs`;
- `Args` (`args.dfy`): `src/args.rs`;
- `Helper` (`wordle_helper.dfy`): `src/wordle_helper.rs`, with `WordleHelper`
  as a class whose methods update its fields in place.

`Sequences`, `Text` and `Wrappers` hold the sequence, string and result
vocabulary the others share. That vocabulary stands in for `IndexSet`
positions, `str::len`, `to_uppercase`, `split` and `Result`.

The central facts proved are these:

- `Letters.Remove` keeps the pool valid. Valid means both copies hold the
  same letters, each copy in the order of its reference alphabet, with no
  duplicates.
- `WordleHelper.ProcessWord` keeps the session invariant `SessionInvariant`.
  The pool holds exactly the letters no guess has used. The flag for letter
  `c` at position `i` is set exactly when no guess had `c` at `i`.
- The pool, in both orders, and the position tracker depend only on the
  set of words guessed (`SessionDeterminedByGuesses`).

## Model

| member | source | states |
|---|---|---|
| Alphabet.AlphabetLetters | src/main.rs:16-19 | `ALPHABET` holds 26 letters, no duplicates, and a character is in it exactly when it is a lower-case ASCII letter |
| Alphabet.AlphabetAt | src/main.rs:16-19 | position `i` of `ALPHABET` holds the `i`-th letter after 'a', for all 26 positions |
| Alphabet.FrequencyLetters | src/main.rs:20-23 | `ALPHABET_BY_FREQUENCY` holds the same 26 lower-case letters, each once |
| Alphabet.FrequencyAt | src/main.rs:20-23 | `ALPHABET_BY_FREQUENCY` has 26 entries and position `i` holds the letter of frequency rank `i` |
| LetterSets.ShiftRemoveAbsent | src/letters.rs:20 | removing an element that is not in the set leaves it unchanged |
| LetterSets.ShiftRemoveFirst | src/letters.rs:20 | removing an element that is in the set deletes its first occurrence and keeps everything before and after it in place |
| LetterSets.ShiftRemoveMembers | src/letters.rs:20 | on a duplicate-free set, removal takes out exactly that element, shrinks the size by one exactly when it was present, and keeps the set duplicate-free |
| LetterSets.ShiftRemoveOrdered | src/letters.rs:20 | removal keeps the relative order of the remaining elements |
| LetterSets.ShiftRemoveTwice | src/letters.rs:20-23 | removing the same element a second time changes nothing |
| LetterSets.FullPoolValid | src/letters.rs:13-17 | the two full alphabets form a valid pool |
| LetterSets.LockstepRemoveValid | src/letters.rs:19-24 | removing a letter from both copies of a valid pool gives a valid pool |
| LetterSets.LockstepRemoveMembers | src/letters.rs:19-24 | in a valid pool a letter is in one copy exactly when it is in the other; after removal it is in neither, every other letter stays, and each copy shrinks by one exactly when the letter was present |
| LetterSets.PoolDeterminedByLetters | src/letters.rs:7-10 | two valid pools with the same letters are equal in both orders: the order of what remains does not depend on the order of removal |
| LetterSets.Letters.constructor | src/letters.rs:13-17 | a new pool is the full alphabet in alphabetical order and in frequency order, and is valid |
| LetterSets.Letters.Remove | src/letters.rs:19-24 | the letter is removed from the frequency copy, and from the alphabetical copy only if the first removal found it; the result is `Some(letter)` exactly when both found it; on a valid pool it stays valid, the letter is gone, and `Some` is returned exactly when the letter was in the pool |
| Guesses.FindDoubleLetters | src/guess.rs:21-33 | the result holds exactly the letters that occur at two or more positions, each once, ordered by their first occurrence in the input |
| Guesses.DoubleLettersUnique | src/guess.rs:25-31 | at most one list meets that description, so the result of `find_double_letters` is fully determined |
| Guesses.FirstOccurrence | src/guess.rs:26-28 | a letter found again later in the word is repeated, and at its first occurrence the position is its index |
| Guesses.NotLater | src/guess.rs:26 | a letter not found later in the word is repeated only if it occurs earlier |
| Guesses.NewGuess | src/guess.rs:9-18 | construction fails exactly when the UTF-8 byte length of the word differs from the expected length; on success the word is stored unchanged with its double letters |
| Guesses.OccursIffIn | src/guess.rs:26 | a letter occurs a positive number of times exactly when the word contains it |
| Guesses.RepeatedIffTwice | src/guess.rs:25-31 | a letter sits at two different positions exactly when it occurs at least twice |
| Guesses.NoDoubleLetters | src/guess.rs:39-43 | "input" has no double letters |
| Guesses.OneDoubleLetter | src/guess.rs:45-49 | the double letters of "aabcd" are exactly `['a']` |
| Guesses.MultipleDoubleLetters | src/guess.rs:51-56 | in "aabbccdceff" the repeated letters are exactly a, b, c and f |
| Guesses.NotRepeatedInExample | src/guess.rs:51-56 | no other letter repeats in "aabbccdceff" |
| Text.Utf8LengthOfAscii | src/guess.rs:10 | the byte length of a string is at least its character count, and equal to it exactly when the string is ASCII |
| Args.ExpectedNumArgs | src/args.rs:16-24 | Exit and Clear need 1 token, Reset and Placement need 2 |
| Args.HasValidLength | src/args.rs:27 | a token count is valid exactly when it is at least 2, or when it is 1 and the command is Exit or Clear |
| Args.HasValidLengthMonotone | src/args.rs:27 | a valid token count stays valid when it grows |
| Args.CommandFromStr | src/args.rs:30-40 | a recognised token is the flag of the command it maps to; any other token is rejected as unsupported |
| Args.FlagRoundTrip | src/args.rs:30-40 | each command's flag parses back to that command, and a token parses to a command exactly when it is that command's flag |
| Args.NewCommand | src/args.rs:67-79 | an unknown first token is rejected before any length check; on success the flag followed by the arguments gives back the tokens and the count is valid; otherwise it fails exactly because the count is below the expected one |
| Args.NewCommandRoundTrip | src/args.rs:67-79 | a flag followed by arguments parses to that command with those arguments exactly when the count is valid, and otherwise gives the too-few-arguments error |
| Args.ArgsExamples | src/args.rs:89-141 | "-p" parses to Placement; an unknown flag is rejected; Exit accepts 1 token and Placement does not; `["-p", "abcde", "defg"]` parses with those two arguments; `["-p"]` and `["-r"]` alone are rejected |
| Text.UpperKeepsAscii | src/wordle_helper.rs:154 | upper-casing keeps the length, keeps ASCII text ASCII, leaves no lower-case ASCII letter, and is idempotent |
| Text.SplitJoin | src/wordle_helper.rs:170 | joining the pieces of a split on a separator with that separator gives the line back |
| Text.SplitPiecesFree | src/wordle_helper.rs:170 | no piece of a split contains the separator |
| Text.JoinSplit | src/wordle_helper.rs:170 | splitting on a separator text made by joining parts that do not contain it gives those parts back |
| Helper.ParseInput | src/wordle_helper.rs:165-175 | a non-ASCII line is rejected exactly; an ASCII line not starting with '-' is a word guess kept unchanged; an ASCII line starting with '-' is never a word guess, and is either a command or rejected as a bad command; a command's flag and arguments joined by spaces give back the line |
| Helper.ParseCommandRoundTrip | src/wordle_helper.rs:169-172 | a command's flag followed by ASCII arguments without spaces, joined by single spaces, parses to that command with those arguments when the token count is valid, and otherwise is rejected for too few tokens, with the expected and found counts |
| Helper.ParseInputExamples | src/wordle_helper.rs:182-195 | "abcde" is the word guess "abcde", and "ÆÇ" is rejected |
| Helper.ParseCommandExamples | src/wordle_helper.rs:169-172 | "-p av" parses as a command, and "-p" alone is rejected |
| Helper.MaskedLine | src/wordle_helper.rs:132-139 | the line is as long as the shorter of the pattern and the positions; at an open slot ('_') it shows the position character in lower case, and at a known slot it shows '_' |
| Helper.MaskedLineOfPlacement | src/wordle_helper.rs:128-139 | over a letter's positions, the masked line shows the letter exactly at the open slots where it is still possible |
| Helper.DefaultPatternLine | src/wordle_helper.rs:120-139 | without known letters the pattern is all '_', so each printed line is exactly the letter's positions as `get_possible_letter_placement` renders them |
| Helper.ChunksShape | src/wordle_helper.rs:150-161 | cutting the items into lines loses and reorders nothing; every line holds between 1 and `num_items` items, and every line but the last exactly `num_items` |
| Helper.BlocksShape | src/wordle_helper.rs:150-161 | there is one line per chunk of `num_items` items, and each line is its chunk upper-cased and joined by `buffer`, with a trailing `buffer` exactly when a later line follows |
| Helper.BlocksConcat | src/wordle_helper.rs:150-161 | the lines glued together are all the items upper-cased and joined by `buffer` |
| Helper.NextLine | src/wordle_helper.rs:151-159 | one pass of the inner loop consumes `num_items` items, or all that remain; the line is those items upper-cased and joined by `buffer`, with a `buffer` after the last one exactly when items remain |
| Helper.GroupIntoBlocks | src/wordle_helper.rs:146-163 | there is one line per chunk of `num_items` items; each line is its items upper-cased and joined by `buffer`, with a trailing `buffer` on every line but the last; the lines glued together are all the items upper-cased and joined by `buffer` |
| Helper.ChunkedLines | src/wordle_helper.rs:150-161 | single-character items made of full runs of `num_items` characters and a last non-empty run of at most `num_items`, with no buffer, come out as exactly those runs, each upper-cased, one per line |
| Helper.PoolLines | src/wordle_helper.rs:77-78 | 26 single-character items cut into lines of 5 with no buffer give five lines of five and a last line of one: the runs in order, upper-cased |
| Helper.FullPoolLines | src/wordle_helper.rs:77-78 | the full pool of a new session, cut with `ALPHABET_LINE_SIZE` and no buffer, prints as its runs of five letters in order, upper-cased, in frequency order and in alphabetical order |
| Helper.UsedInAppend | src/wordle_helper.rs:71 | a letter is used by the history plus one word exactly when the history or the word uses it |
| Helper.RuledOutAppend | src/wordle_helper.rs:71 | a letter is ruled out at a position by the history plus one word exactly when the history or the word has it there |
| Helper.FullPlacement | src/wordle_helper.rs:35-38 | the tracker of a new session has an entry exactly for each of the 26 letters, each `word_length` flags long, all set |
| Helper.FreshPlacement | src/wordle_helper.rs:102-113 | in a new session, a letter's positions read as the letter repeated `word_length` times |
| Helper.FreshSession | src/wordle_helper.rs:30-42 | a new session, with the full pool, every flag set and no guesses, meets the session invariant |
| Helper.RecordGuess | src/wordle_helper.rs:57-71 | if the pool loses exactly the word's letters and each letter's flags are cleared exactly where the word has that letter, the invariant holds for the history extended by the word |
| Helper.SameGuessesSameFacts | src/wordle_helper.rs:71 | whether a letter was used, or ruled out at a position, carries over to any history that contains the same words |
| Helper.SessionDeterminedByGuesses | src/wordle_helper.rs:54-73 | two valid sessions whose histories hold the same words, in any order and with any repeats, have the same pool in both orders and the same tracker |
| Helper.SameTracker | src/wordle_helper.rs:58-59 | two valid sessions whose histories hold the same words have equal trackers |
| Helper.FirstUsesSpec | src/wordle_helper.rs:57-64 | the letters taken out by a word are exactly its letters that are in the pool, each once, ordered by first occurrence in the word |
| Helper.FirstUsesNone | src/wordle_helper.rs:57-64 | a word none of whose letters is still in the pool takes nothing out of it |
| Helper.InsertAll | src/wordle_helper.rs:67-69 | the doubles become the old set together with every double letter of the guess |
| Helper.GuessLetters | src/wordle_helper.rs:57-64 | the loop over the word keeps the pool valid; it clears each letter's flag at each position where the word has it; it returns the letters it newly took out of the pool, in first-occurrence order; the pool loses exactly the word's letters and shrinks by the number returned |
| Helper.WordleHelper.constructor | src/wordle_helper.rs:30-42 | a new session is valid; it has no doubles and no history, the full pool in both orders, and every letter's flags all set for the given word length |
| Helper.WordleHelper.Clear | src/wordle_helper.rs:44-51 | clearing gives every field what a new session with the same word length has, with a fresh pool, and the session is valid |
| Helper.WordleHelper.ProcessWord | src/wordle_helper.rs:54-73 | the session stays valid. The history grows by exactly the word and the doubles by the guess's double letters. For each letter `c` and position `i`, the flag is cleared exactly when the word has `c` at `i`; no other flag changes and none is set. The result is the letters newly taken out of the pool, in first-occurrence order. The pool loses exactly the word's letters and shrinks by the number returned |
| Helper.WordleHelper.GetPossibleLetterPlacement | src/wordle_helper.rs:102-117 | the letter's flags are rendered as text, "" for a character with no entry; in a valid session the text is `word_length` long and shows the letter at position `i` exactly when no guess so far had it there |
| Helper.WordleHelper.PossibleLetterPlacementLines | src/wordle_helper.rs:119-143 | the pattern is the second argument, or `word_length` underscores without one; there is one line for each letter of the first argument, which is the masked line over that letter's positions |

## Left out

- The `timer: Instant` field and `elapsed()` are left out: they read the wall clock.
- `print_stuffs` is left out (`src/wordle_helper.rs:75-100`), and so are the `println!` calls and the escape sequence that clears the terminal. They are output only. Its timer line, the "Recent Removals" and "Doubles" lines and the two-column table of `src/wordle_helper.rs:83-94` are not modelled. `GroupIntoBlocks` models the formatting routine those lines use to cut the pool into lines, and `FullPoolLines` applies it, with `ALPHABET_LINE_SIZE`, to the full pool of a new session in both orders (`src/wordle_helper.rs:77-78`); the pool after guesses is not rendered by any member.
- `src/main.rs` is left out apart from its constants. Its tokio runtime, stdin reader, channel and spawned tasks are I/O and concurrency wiring, and its placement loop repeats `src/wordle_helper.rs:128-142`.
- `process_word` is `async` but never awaits, so `ProcessWord` is a synchronous method. It always returns `Ok`, so the model returns the removed letters directly.
- The `anyhow` message texts and `Commands::example_usage` are left out. Failures are the datatypes `ArgError`, `GuessError` and `InputError`, and the message content is not modelled.
- `BitVec`, `HashMap`, `HashSet` and `IndexSet` are modelled as `seq<bool>`, `map<char, seq<bool>>`, `set<char>` and duplicate-free `seq<char>`. Their internals are not modelled.
- Case mapping is modelled for ASCII only: `to_uppercase` and `to_ascii_lowercase` change ASCII letters, and every other character is left as it is. Guesses reach the session only after `parse_input` has rejected non-ASCII lines.
- `group_iter_into_blocks` takes any `ToString` iterator. `GroupIntoBlocks` takes the items already rendered as strings.
- Helper.WordleHelper.ProcessWord: requires every character of the word to be a lower-case letter, because `unwrap` panics on any other character. It also requires the word to be no longer than `word_length`, because `BitVec::set` panics past the end. The panics themselves are not modelled. The caller does not rule them out: `src/main.rs:65-68` passes any ASCII line of the right byte length to `process_word`, so a guess such as "CRANE" or "cr4ne" typed at the prompt reaches the `unwrap` at `src/wordle_helper.rs:59` and crashes the program.
- Helper.GroupIntoBlocks: requires `num_items > 0` unless there are no items, because with 0 the source loops forever.
- Helper.WordleHelper.PossibleLetterPlacementLines: requires at least one argument, because `args[0]` panics on an empty list. `print_possible_letter_placement` has no caller in the source; the copy of it inlined in `src/main.rs:83-106` runs only on the Placement command, which needs two tokens and so always has that argument.
- Guesses.MultipleDoubleLetters: like the test it models, it states which letters repeat, not the order of the result. The order is stated in general by `FindDoubleLetters`.
- No combinatorial expansion of placement patterns is modelled: `print_possible_letter_placement` prints one masked line per letter, and the model follows the code.
- Args.NewCommand: requires at least one token, because `inputs[0]` panics on an empty list. Its only caller, `parse_input`, passes the result of `split`, which is never empty (`Text.Split` ensures at least one piece).
