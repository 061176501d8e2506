/**
 * The session of src/wordle_helper.rs: per-letter position tracking, the
 * letter pool, double letters and guess history, together with the routines
 * that turn them into text and classify an input line.
 */
module Helper {
  import opened Wrappers
  import opened Sequences
  import opened Text
  import opened Alphabet
  import opened LetterSets
  import opened Guesses
  import opened Args

  /** `InputType`: a line is either a word guess or a command. */
  datatype InputType = WordGuess(word: string) | CommandInput(cmd: Command)

  /** Why a line is rejected; the message text is not modelled. */
  datatype InputError = NotAscii | BadCommand(reason: ArgError)

  /**
   * `parse_input`: non-ASCII lines are rejected; a line starting with '-' is
   * split on single spaces and parsed as a command; any other line is a
   * word guess, kept as it is.
   */
  function ParseInput(input: string): (r: Result<InputType, InputError>)
    ensures !IsAscii(input) <==> r == Err(NotAscii)
    ensures IsAscii(input) && (input == [] || input[0] != '-') ==> r == Ok(WordGuess(input))
    ensures r.Ok? && r.value.WordGuess? ==> r.value.word == input
    ensures IsAscii(input) && input != [] && input[0] == '-' ==>
              (r.Ok? ==> r.value.CommandInput?) && (r.Err? ==> r.error.BadCommand?)
    ensures r.Ok? && r.value.CommandInput? ==>
              input[0] == '-' && Join([Flag(r.value.cmd.command)] + r.value.cmd.args, " ") == input
  {
    if !IsAscii(input) then Err(NotAscii)
    else if |input| > 0 && input[0] == '-' then
      match NewCommand(Split(input, ' '))
      case Ok(cmd) =>
        SplitJoin(input, ' ');
        Ok(CommandInput(cmd))
      case Err(e) => Err(BadCommand(e))
    else Ok(WordGuess(input))
  }

  /** The cases exercised by the tests of src/wordle_helper.rs. */
  lemma ParseInputExamples()
    ensures ParseInput("abcde") == Ok(WordGuess("abcde"))
    ensures ParseInput("ÆÇ").Err?
  {
    assert !IsAscii("ÆÇ") by {
      assert "ÆÇ"[0] as int >= 0x80;
    }
  }

  /**
   * A command's flag followed by ASCII arguments without spaces, joined by
   * single spaces, is read back as that command with those arguments when
   * there are enough tokens, and is otherwise rejected for too few of them.
   */
  lemma ParseCommandRoundTrip(c: Commands, args: seq<string>)
    requires forall k :: 0 <= k < |args| ==> IsAscii(args[k]) && ' ' !in args[k]
    ensures ParseInput(Join([Flag(c)] + args, " ")) ==
              if HasValidLength(c, |args| + 1) then Ok(CommandInput(Command(c, args)))
              else Err(BadCommand(TooFewArgs(ExpectedNumArgs(c), |args| + 1)))
  {
    CommandLineText(c, args);
    NewCommandRoundTrip(c, args);
  }

  /** Such a line is ASCII, starts with '-', and splits back into the flag and the arguments. */
  lemma CommandLineText(c: Commands, args: seq<string>)
    requires forall k :: 0 <= k < |args| ==> IsAscii(args[k]) && ' ' !in args[k]
    ensures var line := Join([Flag(c)] + args, " ");
            IsAscii(line) && line != [] && line[0] == '-' && Split(line, ' ') == [Flag(c)] + args
  {
    var parts := [Flag(c)] + args;
    var line := Join(parts, " ");
    FlagText(c);
    assert forall k :: 1 <= k < |parts| ==> parts[k] == args[k - 1];
    JoinAscii(parts, " ");
    assert line[..2] == Flag(c);
    JoinSplit(parts, ' ');
  }

  /** Every flag is two ASCII characters, the first a '-', and holds no space. */
  lemma FlagText(c: Commands)
    ensures |Flag(c)| == 2 && Flag(c)[0] == '-' && IsAscii(Flag(c)) && ' ' !in Flag(c)
  {
  }

  /** A placement command line, and a flag given without its argument. */
  lemma ParseCommandExamples()
    ensures ParseInput("-p av").Ok?
    ensures ParseInput("-p").Err?
  {
    SplitWhole("-p", ' ');
    SplitWhole("av", ' ');
    SplitFirst("-p", "av", ' ');
    assert "-p" + [' '] + "av" == "-p av";
  }

  /**
   * The masked placement line: walks the known pattern and a letter's
   * positions side by side, stopping at the shorter; an open slot ('_') of
   * the pattern shows the position character in lower case, a known slot
   * shows '_'.
   */
  function MaskedLine(known: string, positions: string): (r: string)
    ensures |r| == if |known| < |positions| then |known| else |positions|
    ensures forall i :: 0 <= i < |r| ==>
              r[i] == if known[i] == '_' then ToAsciiLower(positions[i]) else '_'
  {
    if known == [] || positions == [] then ""
    else
      [if known[0] == '_' then ToAsciiLower(positions[0]) else '_'] + MaskedLine(known[1..], positions[1..])
  }

  /** `n` underscores: the pattern used when no known letters are given. */
  function Underscores(n: nat): string {
    seq(n, _ => '_')
  }

  /** The items upper-cased, one by one. */
  function UpperAll(items: seq<string>): seq<string> {
    seq(|items|, i requires 0 <= i < |items| => Upper(items[i]))
  }

  /** The lines glued together, in order. */
  function Concat(lines: seq<string>): string {
    if lines == [] then "" else lines[0] + Concat(lines[1..])
  }

  /** The items cut into consecutive runs of `n`, the last run possibly shorter. */
  function Chunks<T>(items: seq<T>, n: nat): seq<seq<T>>
    requires n > 0 || items == []
    decreases |items|
  {
    if items == [] then []
    else if |items| <= n then [items]
    else [items[..n]] + Chunks(items[n..], n)
  }

  /** All items concatenated back, in order. */
  function Flatten<T>(runs: seq<seq<T>>): seq<T> {
    if runs == [] then [] else runs[0] + Flatten(runs[1..])
  }

  /**
   * Chunking loses and reorders nothing; every run holds between one and
   * `n` items, and every run but the last exactly `n`.
   */
  lemma {:induction false} ChunksShape<T>(items: seq<T>, n: nat)
    requires n > 0
    ensures Flatten(Chunks(items, n)) == items
    ensures forall k :: 0 <= k < |Chunks(items, n)| ==> 0 < |Chunks(items, n)[k]| <= n
    ensures forall k :: 0 <= k < |Chunks(items, n)| - 1 ==> |Chunks(items, n)[k]| == n
  {
    if items != [] && |items| > n {
      ChunksShape(items[n..], n);
      var rest := Chunks(items[n..], n);
      assert Chunks(items, n) == [items[..n]] + rest;
      assert ([items[..n]] + rest)[1..] == rest;
      assert items == items[..n] + items[n..];
    }
  }

  /** Extending a line by the next item. */
  lemma JoinNext(data: seq<string>, start: nat, pos: nat, sep: string)
    requires start < pos < |data|
    ensures Join(UpperAll(data[start..pos + 1]), sep) == Join(UpperAll(data[start..pos]), sep) + sep + Upper(data[pos])
  {
    assert UpperAll(data[start..pos + 1]) == UpperAll(data[start..pos]) + [Upper(data[pos])];
    JoinConcat(UpperAll(data[start..pos]), [Upper(data[pos])], sep);
  }

  /** A line of items: upper-cased and joined by `buffer`, with one more `buffer` when items follow it. */
  function BlockLine(items: seq<string>, buffer: string, more: bool): string {
    var line := Join(UpperAll(items), buffer);
    if more then line + buffer else line
  }

  /**
   * The lines `group_iter_into_blocks` produces: each run of `n` items
   * upper-cased and joined by `buffer`, with `buffer` once more after every
   * run that has items after it.
   */
  function Blocks(data: seq<string>, n: nat, buffer: string): seq<string>
    requires n > 0 || data == []
    decreases |data|
  {
    if data == [] then []
    else if |data| <= n then [BlockLine(data, buffer, false)]
    else [BlockLine(data[..n], buffer, true)] + Blocks(data[n..], n, buffer)
  }

  /** Each character as a one-character string, as `to_string` renders it. */
  function CharItems(s: seq<char>): seq<string> {
    seq(|s|, i requires 0 <= i < |s| => [s[i]])
  }

  /** Runs of five characters, the last one holding the single character left. */
  function RunsOfFive(s: string): seq<string>
    requires |s| == 26
  {
    [s[..5], s[5..10], s[10..15], s[15..20], s[20..25], s[25..]]
  }

  /**
   * The full pool cut into lines of `ALPHABET_LINE_SIZE` with no buffer, as
   * `print_stuffs` cuts both orders of the pool of a new session: five
   * lines of five letters and a last one of one, upper-cased, in order.
   */
  lemma FullPoolLines()
    ensures Blocks(CharItems(ALPHABET), ALPHABET_LINE_SIZE, "") == UpperAll(RunsOfFive(ALPHABET))
    ensures Blocks(CharItems(ALPHABET_BY_FREQUENCY), ALPHABET_LINE_SIZE, "") == UpperAll(RunsOfFive(ALPHABET_BY_FREQUENCY))
  {
    AlphabetAt();
    FrequencyAt();
    PoolLines(ALPHABET);
    PoolLines(ALPHABET_BY_FREQUENCY);
  }

  /** Twenty-six items come out as five full lines and a last line of one. */
  lemma PoolLines(s: string)
    requires |s| == 26
    ensures Blocks(CharItems(s), 5, "") == UpperAll(RunsOfFive(s))
  {
    var runs := RunsOfFive(s);
    ConcatSix(runs);
    assert s[20..25] + s[25..] == s[20..];
    assert s[15..20] + s[20..] == s[15..];
    assert s[10..15] + s[15..] == s[10..];
    assert s[5..10] + s[10..] == s[5..];
    assert s[..5] + s[5..] == s;
    ChunkedLines(runs, 5);
  }

  /** Six parts glued together, in order. */
  lemma ConcatSix(parts: seq<string>)
    requires |parts| == 6
    ensures Concat(parts) == parts[0] + (parts[1] + (parts[2] + (parts[3] + (parts[4] + parts[5]))))
  {
    assert parts[5..][1..] == [];
    assert Concat(parts[5..]) == parts[5] + "" == parts[5];
    assert parts[4..][1..] == parts[5..];
    assert Concat(parts[4..]) == parts[4] + parts[5];
    assert parts[3..][1..] == parts[4..];
    assert Concat(parts[3..]) == parts[3] + (parts[4] + parts[5]);
    assert parts[2..][1..] == parts[3..];
    assert Concat(parts[2..]) == parts[2] + (parts[3] + (parts[4] + parts[5]));
    assert parts[1..][1..] == parts[2..];
    assert Concat(parts[1..]) == parts[1] + (parts[2] + (parts[3] + (parts[4] + parts[5])));
  }

  /**
   * Text made of full runs of `n` characters and a last, non-empty run of at
   * most `n` is cut into exactly those runs, each upper-cased.
   */
  lemma {:induction false} ChunkedLines(chunks: seq<string>, n: nat)
    requires n > 0 && |chunks| > 0
    requires forall k :: 0 <= k < |chunks| - 1 ==> |chunks[k]| == n
    requires 0 < |chunks[|chunks| - 1]| <= n
    ensures Blocks(CharItems(Concat(chunks)), n, "") == UpperAll(chunks)
  {
    var s := Concat(chunks);
    if |chunks| == 1 {
      assert chunks[1..] == [];
      assert s == chunks[0] + Concat([]) == chunks[0] + "" == chunks[0];
      CharBlocks(s, n);
    } else {
      var rest := chunks[1..];
      ChunkedLines(rest, n);
      assert s == chunks[0] + Concat(rest);
      assert |Concat(rest)| > 0 by {
        assert Concat(rest) == rest[0] + Concat(rest[1..]);
      }
      CharBlocks(s, n);
      assert s[..n] == chunks[0] && s[n..] == Concat(rest);
      assert UpperAll(chunks) == [Upper(chunks[0])] + UpperAll(rest);
    }
  }

  /** Cutting single-character items: each line is its characters upper-cased, glued together. */
  lemma CharBlocks(s: string, n: nat)
    requires n > 0 && s != []
    ensures Blocks(CharItems(s), n, "") ==
              if |s| <= n then [Upper(s)] else [Upper(s[..n])] + Blocks(CharItems(s[n..]), n, "")
  {
    if |s| <= n {
      JoinChars(s);
    } else {
      assert CharItems(s)[..n] == CharItems(s[..n]);
      assert CharItems(s)[n..] == CharItems(s[n..]);
      JoinChars(s[..n]);
      assert Upper(s[..n]) + "" == Upper(s[..n]);
    }
  }

  /** Single-character items upper-cased and joined with no buffer spell the text upper-cased. */
  lemma {:induction false} JoinChars(t: string)
    ensures Join(UpperAll(CharItems(t)), "") == Upper(t)
  {
    if |t| == 1 {
      assert [t[0]] == t;
      assert UpperAll(CharItems(t)) == [Upper(t)];
    } else if |t| > 1 {
      JoinChars(t[1..]);
      assert CharItems(t[1..]) == CharItems(t)[1..];
      assert UpperAll(CharItems(t))[1..] == UpperAll(CharItems(t[1..]));
      assert UpperAll(CharItems(t))[0] == Upper([t[0]]);
      assert Upper([t[0]]) + "" + Upper(t[1..]) == Upper(t);
    }
  }

  /** Upper-casing commutes with cutting the items in two. */
  lemma UpperAllSplit(data: seq<string>, n: nat)
    requires n <= |data|
    ensures UpperAll(data) == UpperAll(data[..n]) + UpperAll(data[n..])
  {
  }

  /** Putting a first line before lines that match their chunks gives lines that match the longer list of chunks. */
  lemma ConsLines(head: seq<string>, lines: seq<string>, chunks: seq<seq<string>>, buffer: string)
    requires |lines| == |chunks| > 0
    requires forall k :: 0 <= k < |lines| ==> lines[k] == BlockLine(chunks[k], buffer, k + 1 < |lines|)
    ensures forall k :: 0 <= k < |lines| + 1 ==>
              ([BlockLine(head, buffer, true)] + lines)[k] == BlockLine(([head] + chunks)[k], buffer, k < |lines|)
  {
    forall k | 1 <= k < |lines| + 1
      ensures ([BlockLine(head, buffer, true)] + lines)[k] == BlockLine(([head] + chunks)[k], buffer, k < |lines|)
    {
      assert ([BlockLine(head, buffer, true)] + lines)[k] == lines[k - 1];
      assert ([head] + chunks)[k] == chunks[k - 1];
    }
  }

  /**
   * The lines are the chunks of the items, each upper-cased and joined by
   * `buffer`, with a trailing `buffer` on every line but the last.
   */
  lemma {:induction false} BlocksShape(data: seq<string>, n: nat, buffer: string)
    requires n > 0
    ensures |Blocks(data, n, buffer)| == |Chunks(data, n)|
    ensures forall k :: 0 <= k < |Blocks(data, n, buffer)| ==>
              Blocks(data, n, buffer)[k] == BlockLine(Chunks(data, n)[k], buffer, k + 1 < |Blocks(data, n, buffer)|)
  {
    if data != [] && |data| > n {
      var head, tail := data[..n], data[n..];
      BlocksShape(tail, n, buffer);
      var lines, chunks := Blocks(tail, n, buffer), Chunks(tail, n);
      assert Blocks(data, n, buffer) == [BlockLine(head, buffer, true)] + lines;
      assert Chunks(data, n) == [head] + chunks;
      ConsLines(head, lines, chunks, buffer);
    }
  }

  /** Glued together, the lines are all the items upper-cased and joined by `buffer`. */
  lemma {:induction false} BlocksConcat(data: seq<string>, n: nat, buffer: string)
    requires n > 0
    ensures Concat(Blocks(data, n, buffer)) == Join(UpperAll(data), buffer)
  {
    if data != [] && |data| > n {
      var head, tail := data[..n], data[n..];
      BlocksConcat(tail, n, buffer);
      var lines := Blocks(tail, n, buffer);
      assert Blocks(data, n, buffer) == [BlockLine(head, buffer, true)] + lines;
      assert ([BlockLine(head, buffer, true)] + lines)[1..] == lines;
      UpperAllSplit(data, n);
      JoinConcat(UpperAll(head), UpperAll(tail), buffer);
    }
  }

  /**
   * A line of `group_iter_into_blocks` holding the items `data[start..pos]`:
   * upper-cased and joined by `buffer`, with a trailing `buffer` when more
   * items follow.
   */
  function LineSoFar(data: seq<string>, start: nat, pos: nat, buffer: string): string
    requires start <= pos <= |data|
  {
    BlockLine(data[start..pos], buffer, pos < |data|)
  }

  /** Placing the next item, and the `buffer` after it if more follow, extends the line. */
  lemma LineNext(data: seq<string>, start: nat, pos: nat, buffer: string)
    requires start <= pos < |data|
    ensures var line := (if pos == start then "" else LineSoFar(data, start, pos, buffer)) + Upper(data[pos]);
            LineSoFar(data, start, pos + 1, buffer) == if pos + 1 < |data| then line + buffer else line
  {
    if pos == start {
      assert UpperAll(data[start..pos + 1]) == [Upper(data[pos])];
      assert "" + Upper(data[pos]) == Upper(data[pos]);
    } else {
      JoinNext(data, start, pos, buffer);
    }
  }

  /** The lines from `start` on: the line of the run at `start`, then the lines after it. */
  lemma BlocksFrom(data: seq<string>, start: nat, n: nat, buffer: string)
    requires n > 0 && start < |data|
    ensures var stop := if start + n < |data| then start + n else |data|;
            Blocks(data[start..], n, buffer) == [LineSoFar(data, start, stop, buffer)] + Blocks(data[stop..], n, buffer)
  {
    var rest := data[start..];
    if |rest| > n {
      assert rest[..n] == data[start..start + n];
      assert rest[n..] == data[start + n..];
    } else {
      assert data[start..|data|] == rest;
      assert data[|data|..] == [];
    }
  }

  /**
   * One pass of the inner loop of `group_iter_into_blocks`: up to `numItems`
   * items from `start` on, upper-cased, with `buffer` after each item that
   * has another after it; `pos` is where the next line starts.
   */
  method NextLine(numItems: nat, data: seq<string>, start: nat, buffer: string) returns (line: string, pos: nat)
    requires 0 < numItems && start < |data|
    ensures pos == if start + numItems < |data| then start + numItems else |data|
    ensures line == LineSoFar(data, start, pos, buffer)
  {
    pos := start;
    line := "";
    for slot := 0 to numItems
      invariant pos == if start + slot < |data| then start + slot else |data|
      invariant slot == 0 ==> line == ""
      invariant slot > 0 ==> line == LineSoFar(data, start, pos, buffer)
    {
      if pos < |data| {
        LineNext(data, start, pos, buffer);
        line := line + Upper(data[pos]);
        pos := pos + 1;
      }
      if pos < |data| {
        line := line + buffer;
      }
    }
  }

  /**
   * `group_iter_into_blocks`: the items, upper-cased, in lines of `numItems`;
   * `buffer` goes after every item that has another item after it, so it
   * also ends every line but the last.
   */
  method GroupIntoBlocks(numItems: nat, data: seq<string>, buffer: string) returns (ret: seq<string>)
    requires numItems > 0 || data == []
    ensures ret == Blocks(data, numItems, buffer)
    ensures |ret| == |Chunks(data, numItems)|
    ensures forall k :: 0 <= k < |ret| ==> ret[k] == BlockLine(Chunks(data, numItems)[k], buffer, k + 1 < |ret|)
    ensures Concat(ret) == Join(UpperAll(data), buffer)
  {
    ret := [];
    var pos := 0;
    while pos < |data|
      invariant pos <= |data|
      invariant ret + Blocks(data[pos..], numItems, buffer) == Blocks(data, numItems, buffer)
      decreases |data| - pos
    {
      var start := pos;
      var line;
      line, pos := NextLine(numItems, data, start, buffer);
      BlocksFrom(data, start, numItems, buffer);
      ret := ret + [line];
    }
    assert data[pos..] == [];
    assert ret + [] == ret;
    assert ret == Blocks(data, numItems, buffer);
    if numItems > 0 {
      BlocksShape(data, numItems, buffer);
      BlocksConcat(data, numItems, buffer);
    }
  }

  /** Some guess in `words` uses the letter `c`. */
  ghost predicate UsedIn(words: seq<string>, c: char) {
    exists k :: 0 <= k < |words| && c in words[k]
  }

  /** The word `w` has the letter `c` at position `i`. */
  predicate HasAt(w: string, i: int, c: char) {
    0 <= i < |w| && w[i] == c
  }

  /** Some guess in `words` has the letter `c` at position `i`. */
  ghost predicate RuledOut(words: seq<string>, c: char, i: nat) {
    exists k :: 0 <= k < |words| && HasAt(words[k], i, c)
  }

  lemma UsedInAppend(words: seq<string>, w: string, c: char)
    ensures UsedIn(words + [w], c) <==> UsedIn(words, c) || c in w
  {
    if c in w {
      assert (words + [w])[|words|] == w;
    }
    if UsedIn(words, c) {
      var k :| 0 <= k < |words| && c in words[k];
      assert (words + [w])[k] == words[k];
    }
  }

  lemma RuledOutAppend(words: seq<string>, w: string, c: char, i: nat)
    ensures RuledOut(words + [w], c, i) <==> RuledOut(words, c, i) || HasAt(w, i, c)
  {
    if HasAt(w, i, c) {
      assert (words + [w])[|words|] == w;
    }
    if RuledOut(words, c, i) {
      var k :| 0 <= k < |words| && HasAt(words[k], i, c);
      assert (words + [w])[k] == words[k];
    }
  }

  /** The position tracker of a new session: every letter possible at every position. */
  function FullPlacement(wordLength: nat): (m: map<char, seq<bool>>)
    ensures forall c :: c in m <==> IsLetter(c)
    ensures forall c :: c in m ==> |m[c]| == wordLength && forall i :: 0 <= i < wordLength ==> m[c][i]
  {
    AlphabetLetters();
    map c | c in ALPHABET :: seq(wordLength, _ => true)
  }

  /** The text form of one letter's positions: the letter where its bit is set, '_' elsewhere. */
  function PlacementOf(bits: seq<bool>, letter: char): (r: string)
    ensures |r| == |bits|
    ensures letter != '_' ==> forall i :: 0 <= i < |bits| ==> (r[i] == letter <==> bits[i])
    ensures forall i :: 0 <= i < |bits| ==> r[i] == letter || r[i] == '_'
  {
    seq(|bits|, i requires 0 <= i < |bits| => if bits[i] then letter else '_')
  }

  /** A letter's positions as text, or "" for a character the tracker has no entry for. */
  function PositionsOf(letterPlacement: map<char, seq<bool>>, letter: char): string {
    if letter in letterPlacement then PlacementOf(letterPlacement[letter], letter) else ""
  }

  /** In a new session each letter's positions read as the letter repeated `wordLength` times. */
  lemma FreshPlacement(wordLength: nat, c: char)
    requires IsLetter(c)
    ensures PositionsOf(FullPlacement(wordLength), c) == seq(wordLength, _ => c)
  {
  }

  /**
   * A masked line over a letter's positions shows the letter exactly at the
   * open slots of the known pattern where the letter is still possible.
   */
  lemma MaskedLineOfPlacement(known: string, bits: seq<bool>, c: char)
    requires IsLetter(c) && |known| == |bits|
    ensures |MaskedLine(known, PlacementOf(bits, c))| == |bits|
    ensures forall i :: 0 <= i < |bits| ==>
              MaskedLine(known, PlacementOf(bits, c))[i] == if known[i] == '_' && bits[i] then c else '_'
  {
  }

  /**
   * Without known letters the pattern is all open, so each printed line is
   * the letter's positions exactly as `get_possible_letter_placement` gives
   * them.
   */
  lemma DefaultPatternLine(bits: seq<bool>, c: char)
    requires IsLetter(c)
    ensures MaskedLine(Underscores(|bits|), PlacementOf(bits, c)) == PlacementOf(bits, c)
  {
    MaskedLineOfPlacement(Underscores(|bits|), bits, c);
  }

  /**
   * What a session's pool and tracker say about the guesses `words` so far:
   * the pool holds exactly the letters no guess has used; the tracker has
   * one entry per letter, of length `wordLength`, whose bit `i` is set
   * exactly when no guess had that letter at position `i`.
   */
  ghost predicate SessionInvariant(alph: seq<char>, letterPlacement: map<char, seq<bool>>, words: seq<string>, wordLength: nat) {
    (forall c :: c in letterPlacement <==> IsLetter(c)) &&
    (forall c :: c in letterPlacement ==> |letterPlacement[c]| == wordLength) &&
    (forall c :: c in alph <==> IsLetter(c) && !UsedIn(words, c)) &&
    (forall c, i :: c in letterPlacement && 0 <= i < wordLength ==>
       (letterPlacement[c][i] <==> !RuledOut(words, c, i)))
  }

  /** A new session, with the full pool and every position open, meets the invariant. */
  lemma FreshSession(wordLength: nat)
    ensures SessionInvariant(ALPHABET, FullPlacement(wordLength), [], wordLength)
  {
    AlphabetLetters();
  }

  /**
   * Recording a guess keeps the invariant when the pool loses exactly the
   * guess's letters and each letter's bit is cleared exactly at the
   * positions where the guess has it.
   */
  lemma RecordGuess(alph: seq<char>, lp: map<char, seq<bool>>, words: seq<string>, wordLength: nat,
                    word: string, alph': seq<char>, lp': map<char, seq<bool>>)
    requires SessionInvariant(alph, lp, words, wordLength)
    requires forall c :: c in alph' <==> c in alph && c !in word
    requires ClearedUpTo(lp, lp', word, |word|, wordLength)
    ensures SessionInvariant(alph', lp', words + [word], wordLength)
  {
    forall c ensures c in alph' <==> IsLetter(c) && !UsedIn(words + [word], c) {
      UsedInAppend(words, word, c);
    }
    ClearedAll(lp, lp', word, wordLength);
    forall c, i | c in lp' && 0 <= i < wordLength
      ensures lp'[c][i] <==> !RuledOut(words + [word], c, i)
    {
      assert c in lp;
      assert lp[c][i] <==> !RuledOut(words, c, i);
      RuledOutAppend(words, word, c, i);
    }
  }

  /** Whether a letter was used, or ruled out at a position, depends only on which words were guessed. */
  lemma SameGuessesSameFacts(words1: seq<string>, words2: seq<string>, c: char, i: nat)
    requires forall w :: w in words1 ==> w in words2
    ensures UsedIn(words1, c) ==> UsedIn(words2, c)
    ensures RuledOut(words1, c, i) ==> RuledOut(words2, c, i)
  {
    if UsedIn(words1, c) {
      var k :| 0 <= k < |words1| && c in words1[k];
      assert words1[k] in words2;
    }
    if RuledOut(words1, c, i) {
      var k :| 0 <= k < |words1| && HasAt(words1[k], i, c);
      assert words1[k] in words2;
    }
  }

  /**
   * The session state depends only on which words were guessed: two valid
   * sessions over the same guesses, in any order and with any repeats,
   * have the same pool and the same position tracker.
   */
  lemma SessionDeterminedByGuesses(alph1: seq<char>, freq1: seq<char>, lp1: map<char, seq<bool>>, words1: seq<string>,
                                   alph2: seq<char>, freq2: seq<char>, lp2: map<char, seq<bool>>, words2: seq<string>,
                                   wordLength: nat)
    requires PoolValid(alph1, freq1) && SessionInvariant(alph1, lp1, words1, wordLength)
    requires PoolValid(alph2, freq2) && SessionInvariant(alph2, lp2, words2, wordLength)
    requires forall w :: w in words1 <==> w in words2
    ensures alph1 == alph2 && freq1 == freq2 && lp1 == lp2
  {
    forall c ensures c in alph1 <==> c in alph2 {
      SameGuessesSameFacts(words1, words2, c, 0);
      SameGuessesSameFacts(words2, words1, c, 0);
    }
    PoolDeterminedByLetters(alph1, freq1, alph2, freq2);
    SameTracker(alph1, lp1, words1, alph2, lp2, words2, wordLength);
  }

  /** The tracker part of `SessionDeterminedByGuesses`. */
  lemma SameTracker(alph1: seq<char>, lp1: map<char, seq<bool>>, words1: seq<string>,
                    alph2: seq<char>, lp2: map<char, seq<bool>>, words2: seq<string>, wordLength: nat)
    requires SessionInvariant(alph1, lp1, words1, wordLength) && SessionInvariant(alph2, lp2, words2, wordLength)
    requires forall w :: w in words1 <==> w in words2
    ensures lp1 == lp2
  {
    forall c | c in lp1 ensures lp1[c] == lp2[c] {
      assert c in lp2;
      forall i | 0 <= i < wordLength ensures lp1[c][i] == lp2[c][i] {
        SameGuessesSameFacts(words1, words2, c, i);
        SameGuessesSameFacts(words2, words1, c, i);
      }
    }
    assert lp1.Keys == lp2.Keys;
  }

  /** After the first `upto` letters of `word`: each letter's bits cleared at the positions where the word has it. */
  ghost predicate ClearedUpTo(lp0: map<char, seq<bool>>, lp: map<char, seq<bool>>, word: string, upto: nat, wordLength: nat)
    requires upto <= |word|
  {
    lp.Keys == lp0.Keys &&
    (forall c :: c in lp0 ==> |lp0[c]| == wordLength) &&
    (forall c :: c in lp ==> |lp[c]| == wordLength) &&
    (forall c, i :: c in lp && 0 <= i < wordLength ==>
       lp[c][i] == (lp0[c][i] && !(i < upto && HasAt(word, i, c))))
  }

  /** `ClearedUpTo` over the whole word, spelled out. */
  lemma ClearedAll(lp0: map<char, seq<bool>>, lp: map<char, seq<bool>>, word: string, wordLength: nat)
    requires ClearedUpTo(lp0, lp, word, |word|, wordLength)
    ensures lp.Keys == lp0.Keys
    ensures forall c, i :: c in lp && 0 <= i < wordLength ==>
              lp[c][i] == (lp0[c][i] && !HasAt(word, i, c))
  {
  }

  lemma ClearStep(lp0: map<char, seq<bool>>, lp: map<char, seq<bool>>, word: string, index: nat, wordLength: nat)
    requires index < |word| && index < wordLength
    requires ClearedUpTo(lp0, lp, word, index, wordLength) && word[index] in lp
    ensures ClearedUpTo(lp0, lp[word[index] := lp[word[index]][index := false]], word, index + 1, wordLength)
  {
  }

  /**
   * The letters of `word` that are in `pool`, each once, in the order the
   * word first uses them: what processing the word takes out of the pool.
   */
  function FirstUses(word: string, pool: seq<char>): seq<char> {
    if word == [] then []
    else
      var prefix, c := word[..|word| - 1], word[|word| - 1];
      var earlier := FirstUses(prefix, pool);
      if c in pool && c !in prefix then earlier + [c] else earlier
  }

  /** `FirstUses` holds exactly the pool letters of the word, in the word's order. */
  lemma {:induction false} FirstUsesSpec(word: string, pool: seq<char>)
    ensures forall c :: c in FirstUses(word, pool) <==> c in word && c in pool
    ensures OrderedBy(FirstUses(word, pool), word)
    ensures NoDup(FirstUses(word, pool))
  {
    if word != [] {
      var prefix, c := word[..|word| - 1], word[|word| - 1];
      assert word == prefix + [c];
      FirstUsesSpec(prefix, pool);
      if c in prefix {
        forall y | y in prefix ensures IndexOf(word, y) == IndexOf(prefix, y) {
          IndexOfExtend(prefix, c, y);
        }
      } else {
        OrderedBySnoc(FirstUses(prefix, pool), prefix, c, c in pool);
      }
    }
    OrderedByNoDup(FirstUses(word, pool), word);
  }

  /** A word none of whose letters is still in the pool takes nothing out of it. */
  lemma FirstUsesNone(word: string, pool: seq<char>)
    requires forall c :: c in word ==> c !in pool
    ensures FirstUses(word, pool) == []
  {
    FirstUsesSpec(word, pool);
    if FirstUses(word, pool) != [] {
      assert FirstUses(word, pool)[0] in FirstUses(word, pool);
    }
  }

  /**
   * After the first `upto` letters of `word`: the pool `alph` is `alph0`
   * less those letters, and `removed` is what they took out of it.
   */
  ghost predicate RemovedUpTo(alph0: seq<char>, alph: seq<char>, removed: seq<char>, word: string, upto: nat)
    requires upto <= |word|
  {
    removed == FirstUses(word[..upto], alph0) &&
    (forall c :: c in alph <==> c in alph0 && c !in word[..upto]) &&
    |alph| == |alph0| - |removed|
  }

  lemma RemoveStep(alph0: seq<char>, alph: seq<char>, alph': seq<char>, removed: seq<char>, word: string, index: nat)
    requires index < |word| && RemovedUpTo(alph0, alph, removed, word, index)
    requires forall c :: c in alph' <==> c in alph && c != word[index]
    requires |alph'| == |alph| - (if word[index] in alph then 1 else 0)
    ensures RemovedUpTo(alph0, alph', if word[index] in alph then removed + [word[index]] else removed, word, index + 1)
  {
    assert word[..index + 1] == word[..index] + [word[index]];
    assert word[..index + 1][..index] == word[..index];
  }

  /** Once the whole word is scanned, the pool has lost exactly the word's letters. */
  lemma RemovedAll(alph0: seq<char>, alph: seq<char>, removed: seq<char>, word: string)
    requires RemovedUpTo(alph0, alph, removed, word, |word|)
    ensures removed == FirstUses(word, alph0)
    ensures forall c :: c in alph <==> c in alph0 && c !in word
    ensures |alph| == |alph0| - |removed|
  {
    assert word[..|word|] == word;
  }

  /**
   * One step of the guess loop on the pool: removing the letter at `index`
   * from a valid pool extends `RemovedUpTo` by one position.
   */
  lemma RemoveLetterStep(alph0: seq<char>, alph: seq<char>, freq: seq<char>, removed: seq<char>, word: string, index: nat)
    requires index < |word| && PoolValid(alph, freq) && RemovedUpTo(alph0, alph, removed, word, index)
    ensures word[index] in alph <==> word[index] in freq
    ensures RemovedUpTo(alph0, if word[index] in freq then ShiftRemove(alph, word[index]) else alph,
                        if word[index] in alph then removed + [word[index]] else removed, word, index + 1)
  {
    LockstepRemoveMembers(alph, freq, word[index]);
    RemoveStep(alph0, alph, ShiftRemove(alph, word[index]), removed, word, index);
  }

  /** Inserts each of `items` into the set `s`, one at a time. */
  method InsertAll(s: set<char>, items: seq<char>) returns (r: set<char>)
    ensures r == s + set c | c in items
  {
    r := s;
    for k := 0 to |items|
      invariant r == s + set c | c in items[..k]
    {
      r := r + {items[k]};
      assert items[..k + 1] == items[..k] + [items[k]];
    }
    assert items[..|items|] == items;
  }

  /**
   * The loop of `process_word`: for each position `index` of the word,
   * clears bit `index` of the letter there in a copy of the tracker, and
   * removes the letter from the pool, collecting it when that succeeds.
   */
  method GuessLetters(letters: Letters, lp0: map<char, seq<bool>>, word: string, wordLength: nat)
    returns (placement: map<char, seq<bool>>, removed: seq<char>)
    requires letters.Valid()
    requires forall c :: c in lp0 <==> IsLetter(c)
    requires forall c :: c in lp0 ==> |lp0[c]| == wordLength
    requires forall i :: 0 <= i < |word| ==> IsLetter(word[i])
    requires |word| <= wordLength
    modifies letters
    ensures letters.Valid()
    ensures ClearedUpTo(lp0, placement, word, |word|, wordLength)
    ensures removed == FirstUses(word, old(letters.alph))
    ensures forall c :: c in letters.alph <==> c in old(letters.alph) && c !in word
    ensures |letters.alph| == |old(letters.alph)| - |removed|
  {
    ghost var alph0 := letters.alph;
    removed := [];
    placement := lp0;
    for index := 0 to |word|
      invariant letters.Valid()
      invariant ClearedUpTo(lp0, placement, word, index, wordLength)
      invariant RemovedUpTo(alph0, letters.alph, removed, word, index)
    {
      var letter := word[index];
      assert letter in placement;
      ClearStep(lp0, placement, word, index, wordLength);
      placement := placement[letter := placement[letter][index := false]];
      RemoveLetterStep(alph0, letters.alph, letters.freq, removed, word, index);
      var r := letters.Remove(letter);
      if r.Some? {
        removed := removed + [letter];
      }
    }
    RemovedAll(alph0, letters.alph, removed, word);
  }

  /**
   * `WordleHelper`: the state of one guessing session. The timer that the
   * source keeps beside these fields is not modelled.
   */
  class WordleHelper {
    var doubleLetters: set<char>
    var usedWords: seq<string>
    var letters: Letters
    var letterPlacement: map<char, seq<bool>>
    var wordLength: nat

    /**
     * The session invariant: the pool is valid and holds exactly the letters
     * no guess has used; the tracker has one entry per letter, of length
     * `wordLength`, whose bit `i` is set exactly when no guess had that
     * letter at position `i`.
     */
    ghost predicate Valid()
      reads this, letters
    {
      letters.Valid() && SessionInvariant(letters.alph, letterPlacement, usedWords, wordLength)
    }

    /** `WordleHelper::new`: a session for words of `wordLength` letters. */
    constructor (wordLength: nat)
      ensures Valid() && fresh(letters)
      ensures this.wordLength == wordLength
      ensures doubleLetters == {} && usedWords == []
      ensures letters.alph == ALPHABET && letters.freq == ALPHABET_BY_FREQUENCY
      ensures letterPlacement == FullPlacement(wordLength)
    {
      doubleLetters := {};
      usedWords := [];
      letters := new Letters();
      letterPlacement := FullPlacement(wordLength);
      this.wordLength := wordLength;
      FreshSession(wordLength);
    }

    /** `WordleHelper::clear`: back to the state of a new session, keeping `wordLength`. */
    method Clear()
      modifies this
      ensures Valid() && fresh(letters)
      ensures wordLength == old(wordLength)
      ensures doubleLetters == {} && usedWords == []
      ensures letters.alph == ALPHABET && letters.freq == ALPHABET_BY_FREQUENCY
      ensures letterPlacement == FullPlacement(wordLength)
    {
      doubleLetters := {};
      usedWords := [];
      letters := new Letters();
      letterPlacement := FullPlacement(wordLength);
      FreshSession(wordLength);
    }

    /**
     * `WordleHelper::process_word`: for each position `i` clears bit `i` of
     * the guessed letter there and removes the letter from the pool,
     * collecting the letters newly removed; then adds the guess's double
     * letters and records the word.
     */
    method ProcessWord(guess: Guess) returns (removed: seq<char>)
      requires Valid()
      requires forall i :: 0 <= i < |guess.word| ==> IsLetter(guess.word[i])
      requires |guess.word| <= wordLength
      modifies this, letters
      ensures Valid()
      ensures letters == old(letters) && wordLength == old(wordLength)
      ensures usedWords == old(usedWords) + [guess.word]
      ensures doubleLetters == old(doubleLetters) + set c | c in guess.doubleLetters
      ensures letterPlacement.Keys == old(letterPlacement).Keys
      ensures forall c, i :: c in letterPlacement && 0 <= i < wordLength ==>
                letterPlacement[c][i] == (old(letterPlacement)[c][i] && !HasAt(guess.word, i, c))
      ensures removed == FirstUses(guess.word, old(letters.alph))
      ensures forall c :: c in letters.alph <==> c in old(letters.alph) && c !in guess.word
      ensures |letters.alph| == |old(letters.alph)| - |removed|
    {
      var word := guess.word;
      ghost var alph0, lp0, words0 := letters.alph, letterPlacement, usedWords;
      assert SessionInvariant(alph0, lp0, words0, wordLength);
      letterPlacement, removed := GuessLetters(letters, letterPlacement, word, wordLength);
      doubleLetters := InsertAll(doubleLetters, guess.doubleLetters);
      usedWords := usedWords + [word];
      ClearedAll(lp0, letterPlacement, word, wordLength);
      RecordGuess(alph0, lp0, words0, wordLength, word, letters.alph, letterPlacement);
    }

    /**
     * `WordleHelper::get_possible_letter_placement`: the letter where its
     * position is still possible, '_' elsewhere; "" for a character with no
     * entry. In a valid session the letter shows at position `i` exactly
     * when no guess so far had it there.
     */
    method GetPossibleLetterPlacement(letter: char) returns (ret: string)
      ensures ret == PositionsOf(letterPlacement, letter)
      ensures letter !in letterPlacement ==> ret == ""
      ensures Valid() && letter in letterPlacement ==>
                |ret| == wordLength &&
                forall i :: 0 <= i < wordLength ==> (ret[i] == letter <==> !RuledOut(usedWords, letter, i))
    {
      if letter !in letterPlacement {
        return "";
      }
      var val := letterPlacement[letter];
      ret := "";
      for i := 0 to |val|
        invariant ret == PlacementOf(val[..i], letter)
      {
        if val[i] {
          ret := ret + [letter];
        } else {
          ret := ret + ['_'];
        }
        assert val[..i + 1] == val[..i] + [val[i]];
      }
      assert val[..|val|] == val;
    }

    /**
     * The lines `print_possible_letter_placement` prints: the known pattern
     * (the second argument, or `wordLength` underscores), then one masked
     * line for each letter of the first argument.
     */
    method PossibleLetterPlacementLines(args: seq<string>) returns (known: string, lines: seq<string>)
      requires |args| >= 1
      ensures known == if |args| >= 2 then args[1] else Underscores(wordLength)
      ensures |lines| == |args[0]|
      ensures forall k :: 0 <= k < |lines| ==> lines[k] == MaskedLine(known, PositionsOf(letterPlacement, args[0][k]))
    {
      var unknownLetters := args[0];
      known := if |args| >= 2 then args[1] else Underscores(wordLength);
      lines := [];
      for k := 0 to |unknownLetters|
        invariant |lines| == k
        invariant forall j :: 0 <= j < k ==> lines[j] == MaskedLine(known, PositionsOf(letterPlacement, unknownLetters[j]))
      {
        var positions := GetPossibleLetterPlacement(unknownLetters[k]);
        lines := lines + [MaskedLine(known, positions)];
      }
    }
  }
}
