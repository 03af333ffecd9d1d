# rtf2txt in Dafny

A model of the converter `rtf2txt`, which turns an RTF document into plain text
wrapped at 78 columns. The converter has three parts, and the model has one
module for each:

- `Tokenizer` (`tokenizer.dfy`) models `getToken`. It reads characters up to the
  next terminal character (backslash, `{`, `}`, space, tab, newline) and returns
  the literal token before it and the terminal, or reports the end of the
  stream. On the way it elides the escape `'a0` / `'A0`, which is what is left of
  RTF's `\'a0` non-breaking space once the backslash has ended the previous
  token. The stream is the whole input as a `seq<char>` plus a cursor.
  - `GetToken` is the read loop, with the match counter, the held-back buffer
    and the token as locals.
  - It is proved equal to the recursive specification `Scan`, and the
    tokenizer's properties are proved about `Scan`.
- `LineWrapper` (`line_wrap.dfy`) models `lineWrap` and the global `Line`
  buffer.
  - `Wrapper` is a class whose fields are the pending line and everything
    written to standard output so far.
  - `LineWrap` updates both in place, with the source's two nested loops. It is
    proved equal to the specification `Wrapped`, built from `Drain` and
    `BreakAt`.
  - The class keeps an invariant: the pending line is at most 78 characters,
    and no output line is longer than 78.
- `Parser` (`parser.dfy`) models the seven-state machine that `main` drives
  with tokens.
  - `Step` is the pure transition and states the header-detection rules.
  - `Switch` and `TextCase` are the `switch` statement, calling `LineWrap` on a
    `Wrapper`.
  - `Convert` is `main`'s token loop, followed by the closing
    `lineWrap("\n")`. It is proved to write exactly `Converted(input)`, the
    output of the whole-run specification `Run`.
  - Lemmas about `Run` cover the whole run: every output line fits in 78
    columns, the output always ends with a newline, and input without a
    backslash (so without a header) yields only that newline. The first two
    hold for inputs with no NUL character; see "Left out".
  - Lemmas also work through the two sample documents `{\rtf Hello world}` and
    `{\rtf A\'a0B}`, for any plain words.

The model reproduces these quirks of the code:

- `special` is never cleared. The code calls `special.empty()`, which only asks
  whether it is empty.
- The default arm of the tokenizer leaves a pending match pending.
- A pending match is dropped at the end of the stream.
- `s_block` and `s_tag` fall through into `s_text`.
- `s_esc` never writes its token.
- The last token, ended by the end of the input, is never processed.
- A line without whitespace is cut at index 77, and the character at index 77
  is lost.

## Model

| member | source | states |
|---|---|---|
| `Tokenizer.Scan` | rtf2txt.cpp:76-136 | The cursor only moves forward and stays within the input. End of stream is reported exactly when the terminal is empty, and then the cursor is at the end of the input. Otherwise the terminal is the last character consumed. |
| `Tokenizer.Feed` | rtf2txt.cpp:94-134 | One non-terminal character only extends the token, and `special` is never shortened. The counter rises only by one, by holding the character back in `special` with the token unchanged. When it falls, it falls to 0 and leaves `special` as it was. |
| `Tokenizer.Flush` | rtf2txt.cpp:85-90 | The token handed back on a terminal is the token built so far, extended by at most the contents of `special`. |
| `Tokenizer.NextToken` | rtf2txt.cpp:67-137 | One call from a fresh state moves the cursor forward within the input. It reports the end of the stream exactly when the terminal is empty. Otherwise its terminal is the last character it consumed. |
| `Tokenizer.GetToken` | rtf2txt.cpp:67-137 | The read loop returns the end-of-stream flag, the token, the terminal and the new cursor that the specification `NextToken` gives for the same input and cursor. |
| `Tokenizer.ScanStopsAtFirstTerminal` | rtf2txt.cpp:78-92 | A call ends at the first terminal character after the cursor and returns that character as the terminal. It reports the end of the stream only when no terminal remains. |
| `Tokenizer.ScanTokenHasNoTerminal` | rtf2txt.cpp:79-134 | From any reachable scanner state, the token never contains a backslash, brace, space, tab or newline, including after a pending match is flushed. |
| `Tokenizer.NextTokenHasNoTerminal` | rtf2txt.cpp:72-136 | The token of a whole call never contains a terminal character. |
| `Tokenizer.FeedKeepsScannerOk` | rtf2txt.cpp:94-134 | Each non-terminal character keeps the scanner state consistent. The counter stays at most 2, `special` holds only `'`, `a` and `A`, a pending match is backed by its characters at the end of `special`, and the token holds no terminal. |
| `Tokenizer.ScanWithoutApostrophe` | rtf2txt.cpp:76-136 | With no match pending and no apostrophe before the stopping point, the call appends exactly the characters between the cursor and the terminal (or the end of the input) to the token. |
| `Tokenizer.ScanStopsAt` | rtf2txt.cpp:76-92 | If the first terminal after the cursor is at `k`, the call consumes exactly up to and including `k`. |
| `Tokenizer.ScanReachesEnd` | rtf2txt.cpp:76-136 | A call that meets no terminal reports the end of the stream. |
| `Tokenizer.PlainScan` | rtf2txt.cpp:76-134 | With no match pending, no apostrophe and a terminal at `k`, the result is the token extended by the characters before `k`, the terminal at `k`, and the cursor `k + 1`. |
| `Tokenizer.PlainToken` | rtf2txt.cpp:67-137 | With no apostrophe before the first terminal, a call returns exactly the characters before that terminal, and the terminal. |
| `Tokenizer.PlainLastToken` | rtf2txt.cpp:76-136 | With neither a terminal nor an apostrophe left, a call reports the end of the stream and returns the rest of the input as its token. |
| `Tokenizer.HexEscapeElided` | rtf2txt.cpp:94-124 | `'a0` or `'A0`, read with no match pending, adds nothing to the token and leaves no match pending. Its apostrophe and letter stay in `special`. |
| `Tokenizer.HexEscapeThenPlain` | rtf2txt.cpp:94-134 | A call that starts on the escape and then meets only plain characters returns just those characters. |
| `Tokenizer.PendingMatchFate` | rtf2txt.cpp:85-136 | A pending match is appended on a terminal and dropped at the end of the stream. On a mismatching apostrophe, letter or zero, all of `special` (stale characters included) is appended, then that character, and the counter returns to 0. Any other character is appended alone, and the match stays pending. |
| `Tokenizer.StaleSpecialIsFlushed` | rtf2txt.cpp:94-105 | Because `special` is never cleared, `'0'x}` gives the token `'0x''`: the stale apostrophe is flushed again with the new one. |
| `Tokenizer.DefaultArmKeepsMatchPending` | rtf2txt.cpp:132-134 | `'xa0 ` gives the token `x`. The `x` of the default arm does not cancel the match, so `'a0` is still elided around it. |
| `Tokenizer.PendingDroppedAtEnd` | rtf2txt.cpp:136 | `ab'A` at the end of the input gives `ab`, and the pending `'A` is lost. |
| `LineWrapper.BreakAt` | rtf2txt.cpp:51-58 | The inner scan's index is below 78. It is the last whitespace position below `n` when there is one, and 77 otherwise. |
| `LineWrapper.BreakIndex` | rtf2txt.cpp:50-58 | The break index of a line longer than 78 is below 78, and it is a whitespace position or 77. |
| `LineWrapper.Wrapped` | rtf2txt.cpp:41-65 | lineWrap only adds to the output. `"\n"` writes the pending line and a newline and empties the line. Any other fragment leaves at most 78 characters pending. |
| `LineWrapper.Drain` | rtf2txt.cpp:50-64 | The wrap loop leaves a pending line of at most 78 characters and only ever adds to the output. |
| `LineWrapper.WrapPass` | rtf2txt.cpp:50-63 | The loop's next output is the piece before the break index followed by a newline. The loop then continues with the line after the break index, so exactly the character at the break index is dropped. The piece is shorter than 78. The break is the last whitespace among the first 78 characters, or 77 when there is none. |
| `LineWrapper.DrainConserves` | rtf2txt.cpp:50-64 | The wrap loop keeps the old output. What it writes is the front of the line, position by position, with some characters replaced by newlines. The line left pending is exactly the rest of the old line. So the loop loses only break characters, each replaced by the newline written in its place. |
| `LineWrapper.WriteLine` | rtf2txt.cpp:60-62 | Writing a piece of at most `n` characters and a newline at the start of a line ends at the start of a line and keeps every line at most `n` long. |
| `LineWrapper.DrainKeepsLines` | rtf2txt.cpp:50-64 | The wrap loop, started at the start of a line, leaves the page invariant true. |
| `LineWrapper.WrappedKeepsPageOk` | rtf2txt.cpp:41-65 | Every lineWrap call keeps the page invariant. |
| `LineWrapper.FittingFragmentAppended` | rtf2txt.cpp:49-50 | A fragment other than `"\n"` that still fits is only appended to the line, and nothing is written. |
| `LineWrapper.NoWhitespaceHundred` | rtf2txt.cpp:50-63 | 100 non-whitespace characters write a 77-character line, drop the character at index 77 and keep the last 22 characters pending. |
| `LineWrapper.Wrapper.constructor` | rtf2txt.cpp:172 | The buffer starts empty, with nothing written. |
| `LineWrapper.Wrapper.LineWrap` | rtf2txt.cpp:41-65 | The new line and output are `Wrapped` of the old ones. A lone `"\n"` writes the whole line plus a newline and empties the line. Any other fragment leaves at most 78 characters pending. The page invariant is kept. |
| `Parser.Contains` | rtf2txt.cpp:199 | `find("rtf")` succeeds exactly when the pattern occurs at some index of the token. |
| `Parser.Dispatch` | rtf2txt.cpp:213-220 | The terminal dispatch goes to `s_esc` exactly on a backslash, to `s_block` exactly on a brace, and never to a header state or `s_tag`. |
| `Parser.TextArm` | rtf2txt.cpp:232-249 | The `s_text` code writes only the token and a blank terminal, and nothing when the token is empty and the terminal is not blank. Entered from a non-header state, it never leads back into the header states. |
| `Parser.Step` | rtf2txt.cpp:181-267 | Nothing is written before the header. `s_init_2` is entered exactly on an empty token ended by `{` in `s_init_1`. `s_init_3` is entered exactly on an empty token ended by a backslash in `s_init_2`. The header states are left exactly on a token containing `rtf` in `s_init_3`, and are never entered again. That token's terminal then dispatches: a backslash to `s_esc`, `{` to `s_block`, anything else to `s_text`. |
| `Parser.TextStatesAgree` | rtf2txt.cpp:212-249 | `s_block`, `s_tag` and `s_text` all write the non-empty token and then a blank terminal. They go to `s_esc` on a backslash, to `s_block` on `{`, and to `s_text` otherwise. |
| `Parser.EscWritesOnlyLoneBraces` | rtf2txt.cpp:250-265 | `s_esc` writes something exactly when an empty token comes with `{` or `}`. It then writes only that brace and goes to `s_text`; otherwise it dispatches on the terminal. |
| `Parser.Switch` | rtf2txt.cpp:181-267 | The switch moves to `Step`'s next state and calls lineWrap on exactly `Step`'s fragments, in order. The page invariant is kept. |
| `Parser.TextCase` | rtf2txt.cpp:232-249 | The `s_text` code writes the non-empty token and a blank terminal, in that order, and sets the state as `TextArm` says. |
| `Parser.WrapAllAppend` | rtf2txt.cpp:233-237 | Wrapping two lists of fragments one after the other equals wrapping their concatenation. |
| `Parser.WrapAll` | rtf2txt.cpp:233-237 | Handing a list of fragments to lineWrap one by one only adds to the output. |
| `Parser.Run` | rtf2txt.cpp:177-269 | A run ends with an empty pending line and only adds to the output. It always writes something, and the last character written is a newline. |
| `Parser.Converted` | rtf2txt.cpp:177-269 | The converter's output is never empty and ends with a newline. |
| `Parser.Convert` | rtf2txt.cpp:172-271 | `main`'s loop, followed by the closing `lineWrap("\n")`, writes exactly `Converted(input)`. |
| `Parser.WrapAllKeepsPageOk` | rtf2txt.cpp:233-237 | Passing any list of fragments to lineWrap keeps the page invariant. |
| `Parser.RunKeepsPageOk` | rtf2txt.cpp:177-269 | The page invariant holds after every run. |
| `Parser.ConvertedLinesAtMost` | rtf2txt.cpp:177-269 | The converter's output is non-empty, ends with a newline, and has no line longer than 78 characters. |
| `Parser.NoBackslashStaysInHeader` | rtf2txt.cpp:182-196 | Without a backslash, the machine never leaves `s_init_1` and `s_init_2`, and the run writes only the final flush. |
| `Parser.NoBackslashNoText` | rtf2txt.cpp:182-269 | An input without a backslash, including the empty input, yields exactly `"\n"`. |
| `Parser.RunStep` | rtf2txt.cpp:177-268 | A token ended by a terminal goes through the switch, and the loop continues after its terminal. |
| `Parser.RunEnd` | rtf2txt.cpp:177-269 | Once getToken reports the end of the stream, the last token is ignored in every state, and the final flush writes the pending line and a newline. |
| `Parser.HeaderSymbol` | rtf2txt.cpp:182-196 | An empty token ended by a single symbol moves the machine as `Step` says, writes nothing, and the run continues after the symbol. |
| `Parser.HeaderName` | rtf2txt.cpp:197-211 | In `s_init_3`, the token `rtf` ended by a space leads to `s_text`, writes nothing, and the run continues after the space. |
| `Parser.HeaderRun` | rtf2txt.cpp:182-211 | The header `{\rtf ` moves the machine from `s_init_1` to `s_text` and writes nothing. |
| `Parser.WordToken` | rtf2txt.cpp:67-137 | A plain word followed by a terminal is read as one token with that terminal, and the cursor moves past the terminal. |
| `Parser.WordThenSpaceAppended` | rtf2txt.cpp:232-238 | In `s_text`, a plain word and a space stay in `s_text` and write the word, then the space. When both fit, lineWrap only appends them to the pending line. |
| `Parser.WordThenControlAppended` | rtf2txt.cpp:232-247 | In `s_text`, a plain word ended by `}` or a backslash writes only the word and goes to `s_text` or `s_esc`. When the word fits, lineWrap only appends it to the pending line. |
| `Parser.TextRunWord` | rtf2txt.cpp:177-249 | In `s_text`, a word followed by a terminal is one pass of the loop. The run continues after the terminal, with the state and page that `Step` and lineWrap give. |
| `Parser.TextWordThenSpace` | rtf2txt.cpp:232-238 | In `s_text`, a plain word followed by a space that both fit are appended to the pending line. |
| `Parser.TextWordThenControl` | rtf2txt.cpp:232-247 | In `s_text`, a plain word ended by `}` or a backslash is appended without its terminal. The backslash leads to `s_esc`, and `}` to `s_text`. |
| `Parser.HexEscapedWord` | rtf2txt.cpp:250-265 | After `\'a0`, the next word reaches `s_esc` with the escape elided and is not written. |
| `Parser.EndFlushesLine` | rtf2txt.cpp:269 | At the end of the input, the run writes the pending line and a newline, and nothing else. |
| `Parser.HelloWorld` | rtf2txt.cpp:177-269 | For any two plain words that fit on one line, `{\rtf w1 w2}` converts to `w1 w2` followed by a newline. |
| `Parser.HexEscapeHidesFollowingText` | rtf2txt.cpp:177-269 | For any plain words A and B, `{\rtf A\'a0B}` converts to `A` followed by a newline, because B is consumed in `s_esc`. |
| `Parser.FinalTokenDropped` | rtf2txt.cpp:177-269 | A document that ends in a word with no terminal after it writes only the final newline. |

## Left out

- Argument checking, `fopen` and its error messages (rtf2txt.cpp:159-170) are process and file-system plumbing. The input is the already-read contents of the file.
- `fgetc` on a `FILE*` is modelled as a cursor into the input sequence. A call returns the new cursor instead of leaving the stream advanced.
- `fputs` and `fflush` to standard output are modelled as appends to the `out` field of `Wrapper`.
- `isspace` is fixed to the C locale set (space, `\t`, `\n`, `\v`, `\f`, `\r`). Other locales, and the undefined behaviour on a negative `char`, are not modelled.
- The `Name` table and the commented-out trace output (rtf2txt.cpp:149-157,178-180) are unused by the program.
- The heap allocation of `Line` (rtf2txt.cpp:38,172), which is never freed, is not modelled. The buffer is an owned field of a `Wrapper` object.
- Characters are Dafny `char`s rather than C `char`s. Nothing in the core depends on their width.
- `fputs` stops at the first NUL character (rtf2txt.cpp:44,61), but `Wrapped` and `Drain` append whole strings. A NUL read from the input passes through getToken's default arm into a token and then into `Line`. From that point the program writes less than the model: for `{\rtf a\0b c}` it writes only `a`, with no newline.
- Parser.ConvertedLinesAtMost: describes the output with whole strings appended. It matches the program only for inputs without a NUL character; with one, the program's output may lack the final newline.
- Parser.Converted: "the output ends with a newline" holds for the program only on inputs without a NUL character, for the same reason.
- Parser.Run: the trailing newline likewise holds for the program only on inputs without a NUL character.
- Idempotence of re-wrapping already wrapped text is not proved. The program never wraps its own output: the only fragments it passes in are tokens and single blank terminals.
- Parser.HelloWorld: stated for plain words, which contain no terminal character and no apostrophe, rather than for arbitrary text.
- Parser.HexEscapeHidesFollowingText: stated for plain words `A` and `B` that are both non-empty, with `|A| <= 78` so that `A` stays on the pending line without wrapping. For an empty `B`, `s_esc` would write the lone `}`. For an empty `A` the output would be the same lone newline, but the model does not prove it.

## Notable behaviour

- A 100-character run without whitespace gives a 77-character line, and the character at index 77 is lost (`LineWrapper.NoWhitespaceHundred`).
- A token longer than the width is cut, so no output line is longer than 78 (`Parser.ConvertedLinesAtMost`).
- An input without the header, including the empty input, still writes one newline, the closing flush (`Parser.NoBackslashNoText`, for inputs without a backslash).
- A pending match is dropped at the end of the input (`Tokenizer.PendingDroppedAtEnd`). Because `special` is never cleared, characters from earlier false alarms are flushed again (`Tokenizer.StaleSpecialIsFlushed`).
