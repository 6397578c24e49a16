# clir line editor — a Dafny model of its editing engine

clir is a small readline replacement in C. It puts the terminal in raw mode and
reads one key at a time. It edits a line in a buffer that the caller supplies,
keeping the cursor inside it, and redraws the line after every change. Its
process-wide history is bounded and has no adjacent duplicates, and can be paged
through with the arrow keys and saved to and loaded from a text file. A
completion callback offers candidate words for Tab.

This project models the engine of `clir.c`:

- **Line editing.** The editing primitives work in place on the caller's
  buffer: insert, move, delete, backspace, delete the previous word,
  transpose, kill the line or its tail, and the word jumps.
- **Key dispatch.** The dispatch loop of `clirEdit` decodes each key,
  including the ESC sequences, and its return paths end a session.
- **Redraw.** The two redraw routines are modelled as the commands they send
  to the terminal.
- **History and completion.** The history store covers add, resize, save
  and load. Word completion is modelled with the corrected behaviour of the
  two completion findings below (clir.c:258 and clir.c:264): a candidate
  matches only when it begins with the typed word, and the rest is copied
  from the end of the typed word. The listing of several matches is reduced
  to the outcome `Listed`, which holds the matches in order.
- **The session as a whole.** `Edit` runs the read loop over the input and
  is tied to it key by key: the keys the input decodes to, the state after
  each, and which key ended the session and how.

Modules:

- `Chars`: byte constants, `isspace`, C strings.
- `Keys`: the key and escape-sequence decoder.
- `Words`: the word scans.
- `Editing`: what each action does to the line and cursor, as functions on
  values.
- `Render`: the redraw routines.
- `History`: the history as values, plus the `Store` class.
- `Completion`: word completion.
- `LineEdit`: the `Session` class over the caller's `array<char>`, plus
  `Edit`, the entry point.
- `Findings`: the code as written where it departs from its evident
  intent.

Each imperative operation of the C is a method on the session or the store.
Each method is proved against a function in `Editing`, `History` or `Render`,
and lemmas state what those functions promise.

Modelling conventions:

- **Buffer.** The session keeps `len <= cap` and a NUL at `buf[len]`, where
  `cap` is the buffer's size minus one.
- **Terminal.** The terminal is the list of commands sent to it, named after
  ECMA-48 (`Cha`, `El`, `Cuf`, `Cuu`, `Cud`, `Ed`), together with the number
  of writes it still accepts. Once a write is refused, every later one is.
- **Input and completion.** The input is the sequence of bytes still to be
  read. The completion callback is a function from the line to its
  candidates. The terminal width is a parameter.

## Model

| member | source | states |
|---|---|---|
| Keys.Decode | clir.c:666-831 | one byte, or one escape sequence, is consumed; a byte with no binding of its own is inserted as itself; Tab completes exactly when a completion callback is set |
| Keys.DecodeEscape | clir.c:731-801 | after ESC nothing is inserted and nothing is completed, and no more bytes are consumed than are there |
| Keys.DecodeExtended | clir.c:753-784 | after ESC [ digit the only outcomes are the delete key, the two ctrl-arrow word jumps, or nothing |
| Keys.EscapeTable | clir.c:731-800 | the escape table in both directions: which ESC sequences page history, move, delete, jump words, or go home/end |
| Keys.UnboundEscapes | clir.c:749-753 | ESC [ Z (shift-tab) and ESC [ H have no branch: three bytes are consumed and nothing happens |
| Keys.DeleteKeyConsumes | clir.c:753-759 | ESC [ 3 ~ is the delete key and consumes five bytes, the read of two after the digit included |
| Keys.ExtendedTable | clir.c:753-784 | after ESC [ and a digit from 1 to 6: the delete key exactly for 3 ~, Ctrl-Right and Ctrl-Left exactly for the two `1;5` sequences, nothing for any other |
| Keys.DecodeAll | clir.c:661-667 | the loop decodes the input front to back into one action per key, at most one per byte, and none only for no input |
| Keys.DecodeAllStep | clir.c:661-667 | decoding the next key from the unread input extends the decoded prefix by that key |
| Words.BackOver | clir.c:614-617 | the backward scan stops exactly at the first byte of the run it stepped over |
| Words.ForwardOver | clir.c:766-771 | the forward scan stops exactly at the end of the run it stepped over |
| Words.WordRightLandsOnNextWord | clir.c:765-772 | Ctrl-Right lands on the start of the next word, or at the end of the line, never before the cursor |
| Words.WordLeftLandsOnPrevWord | clir.c:773-782 | Ctrl-Left lands on the start of the word before the cursor, or at the line start |
| Editing.Stepped | clir.c:688-831 | every action leaves the cursor inside the text and the text within the buffer's capacity |
| Editing.InsertThenBackspace | clir.c:520-546 | backspace undoes an insert that was not dropped |
| Editing.InsertThenLeftDelete | clir.c:590-597 | moving left and deleting undoes an insert that was not dropped |
| Editing.InsertWhenFull | clir.c:521 | an insert into a full buffer changes nothing |
| Editing.MovesUndoEachOther | clir.c:547-562 | left and right are inverse away from the ends and do nothing at them |
| Editing.TransposeSwaps | clir.c:710-718 | Ctrl-T swaps the two bytes around the cursor, keeps every other byte and the multiset of bytes, and advances the cursor unless it is on the last byte |
| Editing.TransposeTwiceAtEnd | clir.c:711-715 | on the last byte Ctrl-T is its own inverse |
| Editing.WordCutRemovesOneWord | clir.c:612-624 | Ctrl-W removes exactly the word and the spaces before the cursor, keeps the rest, and leaves the cursor at the cut |
| Editing.UnknownEscapesKeepLine | clir.c:749-753 | an unbound escape sequence leaves the line and cursor unchanged |
| Editing.InsertedAll | clir.c:272-276 | inserting bytes one by one keeps the line within capacity |
| Editing.InsertedAllIsSplice | clir.c:272-276 | the inserted bytes land at the cursor, in order, up to the capacity, and the cursor follows them |
| Editing.UniqueCompletionWritesWord | clir.c:270-277 | a unique completion replaces the typed word by the whole candidate and a space, with the cursor after the space |
| Editing.SuffixWritesWord | clir.c:272-276 | inserting the rest of any word that begins with the typed word, and a space, leaves that word and the space in place of the typed word, with the cursor after the space |
| Editing.CompletionExample | clir.c:241-292 | "he" against ["hello"] becomes "hello " with the cursor at 6 |
| Completion.ExtendsIffAgreesAndLonger | clir.c:257-262 | a candidate begins with the typed word exactly when it agrees with it and is at least as long |
| Completion.CompletionOf | clir.c:241-292 | no candidates exactly for an empty list; no match when no candidate begins with the typed word; a unique match exactly when one match remains, and then it is that candidate; otherwise `Listed` holds exactly the matches, at least two, in the callback's order |
| Completion.MatchesInOrder | clir.c:257-269 | the matches are the candidates that begin with the typed word, each once per occurrence, at increasing positions in the callback's order |
| Completion.SelectPicksKept | clir.c:257-269 | selecting from a position on picks exactly the candidates at the kept positions, in order |
| Completion.Suffix | clir.c:270-277 | the inserted bytes are the rest of the word and a space: the typed word followed by them, less the space, is the word |
| Completion.Filter | clir.c:247-269 | the filter loop marks exactly the candidates that extend the typed word, counts them, and remembers the last; with one match it is the last one marked |
| Completion.Agreeing | clir.c:258-262 | the byte comparison of one candidate accepts it exactly when it begins with the typed word |
| Completion.UniqueExample | clir.c:241-292 | "he" against ["hello"] is a unique match that inserts "llo " |
| Completion.ListedExample | clir.c:278-289 | "h" against four h-words lists all four and returns 1 |
| History.Added | clir.c:911-931 | after an add the store is within its bound and, if the bound is positive, ends with the line |
| History.AddedIsNewestPart | clir.c:922-929 | an add keeps the order: the store is the newest part of the old store, followed by the line when it is stored |
| History.AddedKeepsNoAdjacentDuplicates | clir.c:927 | adding never puts two equal entries side by side |
| History.AddingNewestAgain | clir.c:922-927 | adding the newest entry again stores nothing, yet on a full store it still evicts the oldest entry |
| History.AddExamples | clir.c:911-931 | with room for two, "a", "b", "c" leave ["b", "c"]; "x" twice is kept once |
| History.Resized | clir.c:940-961 | resizing keeps the newest min(n, size) entries in order |
| History.Serialize | clir.c:967-976 | the saved file holds at least one byte, its newline, per entry |
| History.ChunkEnd | clir.c:989 | one fgets takes at least one byte and at most 4095 |
| History.ParseLine | clir.c:992-994 | a loaded line holds no NUL and no CR |
| History.Lines | clir.c:989-996 | no loaded line holds a NUL |
| History.AddAll | clir.c:989-996 | loading keeps the store within its bound |
| History.LinesOfSerialize | clir.c:967-999 | reading back a saved file gives the saved entries, for entries one fgets can hold with no CR, LF or NUL |
| History.AddAllAppends | clir.c:911-931 | adding lines with distinct neighbours to a store they fit in appends them |
| History.SaveLoadRoundTrip | clir.c:967-999 | saving and loading into an empty store with the same bound gives back the same entries |
| History.LongestLineSplits | clir.c:985-995 | a saved entry of 4095 bytes comes back as two entries, itself and an empty line |
| History.Browsed | clir.c:566-586 | paging stores the edited text in the session's slot, moves one entry towards older or newer unless at the end, and loads that entry truncated to the buffer; with one entry nothing happens |
| History.BrowseAwayAndBack | clir.c:566-586 | paging away and back restores the edited text and index |
| History.BrowseExample | clir.c:566-586 | with ["a", "b", ""] and the edited "c", up shows "b"; after "b" is edited to "B", up shows "a" and down shows "B" again, with the entries ["a", "B", "c"] |
| History.Store.constructor | clir.c:110-122 | the store starts empty with a bound of 100 |
| History.Store.Add | clir.c:911-931 | `clirHistoryAdd`: the new store is `Added` of the old and the return value says whether the line was stored |
| History.Store.SetMaxLen | clir.c:937-963 | a bound below 1 is refused and changes nothing; otherwise the store keeps its newest entries |
| History.Store.Save | clir.c:967-976 | a file that cannot be opened returns -1 and writes nothing; otherwise the loop writes exactly `Serialize` of the store and 0 is returned |
| History.Store.Load | clir.c:983-999 | a missing file returns -1 and changes nothing; otherwise every line is added in file order and 0 is returned |
| Render.Window | clir.c:389-396 | the scrolling loops keep the cursor on the row, shift only as far as needed to show it, show as much text as fits, and compute it in closed form |
| Render.RefreshSingleLine | clir.c:381-410 | the five writes of a single-line redraw, cut at the first refused write |
| Render.RowsIsCeiling | clir.c:419 | the rows are the fewest that hold the prompt and the text |
| Render.CursorRowHoldsCursor | clir.c:420 | the cursor row is the row that holds the column after the cursor |
| Render.RowsOfFullRows | clir.c:419 | text ending at a row's end uses exactly the quotient of rows |
| Render.CursorRowIsQuotient | clir.c:420 | the cursor row is one plus the full rows before it |
| Render.CursorWithinRows | clir.c:419-481 | the cursor's row lies within the rows drawn, the wrap row included, unless the text is empty and the prompt fills whole rows |
| Render.MultiLinePlanFacts | clir.c:416-506 | the rows hold the text and grow by one exactly on an exact wrap; the row high-water mark covers them and never shrinks; the column is in [1, cols]; the column move is the last write |
| Render.ClearingEndsOnTopRow | clir.c:436-451 | starting on the previous cursor row, the clearing writes end on the top row of the previous redraw |
| Render.ClearPrevious | clir.c:436-451 | the clearing loop sends exactly the clearing writes |
| Render.RefreshMultiLine | clir.c:416-506 | what a multi-line redraw sends, cut at the first refused write, and the row high-water mark and the remembered cursor it leaves |
| Render.Redrawn | clir.c:509-514 | a redraw uses up writes and never lowers the row high-water mark; a single-line redraw keeps both it and the remembered cursor |
| LineEdit.Session.constructor | clir.c:640-653 | a session starts with an empty line, the cursor, index and word start at 0, and a NUL in the buffer |
| LineEdit.Session.Refresh | clir.c:509-514 | the terminal receives the redraw of the current line and the session keeps the rows and cursor it leaves |
| LineEdit.Session.Insert | clir.c:520-546 | the buffer holds `InsertedAt` of the old line, with the terminator inside the buffer, and says which path it took |
| LineEdit.Session.Type | clir.c:520-546 | the buffer holds `InsertedAt` of the old line; a full buffer sends nothing; a byte appended on a line that fits the row is echoed by itself as one write; any other insert redraws the line once; it fails exactly when that echo is refused, and then nothing is sent |
| LineEdit.Session.MoveLeft | clir.c:547-554 | the cursor moves left unless at 0, and says whether it moved |
| LineEdit.Session.MoveRight | clir.c:555-562 | the cursor moves right unless at the end, and says whether it moved |
| LineEdit.Session.Delete | clir.c:590-597 | the buffer holds `DeletedAt` of the old line; it acts exactly when the cursor is on a byte |
| LineEdit.Session.Backspace | clir.c:600-608 | the buffer holds `Backspaced` of the old line; it acts exactly when the cursor is past 0 |
| LineEdit.Session.CloseGap | clir.c:620-622 | the memmove of Ctrl-W removes exactly the bytes between the two indices |
| LineEdit.Session.DeletePrevWord | clir.c:612-624 | the two scans and the memmove leave `WordCut` of the old line |
| LineEdit.Session.Transpose | clir.c:710-718 | the buffer holds `Transposed` of the old line; it acts exactly when 0 < pos < len |
| LineEdit.Session.KillLine | clir.c:802-806 | the line becomes empty |
| LineEdit.Session.KillToEnd | clir.c:807-811 | the line is cut at the cursor |
| LineEdit.Session.WordRight | clir.c:765-772 | the two loops leave the cursor on `WordRightTarget` |
| LineEdit.Session.WordLeft | clir.c:773-782 | with the cursor tested before the byte before it, the two loops leave the cursor on `WordLeftTarget` |
| LineEdit.Session.HistoryMove | clir.c:566-586 | the store and the session follow `Browsed`, with the loaded entry truncated to the buffer |
| LineEdit.Session.Complete | clir.c:241-292 | the line becomes the unique completion or is unchanged, and the return value is 1 exactly when several matches are listed |
| LineEdit.Session.ClearScreen | clir.c:217-221 | the home and erase-display commands are sent when the terminal accepts them |
| LineEdit.Session.Motion | clir.c:719-818 | a motion key changes only the cursor, as `Stepped` says, and asks for a redraw exactly when the C redraws |
| LineEdit.Session.Erase | clir.c:696-811 | an erasing key leaves `Stepped` of the old line and asks for a redraw exactly when the C redraws |
| LineEdit.Session.LineKey | clir.c:688-826 | any key but typing, Ctrl-L, history and Tab leaves `Stepped` of the old line; Enter, Ctrl-C and Ctrl-D on an empty line end the session as `Ending` says; it asks for a redraw exactly when the source redraws |
| LineEdit.Session.Step | clir.c:672-830 | one key moves the line, the history entries, the index and the word start exactly as `Next` says; the session ends exactly as `EndOf` says; a typed byte is shown as `TypedShown` says, Ctrl-L clears the screen and then redraws, and every other key redraws once exactly when the source redraws and otherwise sends nothing |
| LineEdit.Session.HistoryKey | clir.c:725-742 | a history key moves the state as `Next` says and redraws exactly when the history moved |
| LineEdit.Session.CompleteKey | clir.c:672-685 | Tab moves the state as `Next` says; it redraws exactly when several words were listed, and sends nothing when nothing was completed |
| LineEdit.Session.TypeAll | clir.c:272-276 | typing the bytes one by one leaves `InsertedAll` of the old line |
| LineEdit.Session.TypeKey | clir.c:827-830 | a byte with no binding is typed; the state moves as `Next` says, a space sets the word start after it, and the session ends with a write failure exactly when the echo is refused |
| LineEdit.Session.ClearKey | clir.c:820-823 | Ctrl-L leaves the state unchanged, clears the screen in one write and then redraws the line |
| LineEdit.Session.PlainKey | clir.c:688-826 | every other key moves the state as `Next` says, ends the session as `EndOf` says, and redraws once exactly when the source redraws |
| LineEdit.Session.Advance | clir.c:661-830 | one pass of the loop decodes the next key from the unread input, carries it out, and extends the record of the run by that key and the state it leaves |
| LineEdit.Session.Run | clir.c:661-832 | the run is a `Trace` of the input: the keys are the first ones the input decodes to; each moves the state as `Next` says; no key but the last ends the session; the last ends it as `EndOf` says; and the run ends with closed input exactly when the whole input was read without an ending |
| LineEdit.Edit | clir.c:635-832 | the session starts from an empty line after the history slot is added; a refused prompt ends it at once with no keys read; otherwise the prompt is written first and the run is a `Trace` of the input; the returned line is the final state's line and the first `len` bytes of the buffer, followed by a NUL; the code is its length on Enter or closed input and -1 otherwise; the history is the final state's entries, less the slot on Enter and EOF |
| LineEdit.EditExample | clir.c:635-832 | typing "a" and Enter at the prompt "> " submits the line "a" |
| LineEdit.Ending | clir.c:689-707 | Enter submits, Ctrl-C interrupts and Ctrl-D on an empty line is end of file, exactly |
| LineEdit.EndOf | clir.c:689-828 | a key ends the session with a write failure exactly when it is a byte whose echo is refused; otherwise as `Ending` says; never with closed input |
| LineEdit.Browsing | clir.c:566-586 | a history step keeps the state ready, the number of entries and the word start |
| LineEdit.Next | clir.c:672-830 | every key keeps the state ready and the number of entries; only the history keys change the entries or the index; only a typed space changes the word start |
| LineEdit.FirstKeyEnds | clir.c:661-707 | when the first key ends the session, the run is that one key and ends as it says |
| LineEdit.EnterSubmits | clir.c:689-692 | Enter as the only input submits the line the run started with |
| LineEdit.TypedByteThenEnterSubmits | clir.c:689-830 | a byte with no binding, then Enter, at an empty line with room and a terminal that takes the echo, submits the line holding that byte |
| LineEdit.RecordStep | clir.c:661-830 | one more key extends the record of a run that no key has ended yet, and the last key's ending is the end of the run |
| LineEdit.MovesExtend | clir.c:661-830 | a key that moves the state as `Next` says extends the record of moves |
| LineEdit.UnendedExtend | clir.c:661-830 | adding a key keeps the earlier keys unended |
| LineEdit.TraceClosed | clir.c:666-667 | a run that read the whole input with no ending is a trace ending with closed input |
| LineEdit.TraceEnded | clir.c:689-828 | a run that only its last key ended is a trace ending as that key says |
| Findings.FullInsertWritesPastBuffer | clir.c:520-544 | with the capacity at the caller's buffer size, as written, an insert into N-1 bytes is accepted and the text grows to N bytes, so the terminator goes to index N, one past the buffer; with the capacity one less, the insert is refused |
| Findings.SuffixAsWrittenAtLineStart | clir.c:264-276 | copying from the cursor is correct when the word starts the line |
| Findings.SuffixAfterSpaceSkipsBytes | clir.c:264-276 | "x he" with ["hello"] becomes "x heo " as written, "x hello " as intended |
| Findings.ShortCandidateAccepted | clir.c:258-264 | as written "he" is the unique match of "hel" and its copy starts past its end; as intended there is no match |
| Findings.WordLeftAsWrittenReadsBeforeBuffer | clir.c:773-782 | as written Ctrl-Left lands where the corrected jump lands but reads index -1 exactly when it reaches the line start |
| Findings.WordLeftReadsBeforeBufferExample | clir.c:773-782 | "ab" with the cursor at 2 reads index -1 |

## Left out

- Raw mode, the check for unsupported terminals, the `atexit` cleanup, and the
  fallbacks that read with `fgets` (`clirRaw`, `clir`, `enableRawMode`,
  `disableRawMode`, `isUnsupportedTerm`): terminal and process plumbing, not
  part of the editing.
- `getColumns`: the terminal width is a parameter of the session.
- I/O:
  - `read`, `write` and the file streams: the input is a byte sequence, the
    terminal a list of commands, and a history file its content (or None
    when it cannot be opened).
  - A short read inside an escape sequence abandons the key: the model
    takes the sequence's bytes from the remaining input.
  - A write is accepted or refused as a whole; partial writes are not
    modelled.
  - `errno = EAGAIN` on Ctrl-C is not modelled.
- `clirBeep` and the `printf` listing of several completions: output to
  stderr and stdout. The model records only the outcome `Listed`.
- `completeLine`: it is never called (its call at clir.c:674 is commented
  out).
- `LN_DEBUG` logging in `refreshMultiLine`: a debugging aid.
- `malloc`/`strdup` failures, `freeHistory`, the `history == NULL` case of
  `clirHistorySetMaxLen` and the `history_max_len == 0` test of
  `clirHistoryAdd`: the store is a sequence, and its bound is always at least 1.
- `clirAddCompletion`, `freeCompletions` and the callback registration: the
  candidates are the value a function of the line returns.
- `clirSetMultiLine`: the mode is a parameter of the session.
- LineEdit.Session.Step: for a unique completion, it states only that the
  output grows and that the count of accepted writes does not grow. The
  echoes and redraws of the bytes typed are those of `Type`, one per byte.
- Render.RefreshSingleLine: requires a prompt shorter than the row. With a
  longer prompt the C's scrolling loop decrements `len` and `pos` below
  zero, so the model does not cover it.
- History.Store: a sequence that is reassigned. The C's array of pointers,
  its `memmove` on eviction and its copy on resize are not modelled as
  aliasing.
- Words.PrevWordStart: Ctrl-W treats only ' ' as a blank, while the word
  jumps use `isspace`; both are modelled as written.
- The escape branch tests `read(...) == -1` only, so a read that returns 0
  goes on with bytes from an earlier key. The model ends the key at the end
  of the input instead.
- History.Lines: `clirHistoryLoad` truncates a line at its first CR, or
  failing that its first LF, wherever it is. It does not strip only a
  trailing CR before the LF. The model follows the code.
- History.Store.Load: a file that cannot be opened returns -1, although the
  comment above the function says 0. The model follows the code. Save and
  Load take whether the file could be opened as a parameter.
- LineEdit.Edit: Enter and EOF drop the newest history entry even when the
  initial `clirHistoryAdd("")` stored nothing, because the newest entry was
  already empty. Then a real entry is lost when the store was full. This is
  modelled as written.
- Ctrl-Right reads `buf[pos]` before testing `pos < len` (clir.c:766, 769).
  That byte is the terminator, so this is harmless and is modelled as the
  scan it computes.

## Findings

| source | as written | input that shows it | evidently intended | confidence | as-written member | corrected member |
|---|---|---|---|---|---|---|
| clir.c:642-654, 521-539 | `cs.buflen` keeps the caller's size N (only the local `buflen` is decremented), so an insert is accepted at len = N-1 and writes the terminator at `buf[N]` | a buffer of size N holding N-1 bytes, then any key | at most N-1 bytes, so that the terminator stays inside the buffer | not executed | Findings.FullInsertWritesPastBuffer | LineEdit.Session.Insert |
| clir.c:264, 272 | the unique candidate is copied from index `cs->pos`, the cursor, not from the typed word's length `pos - word_pos` | "x he", word start 2, cursor 4, candidates ["hello"] gives "x heo " | "x hello " | not executed | Findings.SuffixAfterSpaceSkipsBytes | Editing.UniqueCompletionWritesWord |
| clir.c:258, 272 | the comparison stops at the candidate's NUL, so a candidate shorter than the typed word counts as a match and the copy reads past its end | "hel" with candidates ["he"] | a candidate matches only when it begins with the typed word; here there is no match | not executed | Findings.ShortCandidateAccepted | Completion.Filter |
| clir.c:778 | Ctrl-Left tests `buf[pos-1]` before `pos > 0`, so it reads `buf[-1]` when it reaches the line start | "ab" with the cursor at 2, then ESC [ 1 ; 5 D | test `pos > 0` first | not executed | Findings.WordLeftAsWrittenReadsBeforeBuffer | LineEdit.Session.WordLeft |
