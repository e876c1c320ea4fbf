# textsplitter: a verified model of the chunker and its terminal UI

textsplitter cuts a long text into pieces that fit a size limit, so that
each piece can be pasted into a consumer that only accepts short input. The
work is done by `splitText(text, maxSize)`. A text of at most `maxSize` bytes
comes back whole. A longer text is cut repeatedly. Each cut looks at the
window made of the first `maxSize` bytes of what is left. It goes after the
last sentence end (`.`, `!`, `?`) if that lies above `maxSize/2`. Otherwise
it goes after the last paragraph break `"\n\n"` above `maxSize/3`, then the
last newline above `maxSize/3`, then the last space above `maxSize/2`.
Failing all four, it is a hard cut at `maxSize`. Both the piece and the rest
are whitespace-trimmed after every cut. The same function appears twice in
the repository, in `main.go` and in `tui.go`, character for character; it
is modelled once.

The interactive front end (`tui.go`) keeps a small state: the input text,
the chunks of the last split, the chunk size, the view shown (0 = input,
1 = chunks) and the window size. `model.Update` maps one message (a resize
or a key) to a new state and an optional quit command. Typed or pasted text
is accepted only when `isPrintableText` says so.

Files:

- `gostrings.dfy` (module `GoStrings`): Go strings as byte sequences, plus
  the parts of Go's `strings` package the chunker calls. These are
  `TrimSpace`, `LastIndex` and `LastIndexAny`, each specified by what it
  returns.
- `chunker.dfy` (module `Chunker`): the break-point choice `BreakPoint`,
  and `FollowsPolicy`, a statement of the same priority rules that does not
  search. The loop is `SplitText`, proved equal to the function `Split`.
  The file also holds the properties of `Split`.
- `tui.dfy` (module `Tui`): the UI state `Model` (tui.go:75-82), `isPrintableText` (both
  as a loop and as a predicate), the chunk estimate of the input view, and
  `Update` as a function from state and message to state and command. It
  also holds the invariant `Inv` and one lemma for each key the switch
  names.

Text is a sequence of `Byte`, a `char` below 256. One element stands for
one byte of a Go string, so lengths and offsets are byte offsets, as in Go.

Three behaviours of `splitText` at its edges:

- A text of at most `maxSize` bytes is returned as `[text]`, untrimmed, so
  `""` gives `[""]` and not the empty list.
- The short-text test compares the untrimmed length, not the trimmed one.
- Nothing guards against `maxSize <= 0`. At `0`, `""` gives `[""]`, and a
  text that is all whitespace gives `[""]` after one turn, because trimming
  empties `remaining`. Any other text loops forever, appending `""`
  with a break point of 0. At a negative size, `""` gives the empty list,
  and any other text panics when `remaining[:breakPoint]` is sliced
  (main.go:91). The model requires `maxSize >= 1`.

The callers differ in how they meet that requirement. The TUI takes a size
from its command line only when it is positive (tui.go:372), and `Update`
keeps it positive. The line-mode front end passes its `-size` flag
(main.go:19) to `splitText` unchecked (main.go:58), so `-size 0` or a
negative size reaches the unguarded cases above.

## Model

| member | source | states |
|---|---|---|
| GoStrings.TrimSpace | main.go:108-109 | the result has no leading or trailing whitespace and is no longer than the input |
| GoStrings.TrimSpaceParts | main.go:108-109 | the input is whitespace, then the trimmed result, then whitespace: trimming removes whitespace from both ends only |
| GoStrings.TrimSpaceEmpty | main.go:108-109 | a string trims to empty exactly when it is all whitespace |
| GoStrings.TrimSpaceFixpoint | main.go:108-109 | TrimSpace leaves a string unchanged exactly when it is already trimmed, so trimming twice is trimming once |
| GoStrings.LastIndex | main.go:96-102 | `strings.LastIndex`: -1 when the substring does not occur, else the offset of an occurrence with none starting later |
| GoStrings.LastIndexAny | main.go:94 | `strings.LastIndexAny`: -1 or an offset holding one of the given bytes, with no such byte after it |
| GoStrings.RemoveSpaceAppend | main.go:108-109 | deleting whitespace distributes over concatenation |
| GoStrings.RemoveSpaceTrim | main.go:108-109 | TrimSpace deletes only whitespace: the non-whitespace bytes are the same before and after |
| Chunker.LastMarkAbove | main.go:94 | the sentence search succeeds above the threshold exactly when some `.`/`!`/`?` lies above it, and then finds the last one |
| Chunker.LastOccurrenceAbove | main.go:96-102 | the same for the paragraph, newline and space searches |
| Chunker.BreakPoint | main.go:90-106 | every break point lies in `1..maxSize`, so each cut consumes at least one byte and emits at most `maxSize` |
| Chunker.BreakPointFollowsPolicy | main.go:90-106 | the break point obeys the priority policy: sentence end above maxSize/2, then paragraph above maxSize/3, then newline above maxSize/3, then space above maxSize/2, each just after the last such break, else a hard cut at maxSize |
| Chunker.LaterBreakFollowsPolicy | main.go:96-106 | the policy holds when no sentence end qualifies |
| Chunker.LineOrWordFollowsPolicy | main.go:99-106 | the policy holds when neither a sentence end nor a paragraph break qualifies |
| Chunker.WordFollowsPolicy | main.go:102-106 | the policy holds when only the space search or the hard cut remains |
| Chunker.PolicyDeterminesBreakPoint | main.go:90-106 | the policy admits at most one break point, so the choice is deterministic |
| Chunker.Pieces | main.go:83-110 | the loop terminates (on the decreasing length of `remaining`), emits at least one chunk for non-empty `remaining`, and every chunk has at most `maxSize` bytes |
| Chunker.Split | main.go:75-113 | the result is never empty, every chunk has at most `maxSize` bytes, and a text of at most `maxSize` bytes yields exactly `[text]`, untrimmed, so `""` yields `[""]` |
| Chunker.SplitText | main.go:75-113 | the loop that appends to `chunks` and reassigns `remaining` returns exactly `Split(text, maxSize)` |
| Chunker.SplitFirstChunk | main.go:90-108 | the first chunk of a long text is its prefix, trimmed, up to the one break point the policy allows in the first window |
| Chunker.PiecesTrimmed | main.go:84-85 | from a trimmed or long `remaining`, every chunk the loop emits is trimmed |
| Chunker.SplitTrimmed | main.go:84-85 | for a text longer than `maxSize`, every chunk `c` satisfies `TrimSpace(c) == c` |
| Chunker.PiecesNonEmpty | main.go:83-110 | from a trimmed `remaining`, the loop never emits an empty chunk |
| Chunker.SplitNonEmptyChunks | main.go:51-58 | a non-empty trimmed text, as the line-mode front end passes it, yields no empty chunk |
| Chunker.EmptyFirstChunk | main.go:90-108 | an untrimmed text can yield an empty chunk: "   x" with size 2 gives `["", "x"]` |
| Chunker.CutKeepsContent | main.go:108-109 | one cut keeps the non-whitespace bytes: `remaining[:bp]` and `remaining[bp:]` join back to `remaining`, and trimming either removes whitespace only |
| Chunker.PiecesKeepContent | main.go:83-110 | the loop keeps every non-whitespace byte of `remaining`, in order |
| Chunker.SplitKeepsContent | main.go:75-113 | deleting all whitespace from the joined chunks gives the input with all whitespace deleted |
| Chunker.CutInterleave | main.go:108-109 | one cut: if the chunks of the trimmed rest, with whitespace gaps between them, make up that rest, then the trimmed piece followed by those chunks, with whitespace gaps, make up all of `remaining` |
| Chunker.PiecesInterleave | main.go:83-110 | the loop's chunks, in order, with only whitespace before, between and after them, make up `remaining` exactly |
| Chunker.SplitInterleave | main.go:75-113 | every chunk is a contiguous piece of the text, and the chunks in order cover the text with only whitespace around and between them: `text == gaps[0] + chunks[0] + gaps[1] + … + chunks[n-1] + gaps[n]` with every gap all whitespace |
| Chunker.SentenceBreak | main.go:94-95 | when a sentence end lies above maxSize/2, the cut follows the last sentence end in the window |
| Chunker.SentenceEndWins | main.go:94-95 | if the last `.`/`!`/`?` of the window is at `i > maxSize/2`, the first chunk is `TrimSpace(text[..i+1])`, whatever newlines or spaces follow |
| Chunker.HardCutFallback | main.go:90-106 | with no qualifying sentence end, newline or space, the first chunk is the trimmed first `maxSize` bytes |
| Chunker.NoBreakBytesHardCut | main.go:90-106 | a window with no whitespace and no sentence end is always cut hard at `maxSize` |
| Chunker.HardCutStep | main.go:90-109 | on such text one turn emits exactly `maxSize` untrimmed bytes and continues on the rest |
| Chunker.PiecesHardCutsOnly | main.go:83-110 | a text without break bytes is cut into pieces of exactly `maxSize` bytes and one last non-empty piece of at most `maxSize` bytes that join back to the text |
| Chunker.SplitHardCutsOnly | main.go:75-113 | the same for `Split`, for any non-empty text without break bytes |
| Tui.IsPrintableText | tui.go:178-192 | the rune loop with early return accepts exactly the texts for which `Printable` holds |
| Tui.PrintableRejects | tui.go:178-192 | a text is rejected exactly when it is empty or holds a control byte (below 32 other than tab, newline, carriage return, or 127) |
| Tui.EstimatedChunks | tui.go:243-245 | the estimate is non-negative and zero exactly for empty input |
| Tui.EstimateIsCeiling | tui.go:244 | the estimate is the input length divided by the chunk size, rounded up |
| Tui.EstimateStep | tui.go:244 | `chunkSize` more bytes raise the estimate by exactly one |
| Tui.EstimateOne | tui.go:244 | one to `chunkSize` bytes are estimated as one chunk |
| Tui.EstimateCountsFullPieces | tui.go:244 | for pieces of exactly `chunkSize` bytes and a last non-empty piece of at most `chunkSize`, the estimate for their joined length is their number |
| Tui.SplitCountIsEstimate | tui.go:244 | for a non-empty text without whitespace and sentence ends the estimate equals the number of chunks `Split` returns |
| Tui.Start | tui.go:389-399 | the initial state satisfies the invariant; piped-in text is split at once and the chunk view shown |
| Tui.Action | tui.go:96-98 | the switch over key names: exactly "ctrl+c" and "q" quit |
| Tui.ActionDefault | tui.go:96-153 | exactly the names that no case lists fall to the default case that treats the name as text |
| Tui.Update | tui.go:88-175 | chunk size stays positive and the invariant (chunk size ≥ 1, view in {0,1}, view 1 only with chunks) is kept; only quit keys quit, with the state unchanged; a resize changes only width and height; other messages change nothing |
| Tui.UpdateKey | tui.go:95-171 | a key never changes the window size, keeps the chunk size positive and keeps the invariant |
| Tui.UpdateChangesOnly | tui.go:88-175 | only up and down change the size, by ±500; chunks change only to [] or to the split of the unchanged input; the input changes only by reset, by dropping its last byte, or by appending printable key text in view 0 |
| Tui.Tab | tui.go:100-105 | only the view changes; under the invariant the chunk view is entered iff the input view was shown with chunks |
| Tui.Enter | tui.go:107-114 | in view 0 the chunks become the split of the input and view 1 is shown; otherwise nothing changes |
| Tui.Up | tui.go:116-122 | the size grows by 500 only below 8000, the chunks are recomputed only for non-empty input, and nothing else changes |
| Tui.Down | tui.go:124-130 | the size shrinks by 500 only above 500, so it stays positive; the chunks are recomputed only for non-empty input; nothing else changes |
| Tui.DropLast | tui.go:143-151 | only the input changes, losing its last byte in view 0 when it is non-empty |
| Tui.TypeText | tui.go:153-170 | only the input changes, gaining the key text in view 0 for a key type other than ctrl+c, ctrl+d and esc when the text is printable |
| Tui.WithChunkSize | tui.go:117-130 | a new chunk size re-splits the input only when the input is non-empty, changing nothing else |
| Tui.TabSwitchesView | tui.go:100-105 | tab shows the chunk view iff it was in the input view with chunks, always returns from the chunk view, and changes nothing but the view |
| Tui.EnterSplits | tui.go:107-114 | enter in view 0 stores `Split(inputText, chunkSize)` and always moves to view 1, since a split is never empty; in view 1 it changes nothing |
| Tui.UpRaisesSize | tui.go:116-122 | up adds 500 only below 8000 and re-splits only non-empty input |
| Tui.DownLowersSize | tui.go:124-130 | down subtracts 500 only above 500 and re-splits only non-empty input |
| Tui.SizeStaysInRange | tui.go:116-130 | a chunk size in 1..8499 stays there for every message |
| Tui.PasteChangesNothing | tui.go:138-141 | ctrl+v changes nothing and does not quit; pasted text arrives as typed keys |
| Tui.QuitKeepsState | tui.go:97-98 | "ctrl+c" and "q" leave the state unchanged and return the quit command |
| Tui.ResetClears | tui.go:132-136 | r empties input and chunks and returns to view 0, keeping chunk size, width and height |
| Tui.DeleteDropsLastByte | tui.go:143-151 | backspace and delete drop exactly the last byte in view 0 with input, and otherwise change nothing |
| Tui.TypingAppends | tui.go:153-170 | other key text is appended exactly in view 0, for key types other than ctrl+c, ctrl+d and esc, when it is printable |
| Tui.InputStaysPrintable | tui.go:153-170 | input made of printable bytes stays so under every message |
| Tui.StaleChunksAfterTab | tui.go:100-105 | the chunk view can show chunks of an older input: split, tab back, type, tab again |

## Left out

- Unicode: `strings.TrimSpace` also removes non-ASCII Unicode whitespace. The model trims only the ASCII set (tab, newline, vertical tab, form feed, carriage return, space).
- Tui.Printable: `isPrintableText` ranges over UTF-8-decoded runes. The model checks bytes instead. The two accept the same texts, because an ASCII byte always decodes to itself and a byte of 128 or more is part of a rune of 128 or more, or of an invalid sequence, which decodes to U+FFFD. UTF-8 decoding itself is not modelled.
- Byte-offset cuts can split a multi-byte character. The model works on bytes as the code does, but says nothing about characters.
- `maxSize <= 0`: the infinite loop at 0 and the slice panic for negative sizes are excluded by the precondition `maxSize >= 1`. The line-mode front end can reach them with `-size 0` or a negative size.
- EstimatedChunks: Go computes `len(inputText) + chunkSize - 1` in 64-bit `int` (tui.go:244). The model uses unbounded integers. For a command-line chunk size near the largest `int`, the Go sum wraps around and the view shows a negative estimate, for example -1 for 2 bytes of input and a size of 9223372036854775807. `ensures r >= 0` and the estimate lemmas (EstimateIsCeiling, EstimateStep, EstimateOne, EstimateCountsFullPieces, SplitCountIsEstimate) hold only while that sum stays below 2^63.
- The line-mode `main()` in main.go: flag parsing, reading input with a scanner, and printing headers are I/O. Only the fact that it trims its input before splitting (main.go:51) is used, by SplitNonEmptyChunks.
- The TUI's `main()` (stdin detection, program start-up) is I/O. Only the initial state it builds is modelled, as Start.
- `View` and the render functions, and all lipgloss styles, are UI layout done by a library that is not part of this model.
- The terminal library's message and key types are replaced by the datatypes `Msg` and `KeyType`. A key carries its name as the library spells it. The `tea.Quit` command is a `Cmd` value.
- cmd/textsplitter/main.go (HTTP server, embedded files, port probing, browser launch) is network, process and concurrency code, and is not part of this model.
