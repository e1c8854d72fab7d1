# Open-post editing and inline post formatting, in Dafny

This project models two parts of an imageboard.

**The server's live open-post protocol** (`server/websockets/postUpdates.go`).
A client connection holds at most one open post. The open post has:

- the unterminated current line as raw bytes;
- a running body length;
- the post's id, thread (`op`) and board.

Each handler validates its request, mutates the connection's open post and
writes to the thread document. A write always does two things together: one
structural change to a post, and one message appended to the document's
replication log.

The handlers are:

- append a character;
- backspace;
- splice (replace part of) the current line;
- finalise a line, which goes on to write a hash command or links and backlinks;
- close the post.

`Client` is a class whose fields are the open post. Every handler is a method
whose `ensures` states the new open post and the new documents for every
branch of the source, error paths included. `Store` is a class holding the
thread documents. Its writes can fail non-deterministically, and a failed
write changes nothing.

**The client's inline formatting tokenizer** (`client_cpp/src/posts/models.hh`).
The tokenizer splits a line fragment on separators, outermost pass first:

- double backquote: code;
- `**`: spoiler;
- `__`: bold;
- `~~`: italic.

Each match flips a flag of the text state. The spoiler, bold and italic
matches also open or close `<del>`, `<b>` and `<i>` elements on the text
state's stack of parents. `TextState` and `Post` are classes. Each `Parse…`
method replays the scanner's callbacks against its handlers and is proved equal
to a pure run (`Italics`, `Bolds`, `Spoilers`, `Code`). These properties are
proved:

- the parts between separators glue back into the fragment;
- there is one match per occurrence of the separator;
- each pass flips only its own flag, once per separator;
- the open tags always sit on the stack in spoiler, bold, italic order.

The file-extension table is a total function on the file-type enumeration.

Where the server's documented behaviour and its code differ, the model follows
the code:

- `appendRune` and `backspace` move the body length by one per character,
  not by the character's encoded size.
- `parseLine` adds one to the body length before it calls the parser, whether
  or not a newline is inserted and whether or not parsing succeeds. A failed
  close therefore leaves the post open with a body length one higher.
- Once the parser has succeeded, the deferred reset empties the line on every
  path, including a failed newline, command or link write.
- `writeLinks` stops at the first failed backlink write. Earlier backlinks
  stay written.
- The splice, command, link and backlink messages carry no id of the post
  they change.

These behaviours of the code as written are stated and proved:

- The coordinate check adds `Start + Len` in Go's 64-bit `int`. A sum that
  wraps around passes the check, and slicing at the true offsets then panics
  (`WrappedCoordinatesPanic`).
- After enough failed closes the body length exceeds the limit by more than
  the line holds. The overflow truncation then cuts at a negative index and
  panics (`InflatedBodyLengthPanics`).
- The database fold that rebuilds the body after a splice skips separators
  while its accumulator is empty. It therefore drops the body's leading empty
  lines (`RewriteDropsLeadingNewline`). For every body that does not start
  with a newline, it replaces exactly the last line (`RewriteReplacesLastLine`).

A Go runtime panic is modelled as the error outcome `SliceOutOfRange`, and the
open post is left as it was at the moment of the panic.

## Model

| member | source | states |
|---|---|---|
| GoTypes.Wrap64 | server/websockets/postUpdates.go:280 | Go's 64-bit `int` sum: equal to the exact sum when it fits, otherwise congruent to it modulo 2^64 |
| Utf8.EncodeRune | server/websockets/postUpdates.go:58-64 | encoding of one character appended to the line and the body: ASCII is one byte, the length follows the code-point range, and invalid runes become U+FFFD |
| Utf8.DecodeRuneSize | server/websockets/postUpdates.go:227 | size of the first rune as UTF-8 decoding reports it: 0 only for empty input, never more than the input or 4 |
| Utf8.ScanBack | server/websockets/postUpdates.go:227 | the backward scan of `DecodeLastRune` stays inside the input and never below its lower limit minus one |
| Utf8.LastRuneSize | server/websockets/postUpdates.go:227-228 | size of the last rune that backspace cuts off: 0 only for an empty line, at most 4 bytes and never more than the line |
| Utf8.DecodeEncoded | server/websockets/postUpdates.go:227 | decoding accepts every encoding the append path produces, as one rune |
| Utf8.ScanBackFinds | server/websockets/postUpdates.go:227 | the backward scan stops at the nearest rune-start byte within its limit |
| Utf8.LastRuneOfWholeRune | server/websockets/postUpdates.go:227 | when a line ends with one whole well-formed rune, the last-rune size is that rune's length, whatever precedes it |
| Utf8.LastRuneOfEncoding | server/websockets/postUpdates.go:227-228 | after any bytes followed by an appended character, the last rune is exactly that character's bytes |
| Utf8.DropLastRune | server/websockets/postUpdates.go:227-228 | truncating by the last rune's size removes exactly the last appended character |
| Documents.Apply | server/websockets/postUpdates.go:58-328 | each update term changes only its own field of the post. Appending text (58-59, 123-129) extends the body by the text's length, keeping it as a prefix. Dropping a character (233) shrinks the body to a prefix by one to four bytes unless it was empty. The splice rewrite (312-328) leaves a body ending with the new line. A command (151-157) makes the list the old one (empty if absent) plus the command. New links and backlinks (168-170, 202-209) are present with their new values, and every old key outside the update keeps its value. Closing (256-258) sets `editing` to false |
| Documents.SplitLinesCount | server/websockets/postUpdates.go:313-314 | the split of the body at newlines (`SplitLines`) has one line more than the body has newlines |
| Documents.FoldEndsWithLast | server/websockets/postUpdates.go:319-326 | the fold (`FoldLines`) only extends its accumulator, and its result ends with the last line folded in |
| Documents.RewriteLastLine | server/websockets/postUpdates.go:312-328 | the rewritten body ends with the new line, and a body without a newline is replaced by the new line whole |
| Documents.Commit | server/websockets/postUpdates.go:88-100 | a write to a document updates only the addressed post and keeps the set of posts |
| Documents.CommitTo | server/websockets/postUpdates.go:79-85 | a write to thread `op` keeps the set of threads and of posts in each |
| Documents.CommitWherePost | server/websockets/postUpdates.go:210-215 | the write by post id reaches every document holding the post and changes no set of posts |
| Documents.BacklinkTo | server/websockets/postUpdates.go:191-216 | one backlink write keeps every document's set of posts |
| Documents.Backlinks | server/websockets/postUpdates.go:177-184 | a sequence of backlink writes keeps every document's set of posts |
| Documents.CommitAppendsOneMessage | server/websockets/postUpdates.go:88-100 | a write appends exactly its message to the addressed document's log, applies its update to the post, and leaves other threads alone |
| Documents.CommandsKeepArrivalOrder | server/websockets/postUpdates.go:151-157 | appending a command keeps earlier commands in order; a post without a command list gets a list of one |
| Documents.CommandsInSequence | server/websockets/postUpdates.go:146-159 | commands written one after another appear in arrival order after the existing ones |
| Documents.DropUndoesAppend | server/websockets/postUpdates.go:232-234 | in the stored body, dropping the last character undoes appending one |
| Documents.JoinSplitLines | server/websockets/postUpdates.go:313-314 | splitting the body at newlines and joining back gives the body |
| Documents.SplitLinesHaveNoNewline | server/websockets/postUpdates.go:313-314 | no line of the split holds a newline |
| Documents.FoldIsJoin | server/websockets/postUpdates.go:319-326 | once the fold's accumulator is non-empty, the fold joins the lines with newlines |
| Documents.JoinReplaceLast | server/websockets/postUpdates.go:316-318 | replacing the last line of a list replaces only the tail of its join |
| Documents.RewriteReplacesLastLine | server/websockets/postUpdates.go:311-328 | for a body not starting with a newline, the splice rewrite keeps everything before the last line and replaces the last line |
| Documents.RewriteDropsLeadingNewline | server/websockets/postUpdates.go:319-326 | the fold drops a leading empty line: body "\na" with its last line replaced by "b" becomes "b" |
| Documents.BacklinksPresent | server/websockets/postUpdates.go:177-184 | after the backlink writes, every linked post, in every document holding it, has a backlink from the source with the source's thread and board |
| Documents.BacklinksLog | server/websockets/postUpdates.go:210-215 | each document's log grows by one backlink message per destination it holds, and by nothing else |
| Documents.BacklinkOnlyTouchesBacklinks | server/websockets/postUpdates.go:202-213 | a backlink write changes only the destination's backlinks, only at the source's key |
| Documents.Store.UpdatePost | server/websockets/postUpdates.go:79-85 | a write either commits the update and its message to an existing post, or fails and changes nothing |
| Documents.Store.UpdateWherePost | server/websockets/postUpdates.go:210-215 | a write by post id either updates every document holding the post, or fails and changes nothing |
| PostUpdates.CheckSplice | server/websockets/postUpdates.go:277-289 | the checks in source order, one if-and-only-if per error. Bad coordinates (negative, or a wrapped end past the line) come first. A no-op comes next, only when the coordinates are valid. Then a text over the limit, then a newline in the text, each only when the earlier checks pass; otherwise the request is accepted. An accepted request whose end does not wrap addresses bytes inside the line |
| PostUpdates.SpliceBoundaryRejected | server/websockets/postUpdates.go:280-281 | on a 6-byte line, start 5 with length 3 is refused as bad coordinates even with empty text, and start 5 with length 1 is accepted |
| PostUpdates.SpliceNoopRejected | server/websockets/postUpdates.go:282-283 | valid coordinates with length 0 and no text are refused as a no-op |
| PostUpdates.ValidatedSpliceSucceeds | server/websockets/postUpdates.go:277-301 | a validated request whose end does not wrap, on a body length at most a line over the limit, is spliced without a panic |
| PostUpdates.SplicedLine | server/websockets/postUpdates.go:291 | the new line keeps the bytes before `start` and after the replaced range in place, with the text between them; its length moves by the text's length minus `len` |
| PostUpdates.SpliceStep | server/websockets/postUpdates.go:291-301 | the splice panics exactly when the true end offset or the over-length cut falls outside the line; otherwise the body length ends at most at the limit, moves with the line's length, and the new line is a prefix of the full splice; an untruncated splice echoes the request; a truncated one sets the body length to the limit and echoes `len = -1` with the kept line |
| PostUpdates.SpliceTruncatesAtLimit | server/websockets/postUpdates.go:294-301 | with the body two below the limit, a 5-byte splice is cut to reach exactly the limit and echoed with `len = -1` and the truncated line |
| PostUpdates.WrappedCoordinatesPanic | server/websockets/postUpdates.go:280-291 | coordinates whose sum wraps around 64 bits pass the validation and then panic at slicing |
| PostUpdates.InflatedBodyLengthPanics | server/websockets/postUpdates.go:292-297 | a body length more than a line over the limit makes the truncation panic |
| PostUpdates.BackspaceUndoesAppend | server/websockets/postUpdates.go:227-229 | backspace after appending a character restores the open post exactly |
| PostUpdates.Client.HasPost | server/websockets/postUpdates.go:268-270 | a connection with a post open is never in the zero-value state that closing leaves behind |
| PostUpdates.Client.UpdatePost | server/websockets/postUpdates.go:79-85 | a write to the open post's thread commits exactly one update and message, or fails without change |
| PostUpdates.Client.AppendRune | server/websockets/postUpdates.go:36-68 | no post, a full body or a bad message each fail with no change; a newline finalises the line; any other character is written, and only after the write succeeds is it added to the line with the body length up by one; the body length stays within the limit |
| PostUpdates.Client.ParseLine | server/websockets/postUpdates.go:106-143 | the body length grows by one first; a parser error keeps the line; otherwise the line is emptied, the newline is written when requested, and then the command (which wins) or the links are written |
| PostUpdates.Client.WriteCommand | server/websockets/postUpdates.go:146-160 | the command is appended to the post's commands with a command message, or the write fails without change |
| PostUpdates.Client.WriteLinks | server/websockets/postUpdates.go:163-187 | a failed link write writes no backlinks; otherwise each destination gets its backlink once, in some order, stopping at the first failure; success means every destination was written |
| PostUpdates.Client.Backspace | server/websockets/postUpdates.go:219-240 | no post or an empty line fails with no change; otherwise the last rune is cut off the line and the body length drops by one before the write, which drops the body's last character or fails |
| PostUpdates.Client.ClosePost | server/websockets/postUpdates.go:243-264 | a non-empty line is finalised without a newline, and its failure keeps the post open; otherwise `editing` is cleared with a close message and the connection is reset to no open post, even if that write fails |
| PostUpdates.Client.SpliceLine | server/websockets/postUpdates.go:268-331 | the validation errors in the source's order leave everything unchanged; a valid splice either panics or sets the line and body length from `SpliceStep` and writes the rewritten last line with the echoed request |
| PostUpdates.Client.ApplySplice | server/websockets/postUpdates.go:291-301 | after validation: a panic exactly when `SpliceStep` panics, leaving the line and the store alone; otherwise the line and body length become `SpliceStep`'s and the rewritten last line is written with the echoed request |
| PostUpdates.Client.WriteLine | server/websockets/postUpdates.go:303-330 | the line buffer becomes the new line, and the body's last line is replaced in one write with the splice message, or the write fails without change |
| PostUpdates.WriteBacklink | server/websockets/postUpdates.go:191-216 | a successful write records the source's backlink in every document holding the destination; a failure changes nothing |
| PostUpdates.PickDestination | server/websockets/postUpdates.go:177 | the next destination is any one not yet written |
| Models.Extension | client_cpp/src/posts/models.hh:35-44 | every file type but `no_file` has an extension, none of them empty or starting with a dot |
| Models.ExtensionsDistinct | client_cpp/src/posts/models.hh:36-44 | no two file types share an extension |
| Models.Find | client_cpp/src/posts/models.hh:216-217 | the search returns the first index where the separator occurs, or nothing when it occurs nowhere |
| Models.SplitFirstPart | client_cpp/src/posts/models.hh:215-225 | at least one part; exactly one when the separator does not occur; the first part is a prefix of the fragment |
| Models.Count | client_cpp/src/posts/models.hh:216-217 | the non-overlapping occurrences fit in the fragment: their number times the separator's length is at most the fragment's length |
| Models.SplitJoin | client_cpp/src/posts/models.hh:215-225 | the parts handed to the filler, glued with the separator, give back the fragment |
| Models.SplitCount | client_cpp/src/posts/models.hh:215-225 | the filler runs exactly once more than the number of separator occurrences |
| Models.SplitPiecesFree | client_cpp/src/posts/models.hh:216-218 | no part handed to the filler contains the separator |
| Models.InterleaveNoMatch | client_cpp/src/posts/models.hh:221-223 | a fragment without the separator reaches the filler whole, as the only callback |
| Models.InterleaveFirstMatch | client_cpp/src/posts/models.hh:216-220 | at the first occurrence, the filler gets the text before it, the match handler runs once, and scanning resumes after the separator |
| Models.InterleaveMatches | client_cpp/src/posts/models.hh:215-225 | the callbacks hold one match fewer than there are parts |
| Models.InterleaveFills | client_cpp/src/posts/models.hh:215-225 | the filler receives exactly the parts, in order |
| Models.ScanCounts | client_cpp/src/posts/models.hh:212-226 | one match callback per separator occurrence; the filler receives the parts in order |
| Models.Unquoted | client_cpp/src/posts/models.hh:235-238 | the result is a suffix of the piece, everything cut off is `>`, and it does not start with `>` |
| Models.ReplayExtends | client_cpp/src/posts/models.hh:211-226 | when every callback only appends, replaying the scanner's callbacks keeps everything handed on before |
| Models.ItalicStep | client_cpp/src/posts/models.hh:313-321 | one italics callback only appends, a match hands nothing on, and no flag but `italic` changes |
| Models.Italics | client_cpp/src/posts/models.hh:311-322 | the italics pass only appends to what was handed on before and changes no flag but `italic` |
| Models.BoldStep | client_cpp/src/posts/models.hh:289-307 | one bolds callback only appends, a match hands nothing on, and `spoiler` and `code` are kept |
| Models.Bolds | client_cpp/src/posts/models.hh:287-308 | the bolds pass only appends and keeps `spoiler` and `code` |
| Models.SpoilerStep | client_cpp/src/posts/models.hh:259-283 | one spoilers callback only appends, a match hands nothing on, and `code` is kept |
| Models.Spoilers | client_cpp/src/posts/models.hh:257-284 | the spoilers pass only appends and keeps `code` |
| Models.CodeStep | client_cpp/src/posts/models.hh:231-253 | one code callback only appends and a match hands nothing on |
| Models.Code | client_cpp/src/posts/models.hh:229-254 | the code pass only appends to what was handed on before |
| Models.ItalicsFlags | client_cpp/src/posts/models.hh:311-322 | the italics pass flips `italic` once per `~~` and leaves the other flags alone |
| Models.ItalicsCoverFragment | client_cpp/src/posts/models.hh:311-313 | the italics pass hands on exactly the parts between `~~`, which glue back into the fragment |
| Models.BoldsFlags | client_cpp/src/posts/models.hh:287-308 | the bolds pass flips `bold` once per `__` and leaves `spoiler` and `code` alone |
| Models.SpoilersFlags | client_cpp/src/posts/models.hh:257-284 | the spoilers pass flips `spoiler` once per `**` and leaves `code` alone |
| Models.CodeFlags | client_cpp/src/posts/models.hh:229-254 | the code pass flips `code` once per double backquote |
| Models.TextState.constructor | client_cpp/src/posts/models.hh:112-119 | the member initialisers: all flags clear, counters zero and no parent; the root is installed only by `Reset` |
| Models.TextState.Reset | client_cpp/src/posts/models.hh:121-122 | back to initial values, with the root as the only parent |
| Models.TextState.Append | client_cpp/src/posts/models.hh:124-126 | with `descend` the node becomes the new lowermost parent; otherwise the parents are unchanged |
| Models.TextState.Ascend | client_cpp/src/posts/models.hh:128-130 | the lowermost parent is popped |
| Models.Post.constructor | client_cpp/src/posts/models.hh:121-122 | a post starts with nothing handed on and its text state reset to the root |
| Models.Post.Emit | client_cpp/src/posts/models.hh:313 | the caller's handler receives each piece with the flags in force, after the earlier pieces |
| Models.Post.ParseString | client_cpp/src/posts/models.hh:211-226 | the scanner's callbacks are filler and match alternating over the parts between separators |
| Models.Post.ToggleItalic | client_cpp/src/posts/models.hh:313-321 | `italic` flips and the `<i>` tag opens or closes on top of the stack, keeping the spoiler, bold, italic order |
| Models.Post.ToggleBold | client_cpp/src/posts/models.hh:291-307 | `bold` flips; an open italic is closed and reopened inside the new bold state; the stack keeps its order |
| Models.Post.ToggleSpoiler | client_cpp/src/posts/models.hh:261-283 | `spoiler` flips; open italic and bold are closed and reopened inside the new spoiler state; the stack keeps its order |
| Models.Post.ToggleCode | client_cpp/src/posts/models.hh:253 | only `code` flips; no tag is pushed |
| Models.Post.StripQuotes | client_cpp/src/posts/models.hh:235-238 | the loop removes exactly the leading `>` characters |
| Models.Post.ItalicEvent | client_cpp/src/posts/models.hh:313-321 | one callback of the italics pass: a match toggles italic, a piece is emitted with the flags in force; the stack stays well nested |
| Models.Post.BoldEvent | client_cpp/src/posts/models.hh:289-307 | one callback of the bolds pass: a match toggles bold, a piece goes through the italics pass; the stack stays well nested |
| Models.Post.SpoilerEvent | client_cpp/src/posts/models.hh:259-283 | one callback of the spoilers pass: a match toggles the spoiler, a piece goes through the bolds pass; the stack stays well nested |
| Models.Post.CodeEvent | client_cpp/src/posts/models.hh:231-253 | one callback of the code pass: a match toggles code; a piece inside code loses its leading quotes and is highlighted, any other goes through the spoilers pass |
| Models.Post.ParseItalics | client_cpp/src/posts/models.hh:311-322 | what is handed on and the final flags equal the italics pass; the tag stack stays well nested |
| Models.Post.ParseBolds | client_cpp/src/posts/models.hh:287-308 | what is handed on and the final flags equal the bolds pass; the tag stack stays well nested |
| Models.Post.ParseSpoilers | client_cpp/src/posts/models.hh:257-284 | what is handed on and the final flags equal the spoilers pass; the tag stack stays well nested |
| Models.Post.ParseCode | client_cpp/src/posts/models.hh:229-254 | what is handed on (code pieces without leading quotes go to the highlighter) and the final flags equal the code pass; the tag stack stays well nested |

## Left out

- Rebuilding a thread's posts by replaying its log is not modelled. The log's
  messages are interpreted by the client, which is not part of this model, and
  the splice, command and link messages carry no id of the post they change,
  so the log of a thread with two open posts does not say which post such a
  message applies to. What is proved instead is that each successful write
  appends exactly one message beside its update (`Documents.CommitAppendsOneMessage`).
- Documents.Apply: the stored body is modelled as raw bytes. The splice cuts
  (`old[:req.Start]` and the overflow trim) work on byte offsets and can split a
  multi-byte character; the database query carries the line as a JSON string,
  whose encoding replaces the invalid bytes with U+FFFD. `ReplaceLastLine`
  stores the bytes as cut, so after such a cut the modelled body differs from
  the stored one.
- Message encoding (`encodeMessage`) is treated as never failing, because it serialises plain values. Message decoding (`decodeMessage`) is a `Decoded` parameter of each handler.
- The line parser (`parser.ParseLine`) is a function parameter. It is not part of this model, and neither is `parser.MaxLengthBody`, whose value 2000 is taken as given.
- `hasPost` is defined outside this file and is taken to mean that the open post's id is non-zero. Opening a post is not part of this model.
- The RethinkDB queries are modelled by their effect on the thread documents. Several things follow from that:
  - a write to a missing thread or post fails;
  - the string `Slice(0, -1)` of backspace drops the body's last UTF-8 character;
  - the nested `posts` and `backlinks` objects of an update merge into the stored ones.
- The order in which Go ranges over a map is not specified, so `writeLinks` picks destinations in any order and records that order.
- Live broadcast of messages, concurrency between connections and the logger (`log/init.go`) are outside the model.
- PostUpdates.Client.AppendRune: the body length is unbounded. Go's 64-bit overflow of the body length cannot happen below the limit and is not modelled.
- The C++ filler `fn` is the caller's own handler. Here it records each piece with the flags in force (`Emit`).
- Syntax highlighting (`highlight_syntax`) is recorded as the piece it receives. Rendering of nodes, headers, images and links is not part of this model.
- The quote-span branch of the code pass is not modelled. Its counter `num_quotes` is never incremented, so the branch never appends a span.
- Models.TextState.Append: only the stack of parents is tracked, not the children appended into the DOM.
- `Image`, `Command`, `LinkData` and the `Post` fields other than the text state are data holders that no core operation updates. They are not modelled.
