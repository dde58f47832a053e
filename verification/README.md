# qompose core, modelled in Dafny

This project models the logic at the centre of qompose, a Qt text editor
with a small Rust terminal layer, and proves properties of that model. Each
component has its own module and file:

- **Terminal layer** (`src/term`). `Esc` (esc.dfy) builds the ECMA-48
  control sequences: ED, CUP, CUD, CUF, DSR 6 and DEC private mode 25, plus
  `apply_write`. `CursorReport` (cursor_report.dfy) is the reply parser of
  `get_cursor_position` over an input that may end early, and
  `get_terminal_size`. `RawMode` (raw_mode.dfy) is the termios transform of
  `RawModeHandle::new` and its restore on drop. `Decimal` (decimal.dfy) is
  the decimal rendering and Rust `usize` parsing they share.
- **UTF-8**. `Utf8Iterator` (utf8_iterator.dfy) is the validating decoder
  and the bidirectional iterator of src/core. `Utf8Strings`
  (utf8_string.dfy) is the BOM-skipping string. `Utf8StringRefs`
  (utf8_string_ref.dfy) is the byte-range view of cpp/src/core/string.
  `EncodingDetection` (encoding.dfy) is the BOM table and the structural
  UTF-8 check behind `detectTextCodec`.
- **Hotkeys**. `Popcount` (popcount.dfy) is the SWAR `opop`. `Hotkeys`
  (hotkey.dfy) and `QomposeHotkeys` (qompose_hotkey.dfy, the legacy copy)
  are modifier containment and scoring. `HotkeyMaps` (hotkey_map.dfy) is
  the best-match map with replace-on-duplicate. `EditorHotkeys`
  (editor_hotkeys.dfy) is the editor's hotkey table from the tests.
- **Containers and state**. `RecentMenus` (recent_menu.dfy) is the
  recent-file menu queue. Its rows cite
  src/QomposeCommon/gui/menus/RecentMenu.cpp. The queue logic is the same
  in cpp/src/QomposeCommon/gui/menus/RecentMenu.cpp and in the legacy
  src/QomposeCommon/gui/menus/QomposeRecentMenu.cpp: `addPath`,
  `setCapacity`, `setListContents`, `updateActionsListSize`,
  `renderListContents`, `doActionClicked` and `saveContents`. Where the
  copies take their starting capacity and list from differs (see Left
  out). `RecentLists`
  (recent_list.dfy) is the settings deque. `PaneModels` (pane_model.dfy)
  is the pane list with its closed history of 20. `PieceCursors`
  (piece_cursor.dfy) is the piece-table `Cursor` and `ReverseCursor`.
- **Text transforms and flags**. `DocumentWriters` (document_writer.dfy)
  trims trailing white space. It also covers the legacy
  src/util/QomposeDocumentWriter.cpp, whose `write` and `trimWhitespace`
  have the same logic. `Deserializers` (deserializer.dfy) and
  `StringLists` (string_list.dfy) read settings values. `Paths`
  (paths.dfy) finds the common parent path. `FindQueries` (find_query.dfy)
  holds the find flags. `IoPriority` (io_priority.dfy) packs Linux I/O
  priorities.
- **Editor algorithms**. `TextCursors` (text_cursor.dfy) models a
  `QTextCursor` over a document whose blocks are separated by `'\n'`. On
  top of it sit `EditorGeneral` (editor_general.dfy), `EditorIndentation`
  (editor_indentation.dfy), `EditorDeindentation`
  (editor_deindentation.dfy, with worked examples in
  deindent_examples.dfy) and `EditorMovement` (editor_movement.dfy).

Shared pieces are `Wrappers` (`Option`/`Result`) and `StdAlgorithm`
(`std::equal` over a range, as the string code uses it).
Bytes are `seq<bv8>` or a `Byte` subset of `nat`. Unsigned C++ and Rust
integers are `nat` bounded by the type's maximum where overflow matters.
Where the code and its comments disagree, the code is modelled, and the
commented contract is stated beside it (see "## Findings").

## Model

| member | source | states |
|---|---|---|
| Esc.EscapeSequence | src/term/esc.rs:18-20 | the result is ESC, '[' and then the parameter text byte for byte, two bytes longer than the text |
| Esc.DecodeEscapeSequence | src/term/esc.rs:18-20 | a control sequence built from parameter bytes and a final byte reads back as exactly those parameters and that final byte |
| Esc.EraseDisplay | src/term/esc.rs:28-34 | the result is one control sequence, ED with parameter 0, 1 or 2 for PositionToEnd, StartToPosition and All |
| Esc.EraseDisplayInjective | src/term/esc.rs:28-34 | two modes give the same bytes exactly when they are the same mode |
| Esc.HideCursor | src/term/esc.rs:36 | the result is the control sequence with parameters "?25" and final byte 'l' |
| Esc.ShowCursor | src/term/esc.rs:38 | the result is the control sequence with parameters "?25" and final byte 'h' |
| Esc.CursorPositionReport | src/term/esc.rs:40 | the result is four bytes, the control sequence with parameter "6" and final byte 'n' |
| Esc.MoveCursor | src/term/esc.rs:42-44 | the result is CUP with parameter text "line;column", a missing coordinate standing for 1 |
| Esc.MoveCursorHome | src/term/esc.rs:42-44 | both coordinates missing gives ESC [ 1 ; 1 H |
| Esc.MoveCursorExample | src/term/esc.rs:42-44 | line 5 and column 10 give ESC [ 5 ; 1 0 H |
| Esc.MoveCursorDown | src/term/esc.rs:46 | the result is CUD whose parameter is the count in decimal, unclamped |
| Esc.MoveCursorForward | src/term/esc.rs:48-50 | the result is CUF whose parameter is the count in decimal, unclamped |
| Esc.MoveCountRoundTrip | src/term/esc.rs:46-50 | the count of a CUD or CUF sequence parses back to the requested count for every usize |
| Esc.ApplyWrite | src/term/esc.rs:52-54 | on success exactly the sequence bytes are appended after what was already written; a write error is returned unchanged and is the only failure |
| Esc.Flush | src/term/esc.rs:58-61 | a flush keeps the written bytes and fails exactly when the writer's flush fails, with that error |
| Esc.ApplyWriteTwice | src/term/esc.rs:52-54 | writing two sequences one after the other leaves the same bytes as writing their concatenation |
| Decimal.Render | src/term/esc.rs:43 | the rendered numeral is a non-empty digit string without a leading zero whose decimal value is the number |
| Decimal.RenderUsizeLength | src/term/esc.rs:46 | a usize renders in at most 20 digits |
| Decimal.Accumulate | src/term/util.rs:61-63 | the digit loop succeeds exactly when every byte is a digit and the value never exceeds usize::MAX, and then returns that value |
| Decimal.ParseUsize | src/term/util.rs:61-63 | parsing fails with Empty exactly on empty input, and succeeds exactly on an optional '+' followed by a non-empty digit string whose value fits in a usize, returning that value |
| Decimal.ParseRender | src/term/util.rs:61-63 | parsing the rendered numeral of any usize gives the number back |
| CursorReport.LastSemicolon | src/term/util.rs:41-43 | the split index is 0 or the position of a ';' with no ';' after it |
| CursorReport.Scan | src/term/util.rs:31-50 | a completed read is at most 1025 bytes, copied from the input, ending in the first 'R', with the split at its last ';'; the only failures are a read error, end of input and the length cap |
| CursorReport.ScanErrors | src/term/util.rs:33-50 | end of input is reported exactly when the input runs out within 1024 bytes without an 'R' or an error; the length error exactly when the first 1025 bytes carry neither; a read error is the first one within the cap |
| CursorReport.ScanToTerminator | src/term/util.rs:33-50 | bytes up to and including the first 'R' within the cap are read as the reply whatever follows them |
| CursorReport.ParseReply | src/term/util.rs:52-63 | a reply is accepted only with a ';' seen, length at least 6, ESC and '[' in front and 'R' last, and then the line and column are the parses of the text before and after the split |
| CursorReport.GetCursorPosition | src/term/util.rs:24-65 | the query writes exactly ESC [ 6 n and flushes before reading; a write or flush error is returned unchanged, a read failure is returned as is, and coordinates fit in a usize |
| CursorReport.ParseFrame | src/term/util.rs:52-63 | ESC [ l ; c R with digit fields is accepted exactly when both fields parse, and then yields their values |
| CursorReport.ParseReport | src/term/util.rs:52-63 | a reply rendered from (line, column) parses back to (line, column) |
| CursorReport.ReportScan | src/term/util.rs:21 | a rendered reply is at most 44 bytes, so it never meets the length cap, and its only 'R' is the last byte |
| CursorReport.ReadTerminated | src/term/util.rs:33-50 | a reply ending in its first 'R' within the cap is read whole, whatever follows it |
| CursorReport.ReadReport | src/term/util.rs:33-50 | a rendered reply is read whole, whatever follows it |
| CursorReport.QueryParsesReply | src/term/util.rs:52-64 | once the reply was read, the query returns its parse |
| CursorReport.RoundTrip | src/term/util.rs:24-65 | a terminal answering ESC [ line ; column R makes the query return exactly (line, column), for every pair of usize values |
| CursorReport.RoundTripExample | src/term/util.rs:24-65 | ESC [ 2 4 ; 8 0 R answers (24, 80) |
| CursorReport.SemicolonNotNumber | src/term/util.rs:61-63 | a field holding a ';' does not parse |
| CursorReport.TwoSemicolonsRejected | src/term/util.rs:41-43 | a reply with two ';' inside is always rejected, because the split is at the last ';' and the line field then contains the other |
| CursorReport.GetTerminalSize | src/term/util.rs:68-77 | the size query writes CUD and CUF of i32::MAX and then the position query, and returns the position query's result unchanged; a write error stops it |
| RawMode.MakeRaw | src/term/mode.rs:28-43 | the raw record has BRKINT, ICRNL, INPCK, ISTRIP and IXON clear, OPOST clear, CS8 set and ECHO, ICANON, IEXTEN and ISIG clear, with every other flag bit as before; VMIN is 0, VTIME is 1 and every other control character is unchanged |
| RawMode.MakeRawIdempotent | src/term/mode.rs:28-43 | making an already raw record raw changes nothing |
| RawMode.CookedExample | src/term/mode.rs:28-43 | a typical cooked record becomes all-clear except CS8 |
| RawMode.Enter | src/term/mode.rs:24-48 | a failing read or apply of the attributes returns that error and no handle; otherwise the terminal holds the raw form and the handle holds the original attributes |
| RawMode.Exit | src/term/mode.rs:51-55 | dropping the handle reapplies the saved attributes, and panics exactly when that apply fails |
| RawMode.EnterExitRestores | src/term/mode.rs:24-55 | entering and then leaving raw mode restores every flag and control character exactly |
| Utf8Iterator.NumberOfLeadingZeros | src/core/Utf8Iterator.cpp:39-58 | the binary search returns the number of leading zero bits of x at the type's width (8 or 32), and the full width for 0 |
| Utf8Iterator.LeadingOnesTable | src/core/Utf8Iterator.cpp:87 | the leading-zero count of the complemented byte is its number of leading one bits, read off by byte range |
| Utf8Iterator.NlzByteLengthIsByteLength | src/core/Utf8Iterator.cpp:66-95 | the table lookup gives length 1 for 0xxxxxxx, 2 to 6 for 110xxxxx to 1111110x, and no length for 10xxxxxx, 0xFE and 0xFF |
| Utf8Iterator.MaskKeepsPayloadBits | src/core/Utf8Iterator.cpp:105-114 | the first-byte mask is 2^(7 - nlz) - 1, and masking keeps exactly the lead byte's payload bits |
| Utf8Iterator.LeadByteSplit | src/core/Utf8Iterator.cpp:105-114 | a lead byte is its length marker plus a payload that fits in the payload bits |
| Utf8Iterator.ContinueFailsOnBadByte | src/core/Utf8Iterator.cpp:230-239 | the continuation loop succeeds exactly when every byte after the lead has the form 10xxxxxx |
| Utf8Iterator.ContinueBound | src/core/Utf8Iterator.cpp:237-238 | each continuation byte appends six bits to the value |
| Utf8Iterator.SequenceValueBound | src/core/Utf8Iterator.cpp:228-239 | a decoded value fits in the payload bits of its length and so in 31 bits: the uint32_t accumulator never wraps |
| Utf8Iterator.FewestBytes | src/core/Utf8Iterator.cpp:140-148 | the search loop finds the smallest byte count whose payload holds the value's bits |
| Utf8Iterator.OverlongMeans | src/core/Utf8Iterator.cpp:120-153 | a value is overlong exactly when a shorter sequence has room for its bits, so every multi-byte encoding of NUL is overlong |
| Utf8Iterator.NoncharacterMeans | src/core/Utf8Iterator.cpp:160-179 | the noncharacters are U+FDD0 to U+FDEF and the last two code points of each of the 17 planes |
| Utf8Iterator.ValueChecks | src/core/Utf8Iterator.cpp:181-201 | a value passes exactly when it is neither overlong for its length, a surrogate, nor a noncharacter; failures are one of those three errors |
| Utf8Iterator.DecodeOutcomes | src/core/Utf8Iterator.cpp:208-244 | at or past the end decoding yields 0 with an empty span; an invalid start byte and a truncated sequence are reported exactly in those cases; a success spans exactly the announced length |
| Utf8Iterator.Decode | src/core/Utf8Iterator.cpp:209-244 | `decodeUtf8` at a byte offset: its outcomes (end, invalid start byte, truncation, invalid continuation, success) are pinned down by DecodeOutcomes and DecodeInvalidContinuation, and DecodeEncoding shows that the bytes encoding an accepted value decode back to it |
| Utf8Iterator.DecodedLength | src/core/Utf8Iterator.cpp:243 | a decoded span is as long as its lead byte announces |
| Utf8Iterator.DecodeInvalidContinuation | src/core/Utf8Iterator.cpp:230-236 | a bad continuation byte is reported exactly when a byte inside the span lacks the form 10xxxxxx |
| Utf8Iterator.Encoding | src/core/Utf8Iterator.cpp:120-153 | the reference encoder: the shortest encoding of a value, as long as the fewest bytes that hold it |
| Utf8Iterator.NotOverlongIsShortest | src/core/Utf8Iterator.cpp:120-153 | for a length with room for the value, not overlong means shortest |
| Utf8Iterator.DecodeEncoding | src/core/Utf8Iterator.cpp:208-244 | round trip: the shortest encoding of an accepted value decodes back to it, with the span covering exactly the encoding |
| Utf8Iterator.PassingSequenceIsEncoding | src/core/Utf8Iterator.cpp:218-243 | every byte sequence that passes the checks is the shortest encoding of an accepted value |
| Utf8Iterator.DecodedIsEncoding | src/core/Utf8Iterator.cpp:208-244 | whatever decodes is the shortest encoding of an accepted value, and its span is that encoding |
| Utf8Iterator.OverlongNulRejected | src/core/Utf8Iterator.cpp:183-187 | the two-byte form C0 80 of NUL is rejected as overlong |
| Utf8Iterator.LongerEncodingIsOverlong | src/core/Utf8Iterator.cpp:183-187 | any longer-than-shortest encoding of any value is rejected as overlong |
| Utf8Iterator.FindPrevious | src/core/Utf8Iterator.cpp:254-273 | the result is before `current`, is -1 (before begin) or a byte with a valid length, and every byte between it and `current` has no length |
| Utf8Iterator.FindPreviousIsNearestLead | src/core/Utf8Iterator.cpp:254-273 | the nearest lead byte below `current`, with only length-less bytes in between, is what the scan returns |
| Utf8Iterator.At | src/core/Utf8Iterator.cpp:295 | wrapping a decode succeeds exactly when decoding succeeds, and yields an iterator at that position whose value is what decoding there gives |
| Utf8Iterator.MakeIterator | src/core/Utf8Iterator.cpp:280-296 | the constructor decodes at the given position or at the beginning when none is given, and an empty buffer gives the value 0 |
| Utf8Iterator.End | src/core/Utf8Iterator.cpp:60-64 | the end iterator always exists and decodes to 0 with an empty span at the end |
| Utf8Iterator.EqualReflexiveSymmetric | src/core/Utf8Iterator.cpp:302-312 | iterator equality is reflexive and symmetric |
| Utf8Iterator.EqualEndIffEnd | src/core/Utf8Iterator.cpp:302-317 | comparing with end() detects exactly the end positions, the loop test `it != end()` |
| Utf8Iterator.Next | src/core/Utf8Iterator.cpp:319-323 | `++` yields a valid iterator over the same buffer |
| Utf8Iterator.Prev | src/core/Utf8Iterator.cpp:331-335 | `--` yields a valid iterator over the same buffer |
| Utf8Iterator.NextAdvances | src/core/Utf8Iterator.cpp:319-323 | `++` moves a valid iterator not at an end strictly forward, to the end of its span, and the span is the shortest encoding of an accepted value |
| Utf8Iterator.PrevUndoesNext | src/core/Utf8Iterator.cpp:319-335 | `--` undoes `++`: stepping back from the successor of a valid iterator returns to the same code point |
| Utf8Iterator.EncodingShape | src/core/Utf8Iterator.cpp:254-273 | in a shortest encoding only the first byte has a length, so the backward scan stops at a lead byte |
| Utf8Iterator.PostNext | src/core/Utf8Iterator.cpp:325-329 | postfix `++` as written steps the iterator, failing exactly when `++` fails |
| Utf8Iterator.PostNextReturnsSteppedCopy | src/core/Utf8Iterator.cpp:325-329 | the copy postfix `++` returns does not compare equal to the iterator before the step |
| Utf8Iterator.PostNextIntended | src/core/Utf8Iterator.cpp:325-329 | corrected postfix `++`: same new state as prefix `++` and the same failures |
| Utf8Iterator.PostNextIntendedReturnsOriginal | src/core/Utf8Iterator.cpp:325-329 | the corrected postfix `++` returns an iterator equal to the one before the step while the iterator itself has moved on |
| Utf8Iterator.PostPrev | src/core/Utf8Iterator.cpp:337-341 | postfix `--` as written steps back like prefix `--`, fails exactly when it does, and returns the stepped iterator rather than the one before the step |
| Utf8Iterator.PrevRetreats | src/core/Utf8Iterator.cpp:331-335 | prefix `--` from a position that is not the end moves strictly toward the front, so the stepped iterator no longer compares equal |
| Utf8Iterator.PostPrevReturnsSteppedCopy | src/core/Utf8Iterator.cpp:337-341 | the copy postfix `--` returns does not compare equal to the iterator before the step |
| Utf8Iterator.PostPrevIntended | src/core/Utf8Iterator.cpp:337-341 | corrected postfix `--`: same new state as prefix `--`, the same failures, and the iterator as it was before the step is returned |
| Utf8Iterator.PostPrevIntendedReturnsOriginal | src/core/Utf8Iterator.cpp:337-341 | the corrected postfix `--` returns an iterator equal to the one before the step while the iterator itself has moved |
| Utf8Iterator.ReversePostNext | src/core/Utf8Iterator.cpp:378-382 | reverse postfix `++` as written steps the inner iterator back like reverse `++`, fails exactly when it does, and returns the stepped object itself |
| Utf8Iterator.ReversePostPrev | src/core/Utf8Iterator.cpp:390-394 | reverse postfix `--` as written steps the inner iterator forward like reverse `--`, fails exactly when it does, and returns the stepped object itself |
| Utf8Iterator.ReversePostfixReturnsStepped | src/core/Utf8Iterator.cpp:378-394 | from a reverse iterator whose inner iterator is not at an end, what either reverse postfix operator returns does not compare equal to the reverse iterator before the step |
| Utf8Iterator.ReversePostNextIntended | src/core/Utf8Iterator.cpp:378-382 | corrected reverse postfix `++`: same new state and failures as reverse `++`, returning the reverse iterator as it was before the step |
| Utf8Iterator.ReversePostPrevIntended | src/core/Utf8Iterator.cpp:390-394 | corrected reverse postfix `--`: same new state and failures as reverse `--`, returning the reverse iterator as it was before the step |
| Utf8Iterator.ReversePostfixIntendedReturnsOriginal | src/core/Utf8Iterator.cpp:378-394 | the corrected reverse postfix operators return a reverse iterator equal to the one before the step |
| Utf8Iterator.MakeReverse | src/core/Utf8Iterator.cpp:357-360 | a reverse iterator is built by stepping the forward iterator back once, failing exactly when that step fails |
| Utf8Iterator.ReverseEnd | src/core/Utf8Iterator.cpp:353-360 | rend(), built from begin(), holds an inner iterator at an end position |
| Utf8Iterator.ReverseEqualEndIffEnd | src/core/Utf8Iterator.cpp:362-370 | comparing against rend() detects exactly the reverse iterators whose inner iterator is at an end |
| Utf8Iterator.ForwardIsWalkFrom | src/core/Utf8Iterator.cpp:302-323 | the loop from begin() to end() is the walk over byte offsets from 0 |
| Utf8Iterator.BackwardIsBackFrom | src/core/Utf8Iterator.cpp:331-392 | the loop from rbegin() to rend() is the walk over byte offsets back from the end |
| Utf8Iterator.BackwardReversesForward | src/core/Utf8Iterator.cpp:319-392 | reverse iteration yields exactly the reverse of what forward iteration yields, whenever forward iteration gets through |
| Utf8Iterator.ForwardEncodeAll | src/core/Utf8Iterator.cpp:208-323 | forward iteration over the concatenated encodings of accepted code points yields exactly those code points |
| Utf8Iterator.ForwardIsEncodeAll | src/core/Utf8Iterator.cpp:208-323 | conversely, a buffer forward iteration gets through is the concatenation of the shortest encodings of what it yields |
| Utf8Iterator.BackwardEncodeAll | src/core/Utf8Iterator.cpp:254-392 | reverse iteration over the encodings of accepted code points yields them in reverse order |
| Utf8Strings.ContentStart | src/core/Utf8String.cpp:32-44 | the content starts at 3 exactly when at least three bytes are present and they are EF BB BF, and at 0 otherwise |
| Utf8Strings.Default | src/core/Utf8String.cpp:51-53 | the default string holds no bytes and length 0, and is well formed |
| Utf8Strings.FromBytes | src/core/Utf8String.cpp:62-71 | a constructed string stores the bytes after any byte order mark, and its stored length is the number of code points they decode to |
| Utf8Strings.FromBytesDecodes | src/core/Utf8String.cpp:62-71 | construction succeeds exactly when iteration over the content gets through, and then stores the encodings of the code points it yields and their count |
| Utf8Strings.FromBomAndEncodings | src/core/Utf8String.cpp:32-71 | a byte order mark followed by the encodings of accepted code points builds the string of exactly those code points |
| Utf8Strings.BomOnlyIsEmpty | src/core/Utf8String.cpp:32-71 | a buffer holding only a byte order mark builds the empty string |
| Utf8Strings.EmptyIffLengthZero | src/core/Utf8String.cpp:73-86 | `empty()` holds exactly when `length()` is 0, and `size()` is `length()` |
| Utf8Strings.DefaultIsEmpty | src/core/Utf8String.cpp:51-99 | the default string is empty with length 0, and its begin() equals its end() |
| Utf8Strings.IterationBothWays | src/core/Utf8String.cpp:88-109 | iteration from begin() to end() yields as many code points as the stored length, and from rbegin() to rend() yields them reversed |
| Utf8StringRefs.Null | cpp/src/core/string/Utf8StringRef.cpp:31-33 | the default view is empty |
| Utf8StringRefs.Clear | cpp/src/core/string/Utf8StringRef.cpp:160-164 | after `clear()` the view is empty and its size is 0 |
| Utf8StringRefs.DataSize | cpp/src/core/string/Utf8StringRef.cpp:58-66 | the byte count is 0 exactly when the view is empty |
| Utf8StringRefs.EqualIffSameBytes | cpp/src/core/string/Utf8StringRef.cpp:46-56 | two views are equal exactly when they hold the same bytes, wherever they point, and `!=` is the negation |
| Utf8StringRefs.Advance | cpp/src/core/string/Utf8StringRef.cpp:131-139 | `std::advance` keeps the iterator on the same buffer and keeps it valid |
| Utf8StringRefs.SizeCountsCodePoints | cpp/src/core/string/Utf8StringRef.cpp:68-86 | `size()` is the number of code points forward iteration yields, at most the byte count, and 0 exactly for the empty view |
| Utf8StringRefs.AtIsNth | cpp/src/core/string/Utf8StringRef.cpp:136-143 | `at(pos)` is the pos-th code point below `size()` and throws out_of_range from `size()` on |
| Utf8StringRefs.SubscriptIsNth | cpp/src/core/string/Utf8StringRef.cpp:128-134 | `operator[]` agrees with `at` within bounds and, unchecked, reads the end iterator's 0 beyond them |
| Utf8StringRefs.FrontIsFirst | cpp/src/core/string/Utf8StringRef.cpp:145-148 | `front()` of a non-empty view is its first code point |
| Utf8StringRefs.BackIsAlwaysZero | cpp/src/core/string/Utf8StringRef.cpp:113-116 | as written, `back()` never reads the data: crbegin() is built from cbegin(), so it yields the before-begin value 0 |
| Utf8StringRefs.BackMissesLastCodePoint | cpp/src/core/string/Utf8StringRef.cpp:150-153 | on the encoding of code points whose last one is not NUL, `back()` as written returns 0 and the corrected form returns the last code point |
| Utf8StringRefs.BackOfLetterA | cpp/src/core/string/Utf8StringRef.cpp:150-153 | on the view of "A", `back()` as written gives 0 and the corrected form gives 0x41 |
| Utf8StringRefs.BackCorrectedIsLast | cpp/src/core/string/Utf8StringRef.cpp:150-153 | with crbegin() built from cend(), `back()` of a non-empty view is its last code point |
| EncodingDetection.BomPresent | cpp/src/QomposeCommon/util/Encoding.cpp:52-59 | a mark is present exactly when the data is at least as long as the mark and starts with it |
| EncodingDetection.FirstBom | cpp/src/QomposeCommon/util/Encoding.cpp:179-183 | the loop over BOM_TYPES picks the first entry whose mark is present, or none when no mark is |
| EncodingDetection.CodePointEnd | cpp/src/QomposeCommon/util/Encoding.cpp:74-95 | a code point check passes exactly when the length is positive, the sequence fits before the end and every byte after the first is 10xxxxxx; it then ends at position plus length |
| EncodingDetection.IsValidUtf8 | cpp/src/QomposeCommon/util/Encoding.cpp:105-161 | the loop over the bytes returns true exactly when the data is a sequence of structurally valid 1- to 6-byte code points |
| EncodingDetection.LeadClassIsByteLength | cpp/src/QomposeCommon/util/Encoding.cpp:124-157 | the lead-byte mask tests classify exactly as the strict decoder's length table does |
| EncodingDetection.ContinuationRunMeans | cpp/src/QomposeCommon/util/Encoding.cpp:87-91 | a run passes exactly when every byte in it is a continuation byte |
| EncodingDetection.StrictImpliesStructural | cpp/src/QomposeCommon/util/Encoding.cpp:105-161 | every buffer the strict Utf8Iterator decoder can iterate over passes the structural test |
| EncodingDetection.OverlongPassesStructure | cpp/src/QomposeCommon/util/Encoding.cpp:105-161 | the converse fails: the overlong NUL C0 80 passes the structural test but the strict decoder rejects it |
| EncodingDetection.DetectUnreadableAndEmpty | cpp/src/QomposeCommon/util/Encoding.cpp:168-197 | an unreadable file gives the null string and an empty file "UTF-8" |
| EncodingDetection.DetectTextCodec | cpp/src/QomposeCommon/util/Encoding.cpp:168-197 | `detectTextCodec`: unreadable gives none, empty gives "UTF-8", a present byte order mark names its codec, and otherwise the structural UTF-8 check decides, as DetectUnreadableAndEmpty, FirstBomDecides and NoBomMeansStructure prove |
| EncodingDetection.FirstBomDecides | cpp/src/QomposeCommon/util/Encoding.cpp:37-42 | the first byte order mark present, in BOM_TYPES order, names the codec |
| EncodingDetection.Utf32LittleEndianFirst | cpp/src/QomposeCommon/util/Encoding.cpp:30-42 | FF FE 00 00 is UTF-32LE although it starts with the UTF-16LE mark, and FF FE followed by anything else is UTF-16LE |
| EncodingDetection.NoBomMeansStructure | cpp/src/QomposeCommon/util/Encoding.cpp:185-190 | without a byte order mark a non-empty file is "UTF-8" exactly when it is structurally valid, and the null string otherwise |
| EncodingDetection.DecodableTextIsUtf8 | cpp/src/QomposeCommon/util/Encoding.cpp:185-190 | text the strict decoder accepts, without a byte order mark, is detected as UTF-8 |
| Popcount.OpopIsBitCount | src/QomposeCommon/util/Hotkey.cpp:96-106 | the SWAR count `opop` of a zero-extended 32-bit word is the number of its one bits, compared with the reference that adds the bits one by one |
| Popcount.Opop | src/QomposeCommon/util/Hotkey.cpp:96-106 | `opop` with 64-bit wrapping arithmetic; OpopIsBitCount, through the per-byte lane counts, shows it is the number of one bits of a zero-extended 32-bit word |
| Popcount.BitCountZero | src/QomposeCommon/util/Hotkey.cpp:96-106 | a word has no one bits exactly when it is zero |
| Hotkeys.Plain | src/QomposeCommon/util/Hotkey.cpp:25-30 | the one-argument constructor requires and allows no modifiers |
| Hotkeys.Required | src/QomposeCommon/util/Hotkey.cpp:32-38 | the two-argument constructor requires exactly `rm` and whitelists exactly `rm` |
| Hotkeys.Whitelisted | src/QomposeCommon/util/Hotkey.cpp:40-43 | the three-argument constructor requires `rm` and whitelists the union of `wlm` and `rm` |
| Hotkeys.Equal | src/QomposeCommon/util/Hotkey.cpp:45-49 | `operator==` holds exactly when key, required and whitelisted modifiers all agree |
| Hotkeys.Score | src/QomposeCommon/util/Hotkey.cpp:90-93 | the score is the number of tolerated-but-not-required modifiers the event carries, through `opop` of the masked 64-bit widening |
| Hotkeys.Matches | src/QomposeCommon/util/Hotkey.cpp:71-94 | the result is -1 exactly when the key differs, a required modifier is missing or a modifier is outside the whitelist, and otherwise the number of extra tolerated modifiers the event carries |
| Hotkeys.ExactMask | src/QomposeCommon/util/Hotkey.cpp:80-86 | containing `rm` and nothing outside it is being exactly `rm` |
| Hotkeys.PlainAdmits | src/QomposeCommon/util/Hotkey.cpp:71-94 | under `matches`, a plain hotkey (lines 25-30) admits only its key with no modifiers |
| Hotkeys.RequiredAdmits | src/QomposeCommon/util/Hotkey.cpp:71-94 | under `matches`, a hotkey with required modifiers (lines 32-38) admits only its key with exactly those modifiers |
| Hotkeys.WhitelistedAdmits | src/QomposeCommon/util/Hotkey.cpp:71-94 | for a whitelisting hotkey (lines 40-43), beyond the required modifiers, the event may carry only whitelisted ones |
| Hotkeys.ExactMatchScoresZero | src/QomposeCommon/util/Hotkey.cpp:71-94 | the score is 0 exactly for an admitted event whose modifiers are the required ones and nothing more |
| Hotkeys.TolerantEnterScores | src/QomposeCommon/util/Hotkey.cpp:71-94 | Enter tolerating every modifier scores 0 bare, 1 with Shift, 32 with every modifier, and -1 for another key |
| Hotkeys.PlainHomeScores | src/QomposeCommon/util/Hotkey.cpp:71-94 | plain Home matches only the bare key |
| QomposeHotkeys.Plain | src/QomposeCommon/util/QomposeHotkey.cpp:29-33 | the legacy one-argument constructor builds the same hotkey as the newer class |
| QomposeHotkeys.Required | src/QomposeCommon/util/QomposeHotkey.cpp:42-48 | the legacy two-argument constructor builds the same hotkey as the newer class |
| QomposeHotkeys.Whitelisted | src/QomposeCommon/util/QomposeHotkey.cpp:63-67 | the legacy three-argument constructor builds the same hotkey as the newer class |
| QomposeHotkeys.Assign | src/QomposeCommon/util/QomposeHotkey.cpp:98-108 | assignment leaves a copy of the source, and self-assignment changes nothing |
| QomposeHotkeys.Copy | src/QomposeCommon/util/QomposeHotkey.cpp:75-81 | the copy constructor, which starts from Escape and then assigns, yields an equal hotkey |
| QomposeHotkeys.Equal | src/QomposeCommon/util/QomposeHotkey.cpp:118-123 | `operator==` holds exactly when all three fields agree |
| QomposeHotkeys.Matches | src/QomposeCommon/util/QomposeHotkey.cpp:196-245 | the legacy `matches` and `opop` score every event exactly as the newer class does |
| QomposeHotkeys.LegacyScores | src/QomposeCommon/util/QomposeHotkey.cpp:196-219 | the legacy class scores the same table of events as the newer class |
| HotkeyMaps.FindEqual | src/QomposeCommon/util/HotkeyMap.cpp:48-57 | the duplicate search finds the first entry whose hotkey is `==` to `h`, and nothing exactly when no entry is |
| HotkeyMaps.AddHotkey | src/QomposeCommon/util/HotkeyMap.cpp:42-70 | the answer is true exactly when no stored hotkey equals `h`; then the entry is inserted at the hash's chosen position and nothing else changes; otherwise only the equal entry's handler is replaced |
| HotkeyMaps.AddHotkeyKeepsDistinct | src/QomposeCommon/util/HotkeyMap.h:95-122 | adding never loses an entry, keeps the stored hotkeys distinct, and afterwards `h` is stored with handler `f` |
| HotkeyMaps.Scores | src/QomposeCommon/util/HotkeyMap.cpp:89-91 | the loop scores every entry with `matches`, in iteration order |
| HotkeyMaps.ScanIsBest | src/QomposeCommon/util/HotkeyMap.cpp:83-103 | each step of the search loop keeps its answer the best match among the entries seen so far |
| HotkeyMaps.Scan | src/QomposeCommon/util/HotkeyMap.cpp:89-101 | the search loop over the entries' match scores, skipping non-matches and replacing the answer on a strictly lower score; ScanIsBest proves the result is the first lowest-scoring match |
| HotkeyMaps.HandlerIndex | src/QomposeCommon/util/HotkeyMap.h:133-161 | the entry whose handler is returned is a match that no other match beats and that every earlier match scores worse than, or none when nothing matches |
| HotkeyMaps.Handler | src/QomposeCommon/util/HotkeyMap.cpp:80-104 | the result is null exactly when no stored hotkey admits the event, and otherwise the handler of an admitting entry |
| HotkeyMaps.FewestExtrasWin | src/QomposeCommon/util/HotkeyMap.cpp:83-103 | the chosen hotkey admits the event and carries no more extra modifiers than any other admitting hotkey; ties go to the earliest in the container's iteration order |
| HotkeyMaps.BestIsUnique | src/QomposeCommon/util/HotkeyMap.cpp:83-103 | the answer is determined by the scores alone |
| HotkeyMaps.HandlerOfScan | src/QomposeCommon/util/HotkeyMap.cpp:80-104 | the handler is the one at the index the search loop ends on |
| HotkeyMaps.OrderFree | src/QomposeCommon/util/HotkeyMap.h:165 | whatever order the hash iterates in, whether some handler is found does not change, the winner's score does not change, and a winner no other match ties with is the same entry |
| HotkeyMaps.HandlerAsDocumented | src/QomposeCommon/util/HotkeyMap.cpp:72-79 | as its comment describes it, the lookup throws exactly when no hotkey admits the event |
| HotkeyMaps.DocumentedThrowIsNull | src/QomposeCommon/util/HotkeyMap.cpp:72-104 | the documented lookup succeeds exactly when the code returns a handler, with the same handler, and where it is documented to throw the code returns null, as the empty map shows |
| EditorHotkeys.Lookup0 | src/QomposeTest/hotkey/HotkeyMapTest.cpp:204 | on the test's hotkey table, Enter picks DoNewline |
| EditorHotkeys.Lookup1 | src/QomposeTest/hotkey/HotkeyMapTest.cpp:205 | on the test's hotkey table, Tab picks DoTab |
| EditorHotkeys.Lookup2 | src/QomposeTest/hotkey/HotkeyMapTest.cpp:206-207 | on the test's hotkey table, Shift+Tab picks DecreaseSelectionIndent |
| EditorHotkeys.Lookup3 | src/QomposeTest/hotkey/HotkeyMapTest.cpp:208 | on the test's hotkey table, Home picks DoMoveHome |
| EditorHotkeys.Lookup4 | src/QomposeTest/hotkey/HotkeyMapTest.cpp:209-210 | on the test's hotkey table, Shift+Home picks DoSelectHome |
| EditorHotkeys.Lookup5 | src/QomposeTest/hotkey/HotkeyMapTest.cpp:211-212 | on the test's hotkey table, Ctrl+D picks DuplicateLine |
| EditorHotkeys.Lookup6 | src/QomposeTest/hotkey/HotkeyMapTest.cpp:213-214 | on the test's hotkey table, Ctrl+0 picks ResetFontZoom |
| EditorHotkeys.Lookup7 | src/QomposeTest/hotkey/HotkeyMapTest.cpp:215 | on the test's hotkey table, Ctrl+Shift+Left picks DoNoop |
| EditorHotkeys.Lookup8 | src/QomposeTest/hotkey/HotkeyMapTest.cpp:216-217 | on the test's hotkey table, Ctrl+Shift+Right picks DoNoop |
| EditorHotkeys.Lookup9 | src/QomposeTest/hotkey/HotkeyMapTest.cpp:218 | on the test's hotkey table, Ctrl+Insert picks DoNoop |
| EditorHotkeys.Lookup10 | src/QomposeTest/hotkey/HotkeyMapTest.cpp:219 | on the test's hotkey table, Ctrl+K picks DoNoop |
| EditorHotkeys.Lookup11 | src/QomposeTest/hotkey/HotkeyMapTest.cpp:220 | on the test's hotkey table, Shift+Insert picks DoNoop |
| EditorHotkeys.Lookup12 | src/QomposeTest/hotkey/HotkeyMapTest.cpp:221 | on the test's hotkey table, Shift+Delete picks DoNoop |
| EditorHotkeys.Lookup13 | src/QomposeTest/hotkey/HotkeyMapTest.cpp:222 | on the test's hotkey table, Ctrl+Shift+Tab finds no handler (null) |
| EditorHotkeys.Lookup14 | src/QomposeTest/hotkey/HotkeyMapTest.cpp:223 | on the test's hotkey table, Ctrl+Shift+Home finds no handler (null) |
| EditorHotkeys.Lookup15 | src/QomposeTest/hotkey/HotkeyMapTest.cpp:224 | on the test's hotkey table, Ctrl+A finds no handler (null) |
| RecentMenus.TrimOldest | src/QomposeCommon/gui/menus/RecentMenu.cpp:113-119 | the trimming loop keeps the newest min(count, max(capacity, 0)) entries, in order |
| RecentMenus.TrimKeepsDistinct | src/QomposeCommon/gui/menus/RecentMenu.cpp:113-119 | trimming a list without duplicates leaves one without duplicates |
| RecentMenus.RemoveFirst | src/QomposeCommon/gui/menus/RecentMenu.cpp:100-107 | the loop removes exactly the first copy of `p`, keeping the others in order, and changes nothing when `p` is absent |
| RecentMenus.RemoveFirstDistinct | src/QomposeCommon/gui/menus/RecentMenu.cpp:100-107 | in a list without duplicates, removing the first copy removes `p` entirely and keeps every other path |
| RecentMenus.UpdateActionsListSize | src/QomposeCommon/gui/menus/RecentMenu.cpp:128-152 | the two loops leave exactly one action per entry and do not touch the entries |
| RecentMenus.AddPath | src/QomposeCommon/gui/menus/RecentMenu.cpp:96-126 | the first copy of `p` is removed, `p` becomes the newest entry, the oldest entries are dropped down to the capacity, and a capacity below 1 leaves the list empty |
| RecentMenus.AddPathKeepsDistinct | src/QomposeCommon/gui/menus/RecentMenu.cpp:96-126 | a list without duplicates keeps none through `addPath`, and `p` is present afterwards whenever the capacity allows one entry |
| RecentMenus.AddPathOrder | src/QomposeCommon/gui/menus/RecentMenu.cpp:96-126 | with room to spare, `addPath` moves `p` to the newest position and keeps the others in order, growing the list only when `p` was new |
| RecentMenus.SetCapacity | src/QomposeCommon/gui/menus/RecentMenu.cpp:154-175 | after `setCapacity(c)` the newest min(count, max(c, 0)) entries remain in order, one action each, labelled newest first |
| RecentMenus.SetListContents | src/QomposeCommon/gui/menus/RecentMenu.cpp:189-213 | the list becomes the newest part of `l` that fits the capacity, duplicates included, labelled newest first |
| RecentMenus.NameStart | src/QomposeCommon/gui/menus/RecentMenu.cpp:182 | the file name starts just after the last slash, or at 0 when there is none |
| RecentMenus.FileNameIsLastComponent | src/QomposeCommon/gui/menus/RecentMenu.cpp:182-185 | the displayed file name is the longest slash-free suffix of the path |
| RecentMenus.Labels | src/QomposeCommon/gui/menus/RecentMenu.cpp:177-187 | there is one label per entry, and action j shows number j + 1 and the file name of entry count-1-j |
| RecentMenus.RenderListContents | src/QomposeCommon/gui/menus/RecentMenu.cpp:177-187 | the rendering loop labels every action, newest entry first |
| RecentMenus.ActionClicked | src/QomposeCommon/gui/menus/RecentMenu.cpp:215-237 | a click on action j emits entry count-1-j, and a sender not among the actions emits nothing |
| RecentMenus.ClickMatchesLabel | src/QomposeCommon/gui/menus/RecentMenu.cpp:177-237 | the path a click emits is the one whose file name the clicked action shows, under number j + 1 |
| RecentMenus.SaveContents | src/QomposeCommon/gui/menus/RecentMenu.cpp:86-94 | the saved list holds the entries from oldest to newest |
| RecentMenus.SavedContentsReload | src/QomposeCommon/gui/menus/RecentMenu.cpp:86-213 | contents saved by `saveContents` read back unchanged through `setListContents`: the list already fits the capacity and is in the order `setListContents` expects |
| RecentMenus.InitialCapacity | src/QomposeCommon/gui/menus/RecentMenu.cpp:44-61 | the starting capacity is the stored setting when it reads as an integer, else the reset default when that does, else 10 |
| RecentMenus.SettingChanged | src/QomposeCommon/gui/menus/RecentMenu.cpp:239-254 | an integer size setting sets the capacity and trims, a list setting replaces the contents, and anything else changes nothing |
| RecentLists.Trim | src/QomposeCommon/settings/RecentList.cpp:34-38 | popping from the back leaves the first min(size, capacity) entries, in order |
| RecentLists.Save | src/QomposeCommon/settings/RecentList.cpp:40-49 | the stored list holds the entries front to back, and the stored size is the capacity |
| RecentLists.Load | src/QomposeCommon/settings/RecentList.cpp:28-74 | on construction, the capacity is the stored size or 10, the list is the stored prefix that fits it (empty when nothing is stored), and the result is written back |
| RecentLists.AddPath | src/QomposeCommon/settings/RecentList.cpp:81-86 | `p` becomes the front entry, the older entries follow in order up to the capacity, a capacity of 0 leaves the list empty, and the result is saved |
| RecentLists.AddPathBelowCapacity | src/QomposeCommon/settings/RecentList.cpp:81-86 | below capacity `addPath` only prepends, even when `p` is already in the list |
| RecentLists.SaveLoadRoundTrip | src/QomposeCommon/settings/RecentList.cpp:40-64 | a list that fits its capacity loads back exactly as it was saved |
| PaneModels.DescriptorOf | cpp/src/QomposeCommon/editor/Buffer.cpp:252-256 | a buffer's file descriptor carries its path and its codec |
| PaneModels.Empty | cpp/src/QomposeCommon/editor/pane/PaneModel.cpp:35-37 | a new model has no panes and no closed history |
| PaneModels.PaneAt | cpp/src/QomposeCommon/editor/pane/PaneModel.cpp:44-49 | `paneAt` gives no pane exactly when the index is out of range, and otherwise the pane at that index |
| PaneModels.NewPane | cpp/src/QomposeCommon/editor/pane/PaneModel.cpp:134-140 | `newPane` appends one fresh pane, with a number no other pane has, holding an unsaved, unmodified UTF-8 buffer, and reports its index as the last |
| PaneModels.PushClosed | cpp/src/QomposeCommon/editor/pane/PaneModel.cpp:193-195 | the closed history gains the new entry at the back and drops the oldest entries down to 20 |
| PaneModels.RemovePaneAt | cpp/src/QomposeCommon/editor/pane/PaneModel.cpp:181-196 | removing pane `i` keeps the other panes in order and records its descriptor and cursor position in the bounded history |
| PaneModels.IndexOf | cpp/src/QomposeCommon/editor/pane/PaneModel.cpp:200 | the search finds the first pane with the number, or the count |
| PaneModels.RemovePane | cpp/src/QomposeCommon/editor/pane/PaneModel.cpp:198-204 | removing a pane that is not in the model changes nothing, and afterwards no pane has that number |
| PaneModels.FindPath | cpp/src/QomposeCommon/editor/pane/PaneModel.cpp:51-61 | `findPaneWithPath` returns the first pane whose saved path names the same file as `p`, and never matches an empty path |
| PaneModels.DropPlaceholder | cpp/src/QomposeCommon/editor/pane/PaneModel.cpp:144-152 | a lone untitled, unmodified pane is removed into the history; any other model is left alone |
| PaneModels.OpenDescriptor | cpp/src/QomposeCommon/editor/pane/PaneModel.cpp:142-163 | after dropping the placeholder, a pane already showing the file is returned unchanged; otherwise one pane is appended, with the file's path and codec when the name is not empty, untitled with the default codec when it is |
| PaneModels.OpenDescriptorCounts | cpp/src/QomposeCommon/editor/pane/PaneModel.cpp:142-163 | opening replaces the placeholder, keeps the count when the file is already open, and otherwise adds at most one pane |
| PaneModels.Reopen | cpp/src/QomposeCommon/editor/pane/PaneModel.cpp:165-179 | `reopen` does nothing exactly when the history is empty, and otherwise shows the newest closed file with its cursor where it was |
| PaneModels.ReopenPopsBack | cpp/src/QomposeCommon/editor/pane/PaneModel.cpp:165-179 | the pop after opening removes the newest history entry; when opening replaced the placeholder that entry is the placeholder's, so the reopened file stays in the history |
| PaneModels.PathsOf | cpp/src/QomposeCommon/editor/pane/PaneModel.cpp:63-74 | the open paths are exactly the non-empty pane paths, no more than there are panes |
| PaneModels.GetOpenPaths | cpp/src/QomposeCommon/editor/pane/PaneModel.cpp:63-74 | the loop collects the non-empty paths in pane order |
| PaneModels.Moved | cpp/src/QomposeCommon/editor/pane/PaneModel.cpp:115-132 | the documented effect of moving a pane keeps the length and puts the element from `f` at `t` |
| PaneModels.MovedAt | cpp/src/QomposeCommon/editor/pane/PaneModel.cpp:115-132 | position by position, the moved sequence reads the element that shifted one place toward `f`, or the moved one at `t` |
| PaneModels.MovePane | cpp/src/QomposeCommon/editor/pane/PaneModel.cpp:115-132 | the corrected shifting loop fills every position from where the documented move says it comes from |
| PaneModels.MovePaneIsMoved | cpp/src/QomposeCommon/editor/pane/PaneModel.cpp:115-132 | the corrected loop's result is exactly the documented move |
| PaneModels.MovePaneAsWritten | cpp/src/QomposeCommon/editor/pane/PaneModel.cpp:115-132 | as written, the negated direction starts the index on the far side of `f`; a defined run keeps the length |
| PaneModels.MovePaneAsWrittenDuplicates | cpp/src/QomposeCommon/editor/pane/PaneModel.cpp:121-131 | as written, moving one place right copies the pane over its neighbour, leaving it twice and losing the neighbour |
| PaneModels.MovePaneAsWrittenOutOfRange | cpp/src/QomposeCommon/editor/pane/PaneModel.cpp:121-129 | as written, moving from 0 to 2 in three panes indexes outside the vector, where the documented result is [1, 2, 0] |
| PieceCursors.Next | cpp/src/core/document/Cursor.cpp:57-80 | `operator++` leaves the end cursor where it is and otherwise yields a valid cursor of the table |
| PieceCursors.Prev | cpp/src/core/document/Cursor.cpp:82-106 | `operator--` stays on the first position and otherwise lands on a valid position that is not the end cursor |
| PieceCursors.PostNext | cpp/src/core/document/Cursor.cpp:108-113 | postfix `++` returns the cursor as it was, and the stepped cursor is one code point further on unless it was the end cursor |
| PieceCursors.PostPrev | cpp/src/core/document/Cursor.cpp:115-120 | postfix `--` returns the cursor as it was, and the stepped cursor is one code point back unless it was at offset 0 |
| PieceCursors.ConcatPrefix | cpp/src/core/document/Cursor.cpp:57-106 | the text of the first `p` pieces is a prefix of the text of the first `q` pieces, for `p <= q` |
| PieceCursors.PieceInDocument | cpp/src/core/document/Cursor.cpp:122-125 | piece `p` appears in the document right after the pieces before it |
| PieceCursors.ReadsDocument | cpp/src/core/document/Cursor.cpp:122-125 | `operator*` reads the document's code point at the cursor's offset |
| PieceCursors.OffsetBounds | cpp/src/core/document/Cursor.cpp:46-80 | a cursor's offset lies within the document, and equals its length exactly at the end cursor |
| PieceCursors.EqualIffSameOffset | cpp/src/core/document/Cursor.cpp:46-50 | `operator==` holds exactly when the two cursors are at the same offset, however the end cursor's position was left |
| PieceCursors.NextOffset | cpp/src/core/document/Cursor.cpp:57-80 | `operator++` advances the offset by one code point, except at the end |
| PieceCursors.PrevOffset | cpp/src/core/document/Cursor.cpp:82-106 | `operator--` moves the offset back by one code point, except at offset 0 |
| PieceCursors.PrevUndoesNext | cpp/src/core/document/Cursor.cpp:57-106 | stepping back after stepping forward from a non-end cursor gives back the same cursor |
| PieceCursors.NextUndoesPrev | cpp/src/core/document/Cursor.cpp:57-106 | stepping forward after stepping back from a positive offset gives an equal cursor |
| PieceCursors.WalkReadsDocument | cpp/src/core/document/Cursor.cpp:57-80 | `k` steps from the first position reach a cursor at offset `k` that reads the document's `k`-th code point |
| PieceCursors.FromCursor | cpp/src/core/document/Cursor.cpp:136-139 | the reverse cursor built from `o` reads the code point before `o`, or is off the front when `o` is at offset 0 |
| PieceCursors.RevReadsDocument | cpp/src/core/document/Cursor.cpp:180-183 | a reverse cursor on the document reads the code point at its offset |
| PieceCursors.RevNextOffset | cpp/src/core/document/Cursor.cpp:151-158 | reverse `operator++` moves one code point toward the front, and from offset 0 goes off the front |
| PieceCursors.RevEqualIffSameOffset | cpp/src/core/document/Cursor.cpp:141-144 | two reverse cursors compare equal exactly when they read the same offset, off the front counting as -1 |
| PieceCursors.RevPrevAsWritten | cpp/src/core/document/Cursor.cpp:160-164 | as written, reverse `operator--` never clears the off-the-front flag |
| PieceCursors.RevPrevAsWrittenStaysOff | cpp/src/core/document/Cursor.cpp:151-164 | as written, in the document "a" the reverse cursor off the front comes back as the end cursor with the flag still set, where the intended result is the reverse cursor reading "a" |
| PieceCursors.RevPrev | cpp/src/core/document/Cursor.cpp:160-164 | the corrected reverse `operator--` is always back on the document |
| PieceCursors.RevPrevUndoesRevNext | cpp/src/core/document/Cursor.cpp:151-164 | with the corrected `operator--`, stepping the reverse cursor back after forward restores it, even from the first code point |
| PieceCursors.RevNextUndoesRevPrev | cpp/src/core/document/Cursor.cpp:151-164 | with the corrected `operator--`, stepping forward after back restores an equal reverse cursor |
| PieceCursors.Equal | cpp/src/core/document/Cursor.cpp:46-50 | `operator==`: two cursors compare equal when both are at the end or at the same piece and position, which EqualIffSameOffset shows is exactly equal offsets |
| PieceCursors.Read | cpp/src/core/document/Cursor.cpp:122-125 | `operator*` on a cursor not at the end; ReadsDocument shows it is the document's code point at the cursor's offset |
| PieceCursors.RevNext | cpp/src/core/document/Cursor.cpp:151-158 | reverse `operator++` on a valid cursor leaves a valid cursor that is not at the end; RevNextOffset gives its offset |
| DocumentWriters.FirstBreak | src/QomposeCommon/fs/DocumentWriter.cpp:103-104 | the split point is the first `\n` or `\r`, and the text before it holds no break |
| DocumentWriters.BreakLength | src/QomposeCommon/fs/DocumentWriter.cpp:103-104 | a separator is one or two characters long and lies inside the text |
| DocumentWriters.LinesAreLines | src/QomposeCommon/fs/DocumentWriter.cpp:103-104 | splitting on `\n`, `\r\n` or `\r` keeping empty parts yields only break-free parts |
| DocumentWriters.TrimLine | src/QomposeCommon/fs/DocumentWriter.cpp:108-112 | a trimmed line is a prefix of the line that does not end in a space, and everything cut off is space |
| DocumentWriters.TrimTrailing | src/QomposeCommon/fs/DocumentWriter.cpp:108-112 | the backwards `isSpace` loop computes that trimmed prefix |
| DocumentWriters.TrimWhitespace | src/QomposeCommon/fs/DocumentWriter.cpp:99-119 | the append loop yields every line trimmed, with `\n` between consecutive lines and none after the last |
| DocumentWriters.JoinSnoc | src/QomposeCommon/fs/DocumentWriter.cpp:112-115 | appending one more line to a joined text adds a `\n` and that line |
| DocumentWriters.SplitJoin | src/QomposeCommon/fs/DocumentWriter.cpp:103-115 | splitting the `\n`-joined form of break-free lines gives back those lines |
| DocumentWriters.SplitJoinOfLines | src/QomposeCommon/fs/DocumentWriter.cpp:103-115 | text without `\r` is unchanged by splitting and rejoining with `\n` |
| DocumentWriters.JoinHasNoReturn | src/QomposeCommon/fs/DocumentWriter.cpp:112-115 | joined output never holds a `\r`: every separator is normalised to `\n` |
| DocumentWriters.TrimLineKeepsLine | src/QomposeCommon/fs/DocumentWriter.cpp:108-112 | trimming a line cannot introduce a break |
| DocumentWriters.TrimmedLines | src/QomposeCommon/fs/DocumentWriter.cpp:99-119 | the result has as many lines as the input, line j is input line j trimmed, and no line ends in a space |
| DocumentWriters.TrimLineIdempotent | src/QomposeCommon/fs/DocumentWriter.cpp:108-112 | trimming a trimmed line changes nothing |
| DocumentWriters.TrimmedIdempotent | src/QomposeCommon/fs/DocumentWriter.cpp:99-119 | `trimWhitespace` applied twice equals applying it once |
| DocumentWriters.TrimmedLineUnchanged | src/QomposeCommon/fs/DocumentWriter.cpp:99-119 | a single line with no trailing space is returned unchanged |
| DocumentWriters.TrailingBreakSurvives | src/QomposeCommon/fs/DocumentWriter.cpp:103-115 | a text ending in a break splits into an empty last part, so the result still ends in `\n` |
| DocumentWriters.NewWriter | src/QomposeCommon/fs/DocumentWriter.cpp:29-37 | both constructors start with trimming off |
| DocumentWriters.Write | src/QomposeCommon/fs/DocumentWriter.cpp:73-97 | `write` fails without output exactly when the device is neither writable nor openable, and otherwise writes the plain text, trimmed only when trimming is on |
| DocumentWriters.WriteTrimsOnlyWhenEnabled | src/QomposeCommon/fs/DocumentWriter.cpp:63-97 | a new writer writes text verbatim, and a trimming writer writes no line ending in a space |
| IoPriority.ClassCode | src/QomposeCommon/thread/IOPriorityDefines.h:30-36 | the class codes are 0 to 3 in declaration order |
| IoPriority.PrioClassOf | src/QomposeCommon/thread/IOPriorityDefines.h:79-82 | the class part is the arithmetic shift right by 13, so any value in -2^18 .. 2^18 can come out, and it is None (0) exactly for values 0 .. 8191 |
| IoPriority.PrioData | src/QomposeCommon/thread/IOPriorityDefines.h:90-93 | with the mask of line 71, the data part is the low 13 bits: a value in 0 .. 8191 congruent to the input modulo 8192, also for negative inputs |
| IoPriority.PrioValue | src/QomposeCommon/thread/IOPriorityDefines.h:103-106 | the packed value keeps the data's low 13 bits and its bits above 14, and its bits 13 and 14 are the or of the data's and the class code |
| IoPriority.ValidIffOutsideData | src/QomposeCommon/thread/IOPriorityDefines.h:115-118 | a value is valid exactly when it lies outside 0 .. 8191 |
| IoPriority.ValueRoundTrip | src/QomposeCommon/thread/IOPriorityDefines.h:79-106 | data that fits in 13 bits packs to class * 8192 + data, and both the class and the data read back unchanged |
| IoPriority.NoneIsInvalid | src/QomposeCommon/thread/IOPriorityDefines.h:103-118 | from 13-bit data only the None class yields an invalid value |
| IoPriority.ClassValues | src/QomposeCommon/thread/IOPriorityDefines.h:51-56 | Idle with data 0 packs to 0x6000, best effort at the fallback level IOPRIO_NORM to 0x4004, and None with 0 to the invalid 0 |
| Deserializers.SerializeBool | src/QomposeCommon/settings/Deserializer.cpp:30-38 | the stored form of a boolean is its name, 4 or 5 bytes |
| Deserializers.DeserializeBool | src/QomposeCommon/settings/Deserializer.cpp:30-38 | exactly "true" and "false" are accepted, reading as true and false; everything else throws |
| Deserializers.BoolRoundTrip | src/QomposeCommon/settings/Deserializer.cpp:30-38 | reading back a stored boolean gives it back, and an accepted text is the stored form of what it reads as |
| Deserializers.DeserializeByteArray | src/QomposeCommon/settings/Deserializer.cpp:54-57 | the byte array holds exactly the stored bytes |
| Deserializers.ExtractInt | src/QomposeCommon/settings/Deserializer.cpp:45 | one `iss >> tmp` skips white space, reads an optional sign and at least one digit, fails outside the range of int, and consumes input |
| Deserializers.ExtractSuffix | src/QomposeCommon/settings/Deserializer.cpp:45 | what an extraction leaves is the tail of its input, right after a digit, and does not start with a digit |
| Deserializers.ReadInts | src/QomposeCommon/settings/Deserializer.cpp:45-46 | the reading loop yields exactly the requested count of in-range numbers and consumes input, or fails |
| Deserializers.DeserializeColour | src/QomposeCommon/settings/Deserializer.cpp:40-52 | a colour is accepted exactly when four numbers are read and the input is then used up, and its channels are those numbers in constructor order; everything else throws |
| Deserializers.ColourConsumesInput | src/QomposeCommon/settings/Deserializer.cpp:48 | an accepted colour text ends in a digit: nothing, not even white space, may follow the fourth number, because `eof()` is checked |
| Deserializers.ExtractAfterSpaces | src/QomposeCommon/settings/Deserializer.cpp:45 | leading white space does not change what is extracted |
| Deserializers.ExtractText | src/QomposeCommon/settings/Deserializer.cpp:45 | the decimal text of an int followed by a non-digit is extracted as that int, leaving exactly what follows |
| Deserializers.ReadFields | src/QomposeCommon/settings/Deserializer.cpp:45-46 | numbers written with single spaces between them are read back in order, leaving exactly what follows |
| Deserializers.ColourRoundTrip | src/QomposeCommon/settings/Deserializer.cpp:40-52 | reading back the stored text of a colour with int channels gives the colour back |
| Deserializers.ReadTooFew | src/QomposeCommon/settings/Deserializer.cpp:45-46 | asking for more numbers than the text holds fails |
| Deserializers.ColourNeedsFour | src/QomposeCommon/settings/Deserializer.cpp:48-49 | fewer than four numbers, or none at all, are refused |
| Deserializers.ColourRefusesFifth | src/QomposeCommon/settings/Deserializer.cpp:45-49 | a fifth number after a stored colour is refused, because the loop stops at four and the stream is not at its end |
| Deserializers.ColourRefusesTrailing | src/QomposeCommon/settings/Deserializer.cpp:48-49 | any non-digit byte after a text, white space included, makes it refused |
| StringLists.Read | src/QomposeCommon/settings/Deserializer.cpp:78-79 | a read of n bytes hits end of file exactly when fewer than n remain, and then delivers all that remain; otherwise exactly the next n bytes |
| StringLists.LeOfLeBytes | src/QomposeCommon/settings/Deserializer.cpp:77-78 | writing a number below 256^k into k little-endian bytes and reading them back gives the number |
| StringLists.LeBytesOfLe | src/QomposeCommon/settings/Deserializer.cpp:77-78 | bytes read as a number and written back in as many bytes are the same bytes |
| StringLists.DeserializeStrings | src/QomposeCommon/settings/Deserializer.cpp:70-98 | input shorter than a length field reads as the empty list; the short-length error never happens, because a short read always sets end of file; the only error is a short payload |
| StringLists.RecordStep | src/QomposeCommon/settings/Deserializer.cpp:75-96 | one record (length, then payload) is read as that string, and the rest of the list is read from what follows it |
| StringLists.StringsRoundTrip | src/QomposeCommon/settings/Deserializer.cpp:70-98 | reading back a stored list gives it back, whatever fragment shorter than a length field follows it |
| StringLists.SerializeStrings | src/QomposeCommon/settings/Deserializer.cpp:70-98 | the stored form of a string list, each entry preceded by its 64-bit little-endian length, which StringsRoundTrip reads back to the same list |
| StringLists.StringsAccountForInput | src/QomposeCommon/settings/Deserializer.cpp:70-98 | an accepted input is exactly the stored form of the list it reads as, followed by a fragment shorter than a length field |
| StringLists.AcceptedRecordFits | src/QomposeCommon/settings/Deserializer.cpp:88-94 | an accepted input holds the whole payload its first length promises |
| StringLists.ShortPayload | src/QomposeCommon/settings/Deserializer.cpp:88-94 | a length promising more bytes than follow fails the whole list |
| Paths.MaxCommonSizeAsWritten | src/QomposeCommon/util/Strings.h:53-64 | as written, `getMaxCommonSize` returns 0 for no paths and otherwise the untouched initial `SIZE_MAX`, because the fold's result is discarded |
| Paths.MaxCommonSizeAsWrittenOverruns | src/QomposeCommon/util/Strings.h:57-63 | whenever some path is shorter than `SIZE_MAX`, that result exceeds a path's length and is not the shortest length |
| Paths.MaxCommonSize | src/QomposeCommon/util/Strings.h:53-64 | the intended helper: 0 for no paths, never longer than any path, and equal to the shortest path's length |
| Paths.CommonParentFrom | src/QomposeCommon/fs/Paths.cpp:44-67 | shrinking from the start length, the search returns a prefix of the last path that every path starts with, and no longer candidate up to the start is shared |
| Paths.PrefixOfAll | src/QomposeCommon/fs/Paths.cpp:47-60 | a length on which the paths agree gives a prefix of every path |
| Paths.CommonLengthBounds | src/QomposeCommon/fs/Paths.cpp:47-63 | the common length is where the paths first disagree: they agree at every position before it and not at it |
| Paths.AgreeUpToCommon | src/QomposeCommon/fs/Paths.cpp:47-60 | the paths agree on a length exactly when it is at most the common length |
| Paths.CommonParentPath | src/QomposeCommon/fs/Paths.cpp:36-68 | `getCommonParentPath` with the intended helper returns the empty path for no paths, and otherwise the longest prefix of the last path that every path starts with |
| Paths.Longest | src/QomposeCommon/fs/Paths.cpp:47-63 | the first accepted candidate, searching down from the shortest path's length, is the longest common prefix |
| Paths.RefEqual | src/QomposeCommon/util/Paths.cpp:48-57 | two string references compare equal exactly when their characters are the same |
| Paths.AllRefsEqualIsAgree | src/QomposeCommon/util/Paths.cpp:51-62 | the reference-comparing inner loop accepts a candidate exactly when every path before the last starts with it |
| Paths.SearchRefsStops | src/QomposeCommon/util/Paths.cpp:46-68 | the outer loop stops at a length the paths agree on, with no longer agreed length below its start |
| Paths.FoldMinFacts | src/QomposeCommon/util/Strings.h:58-62 | the fold of `min` over the lengths is at most the start value, fits every path, and is the start value or some path's length |
| Paths.CommonParentPathRefs | src/QomposeCommon/util/Paths.cpp:35-73 | the older copy, with the helper returning its fold, computes the same longest common prefix as the newer copy |
| Paths.CharacterPrefix | src/QomposeCommon/util/Paths.cpp:35-73 | the common parent is a character prefix, not a directory: "/a/bc" and "/a/bd" give "/a/b" |
| Paths.SinglePathIsWhole | src/QomposeCommon/util/Paths.cpp:35-73 | a single path is its own common parent |
| EditorIndentation.IndentationString | src/QomposeCommon/editor/algorithm/Indentation.cpp:130-141 | the indentation string is `width` spaces in space mode and one tab in tab mode; either way it is whitespace without a separator |
| EditorIndentation.Tab | src/QomposeCommon/editor/algorithm/Indentation.cpp:178-184 | without a selection the indentation string is typed at the cursor, which ends after it; with one, the selection's blocks are indented |
| EditorIndentation.BackspaceUndoesTab | src/QomposeCommon/editor/algorithm/Indentation.cpp:178-184 | backspace takes back a tab typed without a selection: always with tabs, and with spaces when only whole indentations precede the cursor |
| EditorIndentation.TypedIndent | src/QomposeCommon/editor/algorithm/Indentation.cpp:178-184 | typing a space indentation after whole indentations leaves whole indentations, at least one, before the cursor |
| EditorIndentation.IncreaseSelectionIndent | src/QomposeCommon/editor/algorithm/Indentation.cpp:143-161 | `increaseSelectionIndent` leaves a valid cursor and changes nothing without a selection |
| EditorIndentation.IndentFrom | src/QomposeCommon/editor/algorithm/General.h:85-97 | `foreachBlock` typing `ind` over `n` blocks from inside block `j` puts `ind` in front of exactly blocks `j` to `j + n - 1` and changes no other text |
| EditorIndentation.IndentNone | src/QomposeCommon/editor/algorithm/General.h:85-97 | `foreachBlock` over no blocks changes nothing |
| EditorIndentation.IncreaseIndentBlocks | src/QomposeCommon/editor/algorithm/Indentation.cpp:143-161 | with a selection, every block from the one holding its start to the one holding its end gains one indentation string in front, nothing else changes, and those blocks end up selected whole |
| EditorIndentation.IndentedSelection | src/QomposeCommon/editor/algorithm/Indentation.cpp:148-160 | the state's first to last block are indented and then selected whole |
| EditorDeindentation.DeindentStepAsWritten | src/QomposeCommon/editor/algorithm/Indentation.cpp:51-73 | one block of `deindentSelection` as written compares a `width`-character selection, taken when the block length counting its separator reaches `width`; a match removes exactly the indentation string and otherwise the text is unchanged |
| EditorDeindentation.DeindentPassAsWritten | src/QomposeCommon/editor/algorithm/Indentation.cpp:42-75 | the pass reports a removal exactly when the text got shorter, and otherwise leaves the text unchanged |
| EditorDeindentation.DewhitespaceCharsAsWritten | src/QomposeCommon/editor/algorithm/Indentation.cpp:101-116 | the inner loop only deletes: a result it yields is a valid cursor whose text is no longer. By its definition, not by its contract, it yields `None` where it would read the first character of an empty block |
| EditorDeindentation.DewhitespacePassAsWritten | src/QomposeCommon/editor/algorithm/Indentation.cpp:88-121 | the whitespace pass as written never lengthens the text. By its definition, not by its contract, it yields `None` when a block it visits runs empty |
| EditorDeindentation.DecreaseSelectionIndentAsWritten | src/QomposeCommon/editor/algorithm/Indentation.cpp:163-176 | as written: nothing changes without a selection, and the result never lengthens the text |
| EditorDeindentation.DeindentStep | src/QomposeCommon/editor/algorithm/Indentation.cpp:30-75 | one documented block step removes exactly the indentation string when the block starts with it, and otherwise leaves the text |
| EditorDeindentation.DeindentPass | src/QomposeCommon/editor/algorithm/Indentation.cpp:30-75 | the documented pass returns true exactly when at least one block was de-indented |
| EditorDeindentation.DecreaseSelectionIndent | src/QomposeCommon/editor/algorithm/Indentation.cpp:163-176 | the documented `decreaseSelectionIndent` never lengthens the text and changes nothing without a selection |
| EditorDeindentation.DropIndent | src/QomposeCommon/editor/algorithm/Indentation.cpp:56-69 | a block starting with the indentation string loses exactly that prefix; any other block is unchanged |
| EditorDeindentation.StripFrom | src/QomposeCommon/editor/algorithm/Indentation.cpp:101-116 | what the loop removes is leading whitespace, at most `width` characters, and the rest of the block is kept |
| EditorDeindentation.DeindentFrom | src/QomposeCommon/editor/algorithm/Indentation.cpp:42-75 | the documented pass over blocks `j` to `j + n - 1` drops one indentation string from each that has one, and reports whether any had one |
| EditorDeindentation.StripFromBlock | src/QomposeCommon/editor/algorithm/Indentation.cpp:88-121 | the documented whitespace pass over those blocks strips each as `StripFrom` says and changes no other text |
| EditorDeindentation.DecreaseIndentBlocks | src/QomposeCommon/editor/algorithm/Indentation.cpp:163-176 | with a selection, the selected blocks that start with the indentation string lose it when any does; otherwise each loses up to `width` leading whitespace characters, no tab after the first; nothing else changes and those blocks end up selected whole |
| EditorDeindentation.UndoIndentRange | src/QomposeCommon/editor/algorithm/Indentation.cpp:143-176 | on blocks, decreasing the indentation of a range just indented gives back the blocks |
| EditorDeindentation.DecreaseUndoesIncrease | src/QomposeCommon/editor/algorithm/Indentation.cpp:143-176 | decreasing the indentation right after increasing it restores the text, with the touched blocks selected whole |
| DeindentExamples.StartsAtCursorBlock | src/QomposeCommon/editor/algorithm/Indentation.cpp:51-73 | as written, the deindent pass starts in the block holding the cursor's position: for "  a\n  b" selected forwards from offset 0 to 7, cursor in the second block, only the second block loses its indentation, while the documented pass takes it from both |
| DeindentExamples.OneBlockTooMany | src/QomposeCommon/editor/algorithm/Indentation.cpp:96 | as written, both passes visit `blockCount + 1` blocks: in "x\n y" with offsets 0-1 selected, the unselected second block loses its space |
| DeindentExamples.TabNeverMatches | src/QomposeCommon/editor/algorithm/Indentation.cpp:58-65 | as written, with tab indentation and a width other than 1, the pass compares `width` characters with the one-character tab and never matches, so the whitespace pass runs. For "\ta\n b" with width 4 that pass removes the tab and also the second block's space, giving "a\nb" where the documented pass gives "a\n b" |
| DeindentExamples.EmptyBlockRead | src/QomposeCommon/editor/algorithm/Indentation.cpp:101-103 | as written, a block of two spaces with width 4 is emptied and its first character is then read, which `QString::at` does not allow |
| DeindentExamples.SeparatorCounted | src/QomposeCommon/editor/algorithm/Indentation.cpp:58-61 | as written, the block length counts the separator, so the selection runs into the next block, and the move to the next block then skips that block's indentation |
| EditorGeneral.SelectionStateOf | src/QomposeCommon/editor/algorithm/General.cpp:34-56 | the state holds the ordered selection ends and their block numbers, the start block is not after the end block, the block count is their distance plus one, and the cursor is restored |
| EditorGeneral.SetNormalizedSelection | src/QomposeCommon/editor/algorithm/General.cpp:58-67 | the anchor lands on the start of the state's first block and the position on the end of its last block, each clamped to the last block, in order |
| EditorGeneral.NormalizedBlocks | src/QomposeCommon/editor/algorithm/General.cpp:58-67 | in a document made of blocks, the normalized selection runs from offset 0 of the first selected block to the end of the last |
| EditorGeneral.Backspace | src/QomposeCommon/editor/algorithm/General.cpp:69-111 | with a selection, it is deleted; with space indentation and a whole number of indentations (all ' ') before the cursor, one indentation is deleted; otherwise the previous character is |
| EditorGeneral.BackspaceSelection | src/QomposeCommon/editor/algorithm/General.cpp:78-98 | the text `backspace` inspects is the block's text before the cursor, and its length and space test hold exactly when a whole indentation precedes the cursor |
| EditorGeneral.LeadingWhitespace | src/QomposeCommon/editor/algorithm/General.cpp:132-140 | the copied indentation is the longest all-whitespace prefix of the text before the selection |
| EditorGeneral.Newline | src/QomposeCommon/editor/algorithm/General.cpp:118-143 | the selection is replaced by `\n` and the leading whitespace of its first block's text before it, and the cursor ends after the insertion |
| EditorGeneral.NewlineKeepsIndent | src/QomposeCommon/editor/algorithm/General.cpp:118-143 | newline splits the document's blocks: the first keeps the text before the selection, and the new block starts with that block's indentation followed by the text after the selection |
| EditorGeneral.DuplicateBlock | src/QomposeCommon/editor/algorithm/General.cpp:145-159 | a `\n` and a copy of the cursor's block are inserted at the block's end, and the anchor and position are put back |
| EditorGeneral.DuplicateBlocks | src/QomposeCommon/editor/algorithm/General.cpp:145-159 | in a document made of blocks, duplicating puts a copy of the cursor's block right after it and leaves every other block alone |
| TextCursors.DeleteChar | src/QomposeCommon/editor/algorithm/General.cpp:113-116 | `deleteCharacter` removes the selection, or else the character after the cursor, and does nothing at the end of the document |
| TextCursors.DeletePreviousChar | src/QomposeCommon/editor/algorithm/General.cpp:110 | deleting backwards removes the selection, or else the character before the cursor, and does nothing at offset 0 |
| TextCursors.DeletePreviousUndoesInsert | src/QomposeCommon/editor/algorithm/General.cpp:110 | typing one character and deleting backwards restores the cursor and the document |
| TextCursors.DeleteUndoesInsert | src/QomposeCommon/editor/algorithm/General.cpp:113-116 | typing one character, stepping left and `deleteCharacter` restores the cursor and the document |
| TextCursors.InsertText | src/QomposeCommon/editor/algorithm/General.cpp:142 | inserting replaces the selection with the text and leaves the cursor, unselected, just after it |
| TextCursors.MoveLeft | src/QomposeCommon/editor/algorithm/General.cpp:103-105 | moving left by `n` stops at offset 0, keeps the anchor when asked, and otherwise drops the selection |
| TextCursors.Blocks | src/QomposeCommon/editor/algorithm/General.cpp:48-50 | every document is the `\n`-join of its block texts, none of which holds a separator |
| TextCursors.Located | src/QomposeCommon/editor/algorithm/General.cpp:48-50 | column `col` of block `j` lies in block number `j`, between that block's start and end |
| TextCursors.SetPosition | src/QomposeCommon/editor/algorithm/General.cpp:47-55 | an offset inside the document moves the cursor there, keeping or moving the anchor by the mode; an offset outside it is refused and the cursor is unchanged |
| TextCursors.MoveNextBlock | src/QomposeCommon/editor/algorithm/Movement.cpp:67-73 | moving by blocks never moves back, lands only just after a line separator, stays put in the last block, and keeps the anchor when asked to |
| EditorMovement.HomeAsWritten | src/QomposeCommon/editor/algorithm/Movement.cpp:30-65 | `home` as written keeps the document and leaves a valid cursor; its all-whitespace branch passes the enumerator `StartOfBlock` to `setPosition` |
| EditorMovement.HomeAsWrittenLandsOnFour | src/QomposeCommon/editor/algorithm/Movement.cpp:59-64 | as written, whenever only whitespace precedes the cursor in its block, `home` moves to absolute offset 4, whatever the block |
| EditorMovement.HomeAsWrittenLeavesBlock | src/QomposeCommon/editor/algorithm/Movement.cpp:59-64 | in "abcdef\n  x" with the cursor at offset 9, `home` as written lands at offset 4 in block 0, where the documented start of block 1 is offset 7 |
| EditorMovement.Home | src/QomposeCommon/editor/algorithm/Movement.cpp:30-65 | the intended `home` stays in the cursor's block, no later than the cursor: on the first non-space character when one precedes the cursor, else at the block start; the anchor follows only when asked |
| EditorMovement.HomeTwice | src/QomposeCommon/editor/algorithm/Movement.cpp:47-64 | pressing Home twice always reaches the start of the cursor's block |
| EditorMovement.GoToBlock | src/QomposeCommon/editor/algorithm/Movement.cpp:67-73 | `goToBlock` lands, without a selection, on the start of the requested block, clamped to 0 below and to the last block above |
| EditorMovement.NextBlocksAt | src/QomposeCommon/editor/algorithm/Movement.cpp:70-72 | moving `n` blocks on from a block start reaches the start of the block `n` further on, or of the last block |
| EditorMovement.GoToBlockOfOffset | src/QomposeCommon/editor/algorithm/Movement.cpp:67-73 | going to the block number of any offset reaches the start of that offset's block |
| EditorMovement.Deselect | src/QomposeCommon/editor/algorithm/Movement.cpp:75-78 | `deselect` keeps the position and text and leaves no selection |
| EditorMovement.DeselectKeepsUnselected | src/QomposeCommon/editor/algorithm/Movement.cpp:75-78 | `deselect` changes a cursor exactly when it has a selection |
| FindQueries.NewQuery | src/QomposeCommon/util/FindQuery.cpp:30-34 | a new query has an empty expression, wrapping on and every other option off |
| FindQueries.SetExpression | src/QomposeCommon/util/FindQuery.cpp:62-65 | the setter changes the expression and no other option |
| FindQueries.SetWrapping | src/QomposeCommon/util/FindQuery.cpp:86-89 | the setter changes wrapping and no other option |
| FindQueries.SetWholeWords | src/QomposeCommon/util/FindQuery.cpp:108-111 | the setter changes whole-word matching and no other option |
| FindQueries.SetCaseSensitive | src/QomposeCommon/util/FindQuery.cpp:128-131 | the setter changes case sensitivity and no other option |
| FindQueries.SetReversed | src/QomposeCommon/util/FindQuery.cpp:152-155 | the setter changes the direction and no other option |
| FindQueries.SetRegularExpression | src/QomposeCommon/util/FindQuery.cpp:174-177 | the setter changes the regular-expression option and no other option |
| FindQueries.GetFindFlags | src/QomposeCommon/util/FindQuery.cpp:191-205 | FindBackward is set exactly when reversing is both asked for and enabled, FindCaseSensitively exactly when case sensitive, FindWholeWords exactly when whole words, and no other bit |
| FindQueries.LegacyGetFindFlags | src/util/QomposeFindQuery.cpp:91-105 | the older class translates every query to the same flags as the newer one |
| FindQueries.FlagsDetermineOptions | src/QomposeCommon/util/FindQuery.cpp:191-205 | two queries give the same flags exactly when they agree on the encoded options |
| FindQueries.FlagsIgnoreOtherOptions | src/QomposeCommon/util/FindQuery.cpp:191-205 | wrapping, regular expressions and the expression never reach the flags |
| FindQueries.NewQueryHasNoFlags | src/QomposeCommon/util/FindQuery.cpp:191-205 | with the constructor's defaults (lines 30-34), a new query searches forward, case-insensitively, on any substring |

## Left out

- Popcount.OpopIsBitCount: proved only for zero-extended 32-bit words, which is every value a Qt modifier mask can hold; for full 64-bit inputs `Popcount.Opop` is defined but its count is not proved.
- Paths.CommonParentPath: paths are `seq<char>`, not the bytes of a `std::string`, so a common prefix that ends inside a multi-byte UTF-8 character is not modelled; the same holds for every member of `Paths`.
- Paths: `getCanonicalPath`, `stripSymlink` and `getSize` (src/QomposeCommon/fs/Paths.cpp:70-104) query the file system and are not modelled.
- PaneModels.FindPath: paths are compared as strings; the source compares `QFileInfo` objects, which can also match two spellings of one file through the file system.
- PaneModels.OpenDescriptor: the path is taken as given rather than resolved, and reading the file, with its failure, is not modelled.
- PaneModels.Reopen: the restored cursor offset is stored as given; `setPosition` refusing an offset past the end of the text is not modelled, because the buffer's text is not.
- PaneModels: `getCommonParentPath` (PaneModel.cpp:76-80) calls an external library, and `getDefaultDirectory` (PaneModel.cpp:82-113) reads the file system and the home directory; neither is modelled. A buffer's codec is kept as its name only; no text is decoded with it.
- TextCursors: a document is a sequence of code points. Qt counts positions in UTF-16 code units and steps by grapheme cluster. So every offset in the module is a code-point offset, including those given to TextCursors.SetPosition and those moved over by TextCursors.MoveNextCharacter, TextCursors.DeleteChar and TextCursors.DeletePreviousChar. Text outside the Basic Multilingual Plane and combining sequences are not modelled.
- TextCursors.MoveLeft: steps over code points, as the line above says. A `MoveAnchor` step with a selection moves one character back from the position, instead of collapsing the selection to its start as Qt does.
- EditorGeneral.Newline: moves to the start of the block, where the source asks for `StartOfLine`; the two agree because the model has no line wrapping.
- EditorGeneral.Backspace: requires a positive indentation width on the space path, where the source divides by the width.
- HotkeyMaps.AddHotkey: the position a new entry takes in the `QMultiHash` is a parameter, because the hash's iteration order is unspecified; `HotkeyMaps.OrderFree` shows that the result does not depend on it except for which of several equally good matches wins.
- Utf8StringRefs: cpp/src/core/string/Utf8Iterator.hpp is not part of this model; the view's iterator is assumed to behave as the src/core/Utf8Iterator.cpp iterator, which `Utf8Iterator` models.
- StringLists.DeserializeStrings: a declared length too large to allocate makes the source throw `std::bad_alloc`; the model reports it as a payload that cannot be read.
- PieceCursors: pieces are non-empty, as the piece table keeps them; default-constructed cursors and the reverse cursor's postfix operators (Cursor.cpp:166-178) are not modelled.
- RecentMenus.InitialCapacity: models the start of src/QomposeCommon/gui/menus/RecentMenu.cpp, which reads the capacity from the "recent-list-size" setting of the `Settings` instance. The copy in cpp/src/QomposeCommon/gui/menus/RecentMenu.cpp reads its capacity and list from the configuration fields `recent_list_size_max` and `recent_list`, and reloads them on change notifications. That configuration store is not modelled.
- Esc.ApplyWrite: standard output is a value holding the bytes written so far and the error a write or a flush would report; bytes accepted before a failing `write_all` gives up are not modelled. One write fault stands for the whole of standard output, so a sink either fails every write or none; the case in CursorReport.GetTerminalSize where the second write fails after the first succeeded is therefore not modelled.
- CursorReport.GetCursorPosition: standard input is a sequence of read events, each a byte or a read error, possibly ending before a reply is complete; a read that blocks is not modelled.
- RawMode.Enter: `tcgetattr` and `tcsetattr` act on a terminal value whose attributes and possible read and apply errors are given, not on a file descriptor.
- Qt widgets, menus, signals, settings storage, `QDataStream` and file I/O are not modelled beyond the values the modelled functions compute from them.

## Findings

| source | as written | input that shows it | evidently intended | confidence | as-written member | corrected member |
|---|---|---|---|---|---|---|
| cpp/src/QomposeCommon/editor/pane/PaneModel.cpp:121-131 | `movePane` negates the direction and copies each pane over the next, so the index walks away from the target | moving 0 to 1 in two panes leaves the first pane twice; moving 0 to 2 in three panes indexes outside the vector | the pane at `f` moves to `t` and the panes between shift by one | not executed | PaneModels.MovePaneAsWritten, PaneModels.MovePaneAsWrittenDuplicates, PaneModels.MovePaneAsWrittenOutOfRange | PaneModels.MovePane, PaneModels.MovePaneIsMoved |
| src/QomposeCommon/util/Strings.h:57-63 | `getMaxCommonSize` discards the result of `std::accumulate` and returns the initial `SIZE_MAX` | any non-empty list of paths, such as one path "/a" | the length of the shortest path | not executed | Paths.MaxCommonSizeAsWritten, Paths.MaxCommonSizeAsWrittenOverruns | Paths.MaxCommonSize |
| src/QomposeCommon/editor/algorithm/Movement.cpp:59-64 | `home` passes the enumerator `QTextCursor::StartOfBlock` (4) to `setPosition` as an offset | "abcdef\n  x" with the cursor at offset 9 lands at offset 4 in the first block | move to the start of the cursor's block | not executed | EditorMovement.HomeAsWritten, EditorMovement.HomeAsWrittenLeavesBlock | EditorMovement.Home, EditorMovement.HomeTwice |
| src/core/Utf8Iterator.cpp:325-329 | postfix `++` steps the iterator and returns the stepped copy | any valid iterator not at an end, such as the start of "A" | return the iterator as it was before the step | not executed | Utf8Iterator.PostNext, Utf8Iterator.PostNextReturnsSteppedCopy | Utf8Iterator.PostNextIntended, Utf8Iterator.PostNextIntendedReturnsOriginal |
| src/core/Utf8Iterator.cpp:337-341 | postfix `--` steps the iterator back and returns the stepped copy | an iterator on "B" in "AB" | return the iterator as it was before the step | not executed | Utf8Iterator.PostPrev, Utf8Iterator.PostPrevReturnsSteppedCopy | Utf8Iterator.PostPrevIntended, Utf8Iterator.PostPrevIntendedReturnsOriginal |
| src/core/Utf8Iterator.cpp:378-394 | reverse postfix `++` and `--` step the inner iterator and return the stepped object itself | a reverse iterator over "AB" whose inner iterator is on "B" | return the reverse iterator as it was before the step | not executed | Utf8Iterator.ReversePostNext, Utf8Iterator.ReversePostPrev, Utf8Iterator.ReversePostfixReturnsStepped | Utf8Iterator.ReversePostNextIntended, Utf8Iterator.ReversePostPrevIntended, Utf8Iterator.ReversePostfixIntendedReturnsOriginal |
| cpp/src/core/string/Utf8StringRef.cpp:150-153 | `back()` reads `*crbegin()`, and `crbegin()` is built from `cbegin()`, so it reads the value before the first code point, 0 | the view of "A" | the last code point of the view | not executed | Utf8StringRefs.BackIsAlwaysZero, Utf8StringRefs.BackMissesLastCodePoint | Utf8StringRefs.BackCorrected, Utf8StringRefs.BackCorrectedIsLast |
| src/QomposeCommon/editor/algorithm/Indentation.cpp:51-73 | the deindent pass starts at the block holding the cursor's position, not at the start of the selection | "  a\n  b" selected forwards from offset 0 to 7, cursor in the second block: only the second block loses its indentation | start at the first selected block | not executed | EditorDeindentation.DecreaseSelectionIndentAsWritten, DeindentExamples.StartsAtCursorBlock | EditorDeindentation.DecreaseSelectionIndent, EditorDeindentation.DecreaseIndentBlocks |
| src/QomposeCommon/editor/algorithm/Indentation.cpp:96 | both passes loop while `i <= blockCount`, one block past the selection | "x\n y" with offsets 0 to 1 selected: the unselected second block loses its space | visit exactly the selected blocks | not executed | EditorDeindentation.DecreaseSelectionIndentAsWritten, DeindentExamples.OneBlockTooMany | EditorDeindentation.DecreaseSelectionIndent, EditorDeindentation.DecreaseIndentBlocks |
| src/QomposeCommon/editor/algorithm/Indentation.cpp:58-65 | the deindent pass compares `width` characters with the indentation string, which in tab mode is one tab, so for every width other than 1 it never matches | "\ta\n b" selected whole in tab mode with width 4: the tab is removed by the whitespace pass, and the second block also loses its space | remove the leading tab of each selected block | not executed | EditorDeindentation.DecreaseSelectionIndentAsWritten, DeindentExamples.TabNeverMatches | EditorDeindentation.DecreaseSelectionIndent, EditorDeindentation.DecreaseIndentBlocks |
| src/QomposeCommon/editor/algorithm/Indentation.cpp:101-103 | the whitespace pass reads `text().at(0)` after removing characters, also when the block has become empty | a block of two spaces with width 4 | stop when the block is empty | not executed | EditorDeindentation.DecreaseSelectionIndentAsWritten, DeindentExamples.EmptyBlockRead | EditorDeindentation.DecreaseSelectionIndent, EditorDeindentation.DecreaseIndentBlocks |
| src/QomposeCommon/editor/algorithm/Indentation.cpp:58-61 | the block length used to bound the selection counts the separator | "x\n  y\n  z" selected whole with two-space indentation: the middle block keeps its indentation | take the indentation from every indented selected block | not executed | EditorDeindentation.DecreaseSelectionIndentAsWritten, DeindentExamples.SeparatorCounted | EditorDeindentation.DecreaseSelectionIndent, EditorDeindentation.DecreaseIndentBlocks |
| cpp/src/core/document/Cursor.cpp:160-164 | reverse `operator--` never clears the off-the-front flag | in the document "a", stepping back from the reverse end | come back onto the first code point | not executed | PieceCursors.RevPrevAsWritten, PieceCursors.RevPrevAsWrittenStaysOff | PieceCursors.RevPrev, PieceCursors.RevPrevUndoesRevNext |
| src/QomposeCommon/util/HotkeyMap.cpp:72-104 | the comment promises an exception when no hotkey matches, and the code returns a null handler | the map with no hotkeys | the comment's contract, an exception; callers may rely on the null instead | not executed | HotkeyMaps.Handler, HotkeyMaps.DocumentedThrowIsNull | HotkeyMaps.HandlerAsDocumented |
