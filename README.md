# texty editing core, modelled in Dafny

texty is a small terminal text editor with a Normal and an Insert mode.
This project models its editing and highlighting core:

- the `Row`, one line of text with a syntax tag per character;
- the `Document`, the rows of a file together with its file name, its dirty flag and its highlighting options;
- the key handling of the `Editor`: cursor movement, scrolling, mode switches, the edits typed in Insert mode, and the answer line that the prompt reads.

Where the source changes state in place, the model does so too:

- `Rows.Row`, `Documents.Document` and `Editors.Editor` are classes whose methods update their fields.
- Each of those methods is proved equal to a pure function of the old state. The functions live in `RowSpec`, `DocumentSpec` and `EditorSpec`, and the lemmas about them state what the editor promises:
  - undo;
  - the frame of an edit;
  - leftmost and rightmost search hits;
  - the lexer's classification and its output length;
  - the render window;
  - the save/open round trip;
  - the cursor staying on the text;
  - the view showing the cursor;
  - the prompt stopping at Enter or Esc.

Modules:

- `Wrappers` (`Option`);
- `Positions` (cursor `Position` and `SearchDirection`);
- `Highlighting` (tag `Type` and its colour);
- `RowSpec` and `Rows`;
- `DocumentSpec` and `Documents`;
- `EditorSpec` and `Editors`.

Modelling choices:

- **Text.** Row text is taken to be ASCII without line breaks (`RowSpec.IsGraphemeChar`). For such text, a byte index, a `char` index and a grapheme index coincide. The source mixes all three: `Row::find` maps byte offsets to grapheme indices, and `Row::insert` counts graphemes. Under this assumption the model has a single index.
- **Highlighting options.** A file type's options are a record: four feature flags (numbers, strings, characters and comments) plus the primary and secondary keyword lists.
- **Colours.** Colours are abstract tokens, not RGB values.
- **Terminal size.** The terminal size is a parameter. The text area is the terminal's height minus 2, saturating (src/terminal.rs:24-33); the caller passes that height.
- **Terminal events.** A terminal event is a value. The prompt reads from a finite sequence of events. When the sequence runs out, the read fails.

## Model

| member | source | states |
|---|---|---|
| Highlighting.ToColour | src/highlighting.rs:16-43 | no tag draws as a reset; exactly the four literal kinds get RGB colours; plain text is white, search hits cyan, primary keywords green, secondary keywords yellow |
| Highlighting.ToColourRoundTrip | src/highlighting.rs:16-43 | the tag can be read back from its colour |
| Highlighting.ToColourInjective | src/highlighting.rs:16-43 | two tags never share a colour |
| RowSpec.IsSeparator | src/row.rs:424-426 | a separator is ASCII punctuation or whitespace; no letter or digit is one, so a separator never sits inside a word |
| RowSpec.InsertAt | src/row.rs:61-81 | inserting a character lengthens the row by one |
| RowSpec.DeleteAt | src/row.rs:83-99 | a delete inside the row shortens it by one; at or past the end the length is kept |
| RowSpec.InsertAtPlacesChar | src/row.rs:61-81 | an insertion at or past the end appends; otherwise the character sits at the index, with the prefix kept and the suffix shifted right by one |
| RowSpec.DeleteUndoesInsert | src/row.rs:61-99 | deleting at the index just inserted at restores the row |
| RowSpec.InsertUndoesDelete | src/row.rs:61-99 | re-inserting the deleted character restores the row |
| RowSpec.SplitThenAppend | src/row.rs:101-130 | the two halves of a split, appended, give back the row; the first half is as long as the split index, capped at the row length |
| RowSpec.FirstOccurrenceIsLeftmost | src/row.rs:148-149 | a forward scan returns the leftmost occurrence at or after its start, and none when there is no such occurrence |
| RowSpec.LastOccurrenceFromIsRightmost | src/row.rs:150-151 | a backward scan returns the rightmost occurrence at or before its start, and none when there is none |
| RowSpec.FirstOccurrenceInSuffix | src/row.rs:143-149 | searching a suffix finds the whole row's leftmost hit after the cut, shifted by the cut |
| RowSpec.LastOccurrenceInPrefix | src/row.rs:143-151 | searching a prefix finds the whole row's rightmost hit that fits in it |
| RowSpec.FindForward | src/row.rs:132-165 | a forward find returns the leftmost occurrence at or after `at`; it finds nothing exactly when the query is empty, `at` is past the end, or there is no occurrence |
| RowSpec.FindBackward | src/row.rs:132-165 | a backward find returns the rightmost occurrence that ends by `at`; it finds nothing exactly when the query is empty, `at` is past the end, or no occurrence ends by `at` |
| RowSpec.FindExamples | src/row.rs:132-165 | worked forward, backward, empty-query and past-the-end finds |
| RowSpec.NumberEnd | src/row.rs:253-267 | a number runs over digits, `.`, `e` and `_` up to the first other character |
| RowSpec.QuoteEnd | src/row.rs:219-229 | a string runs to the next `"`, or to the end of the row |
| RowSpec.FirstMatchAt | src/row.rs:172-185 | the highlighters are tried in order, and the first that matches decides the tags |
| RowSpec.StepChain | src/row.rs:172-185 | one scan step tries numbers, strings, characters, comments, primary and then secondary keywords, and otherwise tags one plain character |
| RowSpec.FirstKeywordSpec | src/row.rs:353-381 | a keyword list yields no tags exactly when no keyword matches; otherwise it yields the tags of the first keyword in list order that matches |
| RowSpec.StepBounds | src/row.rs:172-185 | every step tags at least one character; only an unterminated string runs one tag past the end |
| RowSpec.StepPastEnd | src/row.rs:218-232 | a step past the end is an unterminated string, and it tags one more than the rest of the row |
| RowSpec.StepClassification | src/row.rs:167-409 | the first tag of a step is Number, String, Character or Comment exactly when that literal starts there; otherwise it is a primary keyword, then a secondary keyword, when one matches after a separator; otherwise it is plain; never a search hit; and the whole step carries one tag |
| RowSpec.StepIsRepeat | src/row.rs:172-185 | every step is one tag repeated |
| RowSpec.ScanUnfold | src/row.rs:172-185 | the scan is its first step followed by the scan from where that step ends |
| RowSpec.ScanAdvance | src/row.rs:172-185 | appending a step's tags to what is done keeps the scan's total |
| RowSpec.ScanLoopStep | src/row.rs:172-185 | one pass of the scan loop advances the index by exactly the tags it pushes; an overrun comes only from an unterminated string |
| RowSpec.ScanLength | src/row.rs:167-188 | a row gets one tag per character, or one extra when it ends inside an unterminated string |
| RowSpec.ScanFrom | src/row.rs:172-185 | the scan loop, from any point it reaches, ends with the length bound above |
| RowSpec.ScanNumberAndStringExamples | src/row.rs:211-273 | worked tags for numbers, strings, a digit after a letter, and an unterminated string |
| RowSpec.ScanKeywordExample | src/row.rs:353-381 | a keyword followed by a separator is tagged |
| RowSpec.ScanKeywordPrefixExample | src/row.rs:367-373 | a keyword that is the start of a longer word is not tagged |
| RowSpec.ScanKeywordAtEndExample | src/row.rs:367-377 | a keyword at the end of the row is tagged |
| RowSpec.ScanSecondaryKeywordExample | src/row.rs:383-409 | a word that is no primary keyword is tried against the secondary list and gets the secondary tag |
| RowSpec.ScanCharAndCommentExamples | src/row.rs:275-324 | worked tags for a character literal, an escaped one, and a comment running to the end |
| RowSpec.Overlay | src/row.rs:190-209 | the search overlay keeps the tag count |
| RowSpec.OverlayFirstOnly | src/row.rs:190-209 | only the first occurrence of the search word is tagged as a match; every other tag is kept |
| RowSpec.OverlayNoHit | src/row.rs:190-209 | with no word, an empty word or no occurrence, the tags are unchanged |
| RowSpec.ShownText | src/row.rs:48-52 | the drawn text has one character per character of the row: the same character, or a space for a tab |
| RowSpec.GlyphsAppend | src/row.rs:24-59 | the drawn text and colour changes of two pieces are the concatenation of each |
| RowSpec.RenderHeadShape | src/row.rs:38-53 | drawing one character emits its glyph, preceded by its colour only when the colour changes |
| RowSpec.RenderFromSplit | src/row.rs:35-55 | rendering a range is rendering its first character followed by rendering the rest |
| RowSpec.RenderStep | src/row.rs:35-55 | one pass of the render loop keeps the rendered total |
| RowSpec.RenderFromEmpty | src/row.rs:55-58 | an empty range draws nothing and ends with a colour reset |
| RowSpec.RenderFromGlyphs | src/row.rs:35-55 | the text drawn for a range is exactly that range of the row, with tabs as spaces |
| RowSpec.SwitchesCons | src/row.rs:38-45 | a colour that differs from the current one, put in front, keeps every emitted colour a change |
| RowSpec.RenderFromMarkers | src/row.rs:35-58 | every emitted colour differs from the one before it, and the output ends with a reset |
| RowSpec.RenderShowsWindow | src/row.rs:24-59 | rendering draws exactly the window `start..end`, clamped to the row, with the colour changes above and the first colour never white |
| RowSpec.HeadColours | src/row.rs:36-52 | the first character of a range is preceded by its own colour switch exactly when its tag differs from the active one |
| RowSpec.SwitchesAt | src/row.rs:36-46 | the switch due before each character is its tag's colour exactly when its tag differs from the previous character's tag, and nothing otherwise |
| RowSpec.RenderFromColours | src/row.rs:30-55 | the markers the renderer emits before each character are exactly the switches due there |
| RowSpec.RenderColoursWindow | src/row.rs:24-59 | over the clamped window, a colour marker stands before a character exactly when its tag differs from the previous character's tag (plain text before the window), and that marker is the tag's colour |
| RowSpec.RenderColoursExample | src/row.rs:24-59 | a worked render of two number characters: one number-colour switch, the two characters, then the reset |
| Rows.Row.From | src/row.rs:13-21 | a row holds the given text and no tags |
| Rows.Row.Empty | src/row.rs:6-11 | the default row is empty |
| Rows.Row.Len | src/row.rs:415-417 | the length is the number of characters |
| Rows.Row.IsEmpty | src/row.rs:419-421 | a row is empty exactly when it has no text |
| Rows.Row.Render | src/row.rs:24-59 | the render loop produces the render specification |
| Rows.Row.Insert | src/row.rs:61-81 | the row's text becomes the insertion, and the length grows by one |
| Rows.Row.Delete | src/row.rs:83-99 | the row's text becomes the deletion |
| Rows.Row.Append | src/row.rs:101-104 | the row's text is followed by the other row's |
| Rows.Row.Split | src/row.rs:106-130 | the row keeps the first half, and a fresh untagged row holds the second |
| Rows.Row.Find | src/row.rs:132-165 | the search loop returns the specified find |
| Rows.Row.Highlight | src/row.rs:167-188 | the tags become the scan of the text, overlaid with the first hit of the word |
| Rows.Row.ScanTokens | src/row.rs:172-185 | the scan loop produces exactly the scan specification |
| Rows.Row.HighlightToken | src/row.rs:172-185 | one call pushes one step's tags and advances past them |
| Rows.Row.HighlightMatches | src/row.rs:190-209 | the tags become the search overlay |
| Rows.Row.HighlightStrings | src/row.rs:211-236 | pushes the string's tags and reports whether a string started here |
| Rows.Row.HighlightNumbers | src/row.rs:238-273 | pushes the number's tags and reports whether a number started here |
| Rows.Row.HighlightChar | src/row.rs:275-302 | pushes the character literal's tags and reports whether one started here |
| Rows.Row.HighlightComments | src/row.rs:304-324 | pushes comment tags to the end of the row and reports whether a comment started here |
| Rows.Row.HighlightSubstring | src/row.rs:326-351 | matches exactly when the non-empty word occurs here, and then pushes one tag per character of the word |
| Rows.Row.HighlightKeywords | src/row.rs:353-381 | pushes the tags of the first matching keyword and reports whether there was one |
| Rows.Row.HighlightPrimaryKeywords | src/row.rs:383-395 | the keyword step for the primary list |
| Rows.Row.HighlightSecondaryKeywords | src/row.rs:397-409 | the keyword step for the secondary list |
| DocumentSpec.InsertChar | src/document.rs:56-72 | typing past the last row adds a row; otherwise the row count is kept |
| DocumentSpec.InsertNewline | src/document.rs:74-88 | a line break inside the document, or just past it, adds one row; further down it is ignored |
| DocumentSpec.Delete | src/document.rs:90-108 | only deleting at the end of a row that has a successor removes a row |
| DocumentSpec.InsertCharFrame | src/document.rs:56-72 | typing changes only the row typed in; past the end it appends a one-character row |
| DocumentSpec.InsertNewlineFrame | src/document.rs:74-88 | a line break splits its row in two at the cursor; the rows before and after it are kept |
| DocumentSpec.InsertNewlineRows | src/document.rs:83-87 | row by row: the rows above are kept, the split row gives the two halves, and the rows below move down by one |
| DocumentSpec.InsertNewlineSplits | src/document.rs:83-87 | the split is the first half in place with the second half inserted after it |
| DocumentSpec.DeleteJoinRemoves | src/document.rs:98-102 | deleting at the end of a row joins the next row onto it and removes that row |
| DocumentSpec.DeleteJoinRows | src/document.rs:98-102 | row by row: the rows above are kept, the joined row is the concatenation, and the rows below move up by one |
| DocumentSpec.DeleteUndoesInsertChar | src/document.rs:56-108 | deleting where a character was typed restores the document |
| DocumentSpec.DeleteUndoesInsertNewline | src/document.rs:74-108 | deleting where a line break was typed joins the rows back |
| DocumentSpec.DeleteJoinExample | src/document.rs:90-108 | worked joins and deletes, including the last row, which has nothing to join |
| DocumentSpec.InsertNewlineExample | src/document.rs:74-88 | worked line breaks inside a row, just past the last row, and further down |
| DocumentSpec.FindForwardFromSpec | src/document.rs:116-138 | the row-by-row forward search returns the first hit in reading order from the start position, and none exactly when there is none |
| DocumentSpec.FindBackwardFromSpec | src/document.rs:116-138 | the row-by-row backward search returns the last hit before the start position, and none exactly when there is none |
| DocumentSpec.DocFindForward | src/document.rs:110-141 | a forward document search finds the first occurrence at or after the cursor in reading order, and none exactly when the query is empty or there is none |
| DocumentSpec.DocFindBackward | src/document.rs:110-141 | a backward document search finds the last occurrence before the cursor, and none exactly when the query is empty or there is none |
| DocumentSpec.DocFindBelowEnd | src/document.rs:111-113 | a search from below the last row finds nothing |
| DocumentSpec.Serialize | src/document.rs:39-43 | a saved non-empty document ends with a line break |
| DocumentSpec.SerializePrefix | src/document.rs:39-43 | each row written adds its text and a line break |
| DocumentSpec.SerializeCons | src/document.rs:39-43 | the saved file is the first row, a line break, then the rest |
| DocumentSpec.LinesOfSerialize | src/document.rs:21-25 | opening a saved file gives back its rows, for rows that hold no line break and do not end in a carriage return |
| DocumentSpec.SaveReopenDropsTrailingCr | src/document.rs:21-41 | a row ending in a carriage return is written with `\r\n` and reads back without its carriage return, which is why the round trip above excludes such rows |
| DocumentSpec.LinesExamples | src/document.rs:21 | worked line splits: an empty line is kept, CRLF is stripped, no trailing empty line, a lone final carriage return is kept |
| DocumentSpec.LinesAreRows | src/document.rs:21-22 | every line of an ASCII file is valid row text |
| Documents.HighlightedRow | src/document.rs:22-23 | a fresh row holds the line, highlighted with no search word |
| Documents.RowsOf | src/document.rs:20-25 | one fresh highlighted row per line, in order |
| Documents.Document.Default | src/document.rs:8-14 | the default document is empty, unnamed, clean and plain text |
| Documents.Document.Open | src/document.rs:17-33 | the rows are the file's lines, highlighted; the name is kept, the document is clean and the options are the file type's |
| Documents.Document.Highlight | src/document.rs:50-54 | every row is rescanned with the document's options and the search word |
| Documents.Document.Insert | src/document.rs:56-72 | the text becomes the specified insertion, the document is dirty, the touched rows are rescanned, and no other row changes; a line break more than one line below the text leaves the rows as they are |
| Documents.Document.PushRow | src/document.rs:62-66 | typing past the end appends a fresh one-character row |
| Documents.Document.InsertIntoRow | src/document.rs:67-71 | typing in a row inserts into that row only and rescans it |
| Documents.Document.InsertNewline | src/document.rs:74-88 | the text becomes the specified line break; a fresh row appears just below the cursor row, or at the end, or nothing happens |
| Documents.Document.SplitRow | src/document.rs:83-87 | the cursor row is split in two, both halves are rescanned, and the second half is a fresh row inserted below |
| Documents.Document.SplitContent | src/document.rs:83-84 | the new row holding the second half is placed below the cursor row |
| Documents.Document.Delete | src/document.rs:90-108 | the text becomes the specified deletion; the document becomes dirty exactly when the cursor is on a row; a row is removed only on a join; no other row changes |
| Documents.Document.JoinRows | src/document.rs:98-102 | the next row is appended to the cursor row and removed; the joined row is rescanned |
| Documents.Document.JoinContent | src/document.rs:98-101 | the cursor row object holds the joined text |
| Documents.Document.DeleteInRow | src/document.rs:103-107 | a delete inside a row changes that row only and rescans it |
| Documents.Document.Find | src/document.rs:110-141 | the search loop returns the specified document search |
| Documents.Document.Save | src/document.rs:35-48 | without a name nothing happens; a failed create changes nothing; otherwise it writes every row followed by a line break, adopts the file type's options, rescans every row and becomes clean |
| Documents.Document.WriteRows | src/document.rs:39-43 | the data written is the serialised document, and every row is rescanned |
| Documents.Document.RescanRow | src/document.rs:42 | one row is rescanned with the document's options |
| Documents.Document.RowAt | src/document.rs:143-145 | there is a row exactly for indices below the row count, and it holds that row's text |
| Documents.Document.Len | src/document.rs:151-153 | the length is the number of rows |
| Documents.Document.IsEmpty | src/document.rs:155-157 | a document is empty exactly when it has no rows |
| EditorSpec.CurrentMode | src/editor.rs:455-460 | the mode's name has six letters and is "Normal" or "Insert" exactly for that mode |
| EditorSpec.Moved | src/editor.rs:385-446 | after a move the column is never past the end of the row landed on, and the row never passes the line just below the text |
| EditorSpec.MovedKeepsCursorValid | src/editor.rs:442-445 | a cursor on the text stays on the text after any move |
| EditorSpec.MovedSaturatesAtTop | src/editor.rs:401-432 | at the top, Up, PageUp and Home never move above the first row, and Left at the very start stays put |
| EditorSpec.MovedSaturatesAtBottom | src/editor.rs:402-426 | Down moves one row only while above the line below the text, PageDown stops at that line, and Right on that line goes to its start |
| EditorSpec.MovedWrapsAcrossRows | src/editor.rs:407-424 | Left at the start of a row goes to the end of the row above; Right at the end of a row goes to the start of the next |
| EditorSpec.MovedWithinRow | src/editor.rs:407-424 | inside a row, Left and Right move one column on the same row |
| EditorSpec.ScrolledAxis | src/editor.rs:367-383 | the view is kept while the cursor is visible; otherwise it moves just enough, to the cursor when it is before the view and so that the cursor is on the last line when it is after |
| EditorSpec.ScrollShowsCursor | src/editor.rs:367-383 | after scrolling, on a non-empty text area, the cursor is visible |
| EditorSpec.CommandOf | src/editor.rs:278-281 | exactly Control-q, Control-s and Control-f, with no other modifier, are quit, save and search |
| EditorSpec.ModeTransitions | src/editor.rs:282-314 | the mode changes to Insert exactly on `i` in Normal mode, and to Normal exactly on Esc in Insert mode |
| EditorSpec.NormalDoesNotEdit | src/editor.rs:282-314 | in Normal mode no key changes the text or marks it dirty |
| EditorSpec.InsertModeTypes | src/editor.rs:292-302 | in Insert mode a character or Enter is inserted at the cursor, which then moves right |
| EditorSpec.BackspaceAtStart | src/editor.rs:308-313 | Backspace at the start of the document does nothing |
| EditorSpec.BackspaceInRow | src/editor.rs:308-313 | Backspace inside a row removes the character before the cursor and moves the cursor onto its place |
| EditorSpec.BackspaceJoinsRows | src/editor.rs:308-313 | Backspace at the start of a row joins it onto the row above, with the cursor at the old end of that row |
| EditorSpec.BackspaceJoinExample | src/editor.rs:308-313 | a worked join of two rows by Backspace |
| EditorSpec.DeleteKeepsCursorValid | src/editor.rs:303-307 | Delete leaves the cursor on the text |
| EditorSpec.DispatchKeepsCursorValid | src/editor.rs:274-326 | every event leaves the cursor on the text |
| EditorSpec.DropLast | src/editor.rs:343 | the corrected Backspace removes exactly the last character of the answer |
| EditorSpec.PromptEndsAtFirstEnd | src/editor.rs:336-364 | the prompt's result is decided at the first Enter or Esc, by the edits before it; Esc gives no answer |
| EditorSpec.PromptWaitsForEnd | src/editor.rs:336-339 | without Enter or Esc the prompt never answers, and the terminal read fails |
| EditorSpec.PromptAnswerClean | src/editor.rs:345-349 | an answer is never empty and holds no control characters |
| EditorSpec.PromptEditExample | src/editor.rs:342-349 | a worked edit sequence with typing and Backspace |
| EditorSpec.PromptSkipsControlExample | src/editor.rs:345-349 | a typed control character is skipped |
| EditorSpec.PromptCancelExamples | src/editor.rs:350-364 | Esc cancels, and Enter on an empty answer gives no answer |
| EditorSpec.Utf8Width | src/editor.rs:343 | a character takes one to four bytes, and one exactly when it is ASCII |
| EditorSpec.Utf8Len | src/editor.rs:343 | the byte length of a string is at least its character count |
| EditorSpec.Utf8LenAppend | src/editor.rs:343 | appending a character adds its UTF-8 width to the byte length |
| EditorSpec.TruncateAtEnd | src/editor.rs:343 | truncating at the byte length of a prefix gives back that prefix |
| EditorSpec.BackspaceAsWrittenOnAscii | src/editor.rs:343 | the byte truncation removes the last character when it is ASCII |
| EditorSpec.BackspaceAsWrittenPanics | src/editor.rs:343 | the byte truncation has no valid result on the printable answer "é" |
| EditorSpec.DropLastRemovesLast | src/editor.rs:343 | the corrected Backspace, also as the prompt applies it, removes exactly the last character typed, whatever its width |
| Editors.Editor.constructor | src/editor.rs:78-86 | a new editor starts in Normal mode with the cursor and the view at the origin |
| Editors.Editor.CalculateWidth | src/editor.rs:388-394 | the width read from the document is the specified row width |
| Editors.Editor.MoveCursor | src/editor.rs:385-446 | the cursor becomes the specified move |
| Editors.Editor.Scroll | src/editor.rs:367-383 | the view becomes the specified scroll |
| Editors.Editor.TypeAtCursor | src/editor.rs:293-300 | a typed character or line break is inserted at the cursor, the cursor moves right, and the document is dirty |
| Editors.Editor.DeleteAtCursor | src/editor.rs:303-307 | the document becomes the specified delete at the cursor |
| Editors.Editor.BackspaceAtCursor | src/editor.rs:308-313 | the cursor moves left and the document deletes there |
| Editors.Editor.NormalModeChar | src/editor.rs:283-291 | in Normal mode, `h`, `j`, `k`, `l` move and `i` switches to Insert |
| Editors.Editor.HandleKey | src/editor.rs:282-323 | a non-command key updates the mode, cursor, text and dirty flag as specified |
| Editors.Editor.ProcessKeypress | src/editor.rs:274-329 | one event updates the mode, cursor, text and dirty flag as specified, returns any command, scrolls to the cursor, and keeps the cursor on the text |
| Editors.Editor.Prompt | src/editor.rs:331-365 | the prompt loop returns the specified answer for the events read; its Backspace is the corrected `DropLast` (see Findings), not the byte truncation at src/editor.rs:343 |

## Left out

- The terminal itself (src/terminal.rs): raw mode, cursor drawing and reading keys. The terminal size is a parameter, and events are values.
- Screen drawing (`refresh_screen`, `draw_rows`, the status and message bars), the status message and its timestamp, and the welcome line. They draw only and change no editing state.
- `Editor::default` reading the command line and choosing between `Document::open` and `Document::default`: process arguments are I/O. Both document constructors are modelled.
- `Editor::run`, `quit`, `save_file` and `search`. `process_keypress` hands back the Control-q, Control-s or Control-f command instead of performing it. Their prompts, file writes and search callbacks drive I/O. The parts they call are modelled: `Document::save`, `Document::find`, `Document::highlight` and the prompt loop.
- The prompt's per-key callback and its redraws. A failed terminal read is modelled as the event sequence running out.
- File-system calls. `Document::open` takes the file's contents and its file type as parameters. `Document::save` takes the file type of the name and whether `File::create` succeeded, and it returns the bytes written. A failure in the middle of a write is not modelled.
- `FileType::from` and the keyword tables. The file type's options are parameters.
- Unicode grapheme segmentation and byte-to-grapheme index mapping. Row text is ASCII, where all three indices agree. Only the prompt answer, where the byte length matters for the finding below, models UTF-8 byte widths.
- `usize` and `u16` widths: all integers are unbounded, so `saturating_add` never saturates. Wrap-around at 2^64 is not modelled.
- Key modifiers are reduced to "Control alone" and "something else", which is all `process_keypress` distinguishes.
- Editors.Editor.ProcessKeypress: requires that a typed character is valid row text (ASCII, not a line break). The source would insert any Unicode character and count it by graphemes.
- Documents.Document.Save: sets the dirty flag and rescans the rows only when the whole write succeeds, as the source does. A write that fails part way is not modelled; in the source it leaves the earlier rows rescanned.
- Documents.Document.IsDirty is a plain field read, so it has no contract of its own. The dirty flag appears in the contracts of `Insert`, `Delete`, `Save`, `Open` and `ProcessKeypress`.

## Findings

| source | as written | input that shows it | evidently intended | confidence | as-written member | corrected member |
|---|---|---|---|---|---|---|
| src/editor.rs:343 | Backspace in the prompt truncates the answer to its byte length minus one | type "é" (two bytes in UTF-8) at the prompt, then press Backspace: byte 1 is not a character boundary, so `String::truncate` panics | remove the last character (`String::pop`) | high, not executed | EditorSpec.BackspaceAsWrittenPanics | EditorSpec.DropLastRemovesLast |
