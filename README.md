# NLP-Project core, modelled in Dafny

This project models two of the repository's programs. One is an eye-blink detector that
watches a webcam. The other is a WhatsApp chat dashboard, in two variants
(`app.py` and `uiapp.py`). The model covers the logic inside them that
does not depend on a camera, a UI or a plotting library:

- **Blink arming** (`blink.dfy`, module `BlinkDetection`). The detector keeps
  one flag, `first_read`, across its frame loop. Per face, the eye count and
  the flag pick the overlay: "press s to begin", "eyes open", "no eyes", or a
  blink. A blink sets the flag again. A frame without a face leaves it alone.
  After the faces of a frame, `q` ends the loop and `s` clears a set flag.
  `BlinkMonitor` is the loop as a class with a `firstRead` field. Its methods
  are proved against the step functions `FaceStep`, `FacesStep`, `FrameStep`,
  `KeyStep` and `Run`. The trace lemmas show that armings by `s` (an `s`
  that finds the flag set and clears it) and blinks strictly alternate,
  starting with an arming; an `s` pressed while the flag is clear is ignored.
- **Chat export import** (`chat_export.dfy`, module `ChatExport`). The export
  is cut at every date-time header, with the pattern for the chosen 12-hour
  or 24-hour layout. The text before the first header is dropped. Each
  remaining segment is split at the first "non-empty prefix, `:`,
  whitespace" into user and message, or else becomes a group notification.
  `uiapp.py` reads the file in text mode, so `\r\n` and a lone `\r` become
  line breaks, and then turns every line break into a space; `app.py` decodes
  the upload and keeps carriage returns. Both regular
  expressions are hand-written matchers. The header matcher is proved equal
  to the backtracking meaning of its pattern, and the scan is proved equal to
  a reference definition of `re.split`/`re.findall`.
- **Top-10 tables and report sections** (`tally.dfy`, module `Tally`;
  `chat_analysis.dfy`, module `ChatAnalysis`). Messages per date, messages
  per user, media messages per user and emoji characters are each counted,
  ordered by count descending and cut to ten rows. `IsTopTally` says what
  such a table is. The reference definition `Top` tallies keys in order of
  first occurrence and sorts them stably, as `Counter.most_common` does. Each PDF section falls back to "No data available for …"
  when its table is missing or empty.

External inputs become parameters:
- the eye counts of the faces in each frame, and the key read after it;
- which characters are emoji (`isEmoji`);
- which date a header denotes (`dateOf`);
- how a table is rendered as text (`render`).

In the detector:
- a frame without a face shows "No face detected" and never counts as a
  blink;
- every face of a frame is examined, in detection order;
- the key is read once per frame, after all faces;
- eye counts are list lengths, so they are never negative.

`app.py` and `uiapp.py` duplicate the import and the counting. `ImportChat`
covers both, with `joinLines` set for `uiapp.py`. `import_data` in
`uiapp.py` only forwards to `rawToDf`, so both are `ImportChat` with
`joinLines = true`.

One consequence is proved (`TrailingSpaceIsNoMedia`). The media test compares
the whole message with `<Media omitted>`. A segment that ends in whitespace
therefore never counts as media. That whitespace is the line break before the
next header in `app.py`, or the space it becomes in `uiapp.py`.

## Model

| member | source | states |
|---|---|---|
| BlinkDetection.BlinkMonitor.constructor | Eye_Blink_Detection.py:10 | `first_read` is true before any frame is processed |
| BlinkDetection.FaceStep | Eye_Blink_Detection.py:49-65 | a face is a blink exactly when it has fewer than two eyes while the flag is clear; only a blink changes the flag, and it sets it; with two or more eyes only the overlay depends on the flag; fewer than two eyes with the flag set shows "No eyes detected" |
| BlinkDetection.BlinkMonitor.ObserveFace | Eye_Blink_Detection.py:49-65 | the overlay chosen and the new `firstRead` are those of FaceStep on the old flag |
| BlinkDetection.FacesStep | Eye_Blink_Detection.py:40-65 | one overlay per face; at most one blink per frame; a blink means the flag was clear and is now set; without a blink the flag is unchanged |
| BlinkDetection.FrameStep | Eye_Blink_Detection.py:39-68 | a frame without faces shows only "No face detected" and keeps the flag; otherwise one overlay per face, none of them "No face", at most one blink |
| BlinkDetection.BlinkMonitor.ObserveFrame | Eye_Blink_Detection.py:39-68 | the loop over the faces leaves the overlays and `firstRead` that FrameStep prescribes |
| BlinkDetection.KeyStep | Eye_Blink_Detection.py:74-78 | the loop stops exactly on `q`; the flag changes exactly when `s` is pressed while it is set, and then it is cleared; any other key changes nothing |
| BlinkDetection.BlinkMonitor.HandleKey | Eye_Blink_Detection.py:74-78 | the new `firstRead` and the stop decision are those of KeyStep on the old flag |
| BlinkDetection.BlinkMonitor.Step | Eye_Blink_Detection.py:39-78 | one pass of the loop body yields exactly the events, flag and stop decision of FrameEvents |
| BlinkDetection.FrameEvents | Eye_Blink_Detection.py:39-78 | one pass of the loop body: the overlays of FrameStep, then `Quit` on `q` or `Armed` when the key cleared the flag; its meaning is given by FrameMilestones, FrameAlternates and FrameNoStart |
| BlinkDetection.Run | Eye_Blink_Detection.py:26-78 | the loop over the frames, stopping at the first `q`; characterised by RunAlternates, BlinkNeedsStart and NoStartNoBlink, and tied to the loop by Advance and Monitor |
| BlinkDetection.BlinkMonitor.Advance | Eye_Blink_Detection.py:26-78 | one pass of the loop appends its frame's events to the log; the log followed by the run over the frames still to come stays the same, and after `q` the log is the whole run |
| BlinkDetection.BlinkMonitor.Monitor | Eye_Blink_Detection.py:24-78 | the first captured frame is discarded; the log and final flag are those of Run over the remaining frames, ending at `q` or at the last frame |
| BlinkDetection.RunSession | Eye_Blink_Detection.py:10-78 | a whole session logs Run from a set flag, and never reports more blinks than `s` presses that cleared the flag |
| BlinkDetection.FrameAlternates | Eye_Blink_Detection.py:40-78 | within one frame, the blink (if any) precedes the arming by `s` (if any), and the new flag says which of the two may come next |
| BlinkDetection.FrameMilestones | Eye_Blink_Detection.py:39-78 | the blinks and armings of one frame are its blink, exactly when the faces changed the flag, then the arming, exactly when the key cleared it |
| BlinkDetection.RunAlternates | Eye_Blink_Detection.py:40-78 | over any run, arming by `s` and blinks strictly alternate, and the final flag says which comes next |
| BlinkDetection.BlinkNeedsStart | Eye_Blink_Detection.py:57-78 | from the initial flag, every blink comes right after an arming by `s`, and blinks never outnumber such `s` presses |
| BlinkDetection.FrameNoStart | Eye_Blink_Detection.py:49-78 | with the flag set and a key other than `s`, a frame reports no blink and no arming and leaves the flag set |
| BlinkDetection.NoStartNoBlink | Eye_Blink_Detection.py:74-78 | without an `s` key the flag stays set and no blink or arming is ever reported |
| ChatExport.DigitRun | app.py:80-81 | the digits a `\d` run can take at a position: all of them are digits, and the character after them is not |
| ChatExport.PieceTake | app.py:80-81 | one piece of a header pattern taken at a position; a match ends within the text |
| ChatExport.MatchAt | app.py:80-81 | the header pattern matched piece by piece at a position; a match ends within the text and is non-empty when the pattern starts with a digit run; GreedySound and GreedyComplete give its meaning |
| ChatExport.HeaderPattern | app.py:79-82 | both header patterns put a non-digit after every digit run and start with a digit run of at least one digit |
| ChatExport.HeaderMatcher | app.py:79-82 | a header match at a position is never empty and ends within the text |
| ChatExport.GreedySound | app.py:79-82 | every match of the greedy matcher is a match of the pattern under backtracking |
| ChatExport.GreedyComplete | app.py:79-82 | every backtracking match of the pattern is the one the greedy matcher finds |
| ChatExport.GreedyIsBacktracking | app.py:79-82 | the greedy matcher finds a header of a given length exactly when the pattern matches it; so a header has one length |
| ChatExport.SplitFrom | app.py:91-92 | the scan behind `re.split` and `re.findall`: one more piece than headers; ReSplitCharacterized and ReSplitLossless give its meaning |
| ChatExport.ReSplit | app.py:91 | `re.split` always returns at least one piece; ReSplitCharacterized and ReSplitLossless give its meaning |
| ChatExport.ReFindAll | app.py:91-92 | once the text before the first header is dropped, there is one segment per header |
| ChatExport.ReSplitCharacterized | app.py:91-92 | the segments and headers are exactly the leftmost non-overlapping split at headers, and no other pair of lists is |
| ChatExport.ReSplitLossless | app.py:91-92 | the dropped prefix, the headers and the segments, interleaved, give back the text |
| ChatExport.ReFindAllHeaders | app.py:80-92 | every header `re.findall` returns, taken on its own, matches the header pattern in full |
| ChatExport.MatchIsMatch | app.py:80-92 | a match the scan finds at a position of the text, cut out of it, is a full match of the pattern under backtracking |
| ChatExport.ColonSpaceFrom | app.py:99 | the result is the first `:`+whitespace at or after the start position, or none when there is none |
| ChatExport.SplitUserFrom | app.py:99 | the split with one capture group always has an odd number of parts |
| ChatExport.UserAndMessage | app.py:99-105 | the user and message of one segment (also uiapp.py:48-54); characterised for every segment by GroupNotificationSegment and UserSegment, bounded by MessageIsSuffix |
| ChatExport.GroupNotificationSegment | app.py:99-105 | without a non-empty prefix followed by `:` and whitespace, the user is `group_notification` and the message the whole segment |
| ChatExport.UserSegment | app.py:99-102 | otherwise the user is the shortest such prefix, and the message is the rest of the segment, or empty when the rest has such a separator itself |
| ChatExport.MessageIsSuffix | app.py:99-105 | a message is empty or a suffix of its segment |
| ChatExport.UserAndMessageFromSegment | app.py:97-106 | a character absent from the segment and from `group_notification` is absent from the user and the message |
| ChatExport.SplitUsers | app.py:97-106 | exactly one (user, message) pair per segment, in input order |
| ChatExport.SplitOn | uiapp.py:39 | `str.split(sep)` gives at least one piece and no piece holds the separator; SplitJoinRoundTrip and JoinSplitReplaces give the rest |
| ChatExport.JoinWith | uiapp.py:39 | `sep.join(parts)`; its meaning is given by SplitJoinRoundTrip and JoinSplitReplaces |
| ChatExport.JoinSplitReplaces | uiapp.py:39 | splitting at line breaks and joining with spaces replaces each line break by one space and changes nothing else |
| ChatExport.SplitJoinRoundTrip | uiapp.py:39 | joining the split pieces with the separator gives back the text |
| ChatExport.UniversalNewlines | uiapp.py:38-39 | text read in text mode holds no carriage return and is never longer than the raw text |
| ChatExport.UniversalNewlinesKeepsPlainText | uiapp.py:38-39 | text without carriage returns is read unchanged |
| ChatExport.UniversalNewlinesCrLf | uiapp.py:38-39 | a `\r\n` line end is read as a single line break, the text before it unchanged |
| ChatExport.UniversalNewlinesLoneCr | uiapp.py:38-39 | a `\r` not followed by `\n` is read as a single line break, the text before it unchanged |
| ChatExport.JoinLines | uiapp.py:39 | the joined text has the same length, a space where each line break was, the same character elsewhere, and no line break |
| ChatExport.ExportText | app.py:89 | app.py cuts the decoded text as it is, carriage returns included; uiapp.py (uiapp.py:38-39) cuts a text with no line break and no carriage return, never longer than the raw text |
| ChatExport.ImportChat | app.py:77-110 | one row per header, in order, with that header and the user and message of the segment after it; with the file read in text mode and lines joined first (`rawToDf` in `uiapp.py`), no header, user or message contains a line break or a carriage return |
| ChatExport.AbsentFromRows | app.py:91-106 | a character absent from the text and from `group_notification` is absent from every header, user and message |
| Tally.Distinct | app.py:140-143 | the keys of the input, each once |
| Tally.Tally | app.py:140-143 | one row per distinct key, in order of first occurrence (the order a Counter keeps), each with its number of occurrences (at least one); every key of the input has its row |
| Tally.Insert | app.py:123 | inserting a row adds exactly that row |
| Tally.SortDescending | app.py:123 | the sorted table is a permutation of the input with non-increasing counts |
| Tally.DistinctOrder | app.py:140-143 | the distinct keys come in the order of their first occurrence, the order in which a Counter first sees them |
| Tally.InsertStable | app.py:145 | inserting a row puts it ahead of every row of equal count and moves no other row of that count |
| Tally.SortStable | app.py:145 | the sort is stable: the rows of any one count keep their input order, so `most_common` lists equal counts in first-insertion order |
| Tally.Take | app.py:123 | `head(limit)` is the prefix of length `limit`, or everything when there are fewer rows |
| Tally.TakeIsTopTally | app.py:123 | the first `limit` rows of a descending table with one exact count per distinct key form a top-`limit` table |
| Tally.Top | app.py:123 | the reference for `sort_values(...).head(n)` and `most_common(n)`: tally, stable descending sort, first `n` rows; its meaning is given by TopIsTopTally, SortStable and DistinctOrder |
| Tally.TopIsTopTally | app.py:120-129 | the top table has as many rows as distinct keys but at most `limit`, each a key of the input with its exact count, no key twice, counts non-increasing, and no key left out occurs more often than any key kept |
| Tally.TopTallyCountsUnique | app.py:120-129 | any two tables meeting the specification have the same count at every position; only the order among equal counts may differ |
| Tally.Counter.constructor | app.py:140 | a new Counter has counted nothing |
| Tally.Counter.Add | app.py:143 | counting one more key keeps the counts equal to the occurrences of everything added |
| Tally.Counter.Update | app.py:143 | `update(items)` counts every item once more, in order |
| Tally.Counter.MostCommon | app.py:145 | `most_common(n)` is the reference table Top of everything added, hence a top-`n` table of it |
| ChatAnalysis.MediaMessages | app.py:133 | a message is kept, as often as it occurs, exactly when its text is `<Media omitted>` |
| ChatAnalysis.EmojiChars | app.py:142 | each emoji character of a message is kept as often as it occurs, and nothing else is kept |
| ChatAnalysis.EmojiStream | app.py:141-143 | only emoji characters reach the Counter |
| ChatAnalysis.EmojiStreamCounts | app.py:140-143 | each emoji character is counted once per occurrence in every message; other characters are not counted |
| ChatAnalysis.TopDays | app.py:120-123 | the days table is a top-10 table of the messages' dates |
| ChatAnalysis.TopUsers | app.py:125-129 | the users table is a top-10 table of the messages' users |
| ChatAnalysis.TopMediaUsers | app.py:131-136 | the media table is a top-10 table of the users of media messages |
| ChatAnalysis.OnlyMediaCounts | app.py:133 | a message whose text is not `<Media omitted>` leaves the media table unchanged |
| ChatAnalysis.MediaTableUsersSentMedia | app.py:131-136 | every user in the media table sent `<Media omitted>` at least once |
| ChatAnalysis.MediaMessageSent | app.py:133 | every media message is a message of the input, and its text is `<Media omitted>` |
| ChatAnalysis.TrailingSpaceIsNoMedia | app.py:133 | a segment ending in whitespace never has `<Media omitted>` as its message |
| ChatAnalysis.CountEmojis | app.py:138-145 | the emoji table is `most_common(10)` of the Counter fed message by message: the top-10 table of all emoji characters |
| ChatAnalysis.TopTallyEmpty | app.py:120-136 | a top-10 table is empty exactly when its input column is |
| ChatAnalysis.SectionText | app.py:166-186 | a missing or empty table gives "No data available for" and the title; any other table gives its rendering |
| ChatAnalysis.DaysSection | app.py:168-171 | the days section falls back exactly when there are no messages |
| ChatAnalysis.UsersSection | app.py:173-176 | the users section falls back exactly when there are no messages |
| ChatAnalysis.MediaSection | app.py:178-181 | the media section falls back exactly when no message is `<Media omitted>` |
| ChatAnalysis.EmojisSection | app.py:183-186 | the emoji section falls back exactly when no message holds an emoji character |

## Left out

- Camera probing, frame capture, image filtering, Haar-cascade face and eye detection, drawing, `imshow` and `destroyAllWindows`: device and image I/O. Each frame is given as the eye counts of its faces and the key read after it.
- The blink snapshot (`imwrite`), its `strftime` timestamp file name and the 3-second `waitKey` pause: file and clock I/O. A blink is the event `Shown(Blink)`.
- Console `print` calls in the detector: output only.
- Streamlit UI (`main`, uploaders, selectors, buttons, `st.write`/`st.dataframe`): user interface.
- Plotting (`plot_time_series`, `plot_activity`): matplotlib and seaborn calls.
- PDF layout and output (FPDF calls, latin-1 re-encoding, images, temporary files, `generate_pdf`): document rendering. A table's text form (`to_string(index=False)`) is the `render` parameter.
- Reading the uploaded or opened file: I/O. The model starts from the decoded text.
- `pd.to_datetime` on the headers and `preprocess_data` (day, month, hour, date columns): library date handling. Headers stay strings, and the date of a header is the `dateOf` parameter. A header that `to_datetime` rejects would raise; that error path is not modelled.
- The contents of `emoji.EMOJI_DATA` and `emoji.demojize`: a foreign database. Emoji membership is the `isEmoji` parameter, and the description column is not modelled.
- DataFrame construction and in-place column changes: modelled as the returned list of `Message` rows.
- ChatExport.IsDigit: `\d` also matches non-ASCII decimal digits in Python; only ASCII digits are modelled.
- ChatAnalysis.TopDays: pandas does not specify the order among equal counts in `sort_values` and `value_counts`. The specification `IsTopTally` leaves that order open; the reference definition `Top` uses one stable order.
- ChatAnalysis.TopUsers: same tie-order caveat as TopDays.
- Tally.Tally: `groupby(...).size()` (app.py:122) lists the dates in sorted key order, while Tally keeps the order of first occurrence that a Counter keeps. The sorted key order is not modelled. It only changes the order among equal counts and which tied dates `head(10)` keeps, and IsTopTally leaves both open.
