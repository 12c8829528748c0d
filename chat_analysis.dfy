/** The dashboard's top-10 tables and the report's section texts.

    Every table is a top-10 count table (Tally.IsTopTally) over one column of
    the imported messages: the dates, the users, the users of media messages,
    or the emoji characters of all messages. Which characters are emoji and
    which date a header denotes are parameters (`isEmoji`, `dateOf`).
*/
module ChatAnalysis {
  import opened ChatExport
  import opened Tally

  /** `head(10)` and `most_common(10)`. */
  const TableSize: nat := 10

  /** The text WhatsApp puts in place of an attachment. */
  const MediaOmitted: string := "<Media omitted>"

  // ---------------------------------------------------------------------------
  // Columns
  // ---------------------------------------------------------------------------

  /** The `date` column: the date of each message's header. */
  function Dates<D>(rows: seq<Message>, dateOf: string -> D): (ds: seq<D>)
    ensures |ds| == |rows|
    ensures forall i :: 0 <= i < |rows| ==> ds[i] == dateOf(rows[i].dateTime)
  {
    seq(|rows|, i requires 0 <= i < |rows| => dateOf(rows[i].dateTime))
  }

  /** The `user` column. */
  function Users(rows: seq<Message>): (us: seq<string>)
    ensures |us| == |rows|
    ensures forall i :: 0 <= i < |rows| ==> us[i] == rows[i].user
  {
    seq(|rows|, i requires 0 <= i < |rows| => rows[i].user)
  }

  /** `df[df['message'] == '<Media omitted>']`: exactly the messages whose text
      is the media placeholder, each as often as in the input, in order. */
  function MediaMessages(rows: seq<Message>): (media: seq<Message>)
    ensures forall m :: multiset(media)[m] == if m.text == MediaOmitted then multiset(rows)[m] else 0
    decreases |rows|
  {
    if rows == [] then []
    else
      var last := rows[|rows| - 1];
      assert rows == rows[..|rows| - 1] + [last];
      MediaMessages(rows[..|rows| - 1]) + if last.text == MediaOmitted then [last] else []
  }

  /** `[c for c in msg if c in emoji.EMOJI_DATA]`: the emoji characters of one message, in order. */
  function EmojiChars(msg: string, isEmoji: char -> bool): (es: string)
    ensures forall c :: multiset(es)[c] == if isEmoji(c) then multiset(msg)[c] else 0
    decreases |msg|
  {
    if msg == [] then []
    else
      var last := msg[|msg| - 1];
      assert msg == msg[..|msg| - 1] + [last];
      EmojiChars(msg[..|msg| - 1], isEmoji) + if isEmoji(last) then [last] else []
  }

  /** Every emoji character of every message, message by message: what the
      Counter of analyze_top10_emojis is fed. */
  function EmojiStream(rows: seq<Message>, isEmoji: char -> bool): (es: string)
    ensures forall c :: c in es ==> isEmoji(c)
    decreases |rows|
  {
    if rows == [] then []
    else
      var es := EmojiChars(rows[|rows| - 1].text, isEmoji);
      assert forall c :: c in es ==> c in multiset(es);
      EmojiStream(rows[..|rows| - 1], isEmoji) + es
  }

  // ---------------------------------------------------------------------------
  // The four tables
  // ---------------------------------------------------------------------------

  /** analyze_top10_days (app.py:120-123): messages per date, the ten busiest dates. */
  function TopDays<D(==,!new)>(rows: seq<Message>, dateOf: string -> D): (table: seq<Row<D>>)
    ensures IsTopTally(Dates(rows, dateOf), TableSize, table)
  {
    TopIsTopTally(Dates(rows, dateOf), TableSize);
    Top(Dates(rows, dateOf), TableSize)
  }

  /** analyze_top10_users (app.py:125-129): messages per user, the ten most active users. */
  function TopUsers(rows: seq<Message>): (table: seq<Row<string>>)
    ensures IsTopTally(Users(rows), TableSize, table)
  {
    TopIsTopTally(Users(rows), TableSize);
    Top(Users(rows), TableSize)
  }

  /** analyze_top10_media_users (app.py:131-136): media messages per user, the ten
      users who sent the most. */
  function TopMediaUsers(rows: seq<Message>): (table: seq<Row<string>>)
    ensures IsTopTally(Users(MediaMessages(rows)), TableSize, table)
  {
    TopUsers(MediaMessages(rows))
  }

  /** analyze_top10_emojis (app.py:138-143, uiapp.py:86-92): a Counter updated
      with the emoji characters of each message in turn, then its ten most
      common entries. */
  method CountEmojis(rows: seq<Message>, isEmoji: char -> bool) returns (table: seq<Row<char>>)
    ensures table == Top(EmojiStream(rows, isEmoji), TableSize)
    ensures IsTopTally(EmojiStream(rows, isEmoji), TableSize, table)
  {
    var counter := new Counter<char>();
    for i := 0 to |rows|
      invariant counter.Valid() && counter.seen == EmojiStream(rows[..i], isEmoji)
    {
      counter.Update(EmojiChars(rows[i].text, isEmoji));
      assert rows[..i + 1][..i] == rows[..i];
    }
    assert rows[..|rows|] == rows;
    table := counter.MostCommon(TableSize);
  }

  // ---------------------------------------------------------------------------
  // Properties of the tables
  // ---------------------------------------------------------------------------

  /** A message whose text is not the media placeholder changes nothing in the media table. */
  lemma OnlyMediaCounts(rows: seq<Message>, m: Message)
    requires m.text != MediaOmitted
    ensures TopMediaUsers(rows + [m]) == TopMediaUsers(rows)
  {
    assert (rows + [m])[..|rows|] == rows;
    assert MediaMessages(rows + [m]) == MediaMessages(rows);
  }

  /** A segment that ends in whitespace (the line break before the next header,
      or the space it becomes once lines are joined) never yields the media
      placeholder as its message: the message is empty, or a suffix of the
      segment, or the whole segment. */
  lemma TrailingSpaceIsNoMedia(segment: string)
    requires segment != [] && IsSpace(segment[|segment| - 1])
    ensures UserAndMessage(segment).1 != MediaOmitted
  {
    MessageIsSuffix(segment);
    var m := UserAndMessage(segment).1;
    assert MediaOmitted[|MediaOmitted| - 1] == '>';
    if m != [] {
      assert m[|m| - 1] == segment[|segment| - 1];
    }
  }

  /** Every user in the media table sent the media placeholder at least once. */
  lemma MediaTableUsersSentMedia(rows: seq<Message>, i: nat)
    requires i < |TopMediaUsers(rows)|
    ensures exists j :: 0 <= j < |rows| && rows[j].user == TopMediaUsers(rows)[i].key && rows[j].text == MediaOmitted
  {
    var media := MediaMessages(rows);
    var u := TopMediaUsers(rows)[i].key;
    assert u in Users(media);
    var k :| 0 <= k < |media| && Users(media)[k] == u;
    var j := MediaMessageSent(rows, media[k]);
  }

  /** A media message comes from the input: the index of one occurrence. */
  lemma MediaMessageSent(rows: seq<Message>, m: Message) returns (j: nat)
    requires m in MediaMessages(rows)
    ensures j < |rows| && rows[j] == m && m.text == MediaOmitted
  {
    assert m in multiset(MediaMessages(rows));
    assert m in rows;
    j :| 0 <= j < |rows| && rows[j] == m;
  }

  /** Emoji occurrences add up message by message: the count of `c` in the
      stream is its count over the emoji characters of every message. */
  lemma {:induction false} EmojiStreamCounts(rows: seq<Message>, isEmoji: char -> bool, c: char)
    ensures multiset(EmojiStream(rows, isEmoji))[c] == if isEmoji(c) then TextCount(rows, c) else 0
  {
    if rows != [] {
      EmojiStreamCounts(rows[..|rows| - 1], isEmoji, c);
    }
  }

  /** How often `c` occurs in all message texts together. */
  function TextCount(rows: seq<Message>, c: char): nat
    decreases |rows|
  {
    if rows == [] then 0 else TextCount(rows[..|rows| - 1], c) + multiset(rows[|rows| - 1].text)[c]
  }

  // ---------------------------------------------------------------------------
  // Report sections (create_pdf, app.py:166-186)
  // ---------------------------------------------------------------------------

  const DaysTitle: string := "Top 10 Most Active Days"
  const UsersTitle: string := "Top 10 Active Users"
  const MediaTitle: string := "Top 10 Media Users"
  const EmojisTitle: string := "Top 10 Emojis"

  /** The text shown when a section has nothing to show. */
  function NoData(title: string): string
  {
    "No data available for " + title
  }

  /** A section of the report: the placeholder when the table is missing
      (`None`) or has no rows, the table rendered as text otherwise. The
      rendering (`to_string(index=False)`) is a parameter. */
  function SectionText<T>(table: Option<seq<T>>, title: string, render: seq<T> -> string): (text: string)
    ensures table.None? || table.value == [] ==> text == NoData(title)
    ensures table.Some? && table.value != [] ==> text == render(table.value)
  {
    match table
    case None => NoData(title)
    case Some(rows) => if rows == [] then NoData(title) else render(rows)
  }

  /** A top-10 table is empty exactly when its input column is. */
  lemma TopTallyEmpty<K(!new)>(keys: seq<K>, table: seq<Row<K>>)
    requires IsTopTally(keys, TableSize, table)
    ensures table == [] <==> keys == []
  {
    if keys != [] {
      assert keys[0] in Distinct(keys);
    }
  }

  /** The days section falls back to its placeholder exactly when there are no
      messages; otherwise it shows the days table. */
  lemma DaysSection<D(!new)>(rows: seq<Message>, dateOf: string -> D, render: seq<Row<D>> -> string)
    ensures rows == [] ==> SectionText(Some(TopDays(rows, dateOf)), DaysTitle, render) == NoData(DaysTitle)
    ensures rows != [] ==> SectionText(Some(TopDays(rows, dateOf)), DaysTitle, render) == render(TopDays(rows, dateOf))
  {
    TopTallyEmpty(Dates(rows, dateOf), TopDays(rows, dateOf));
  }

  /** The users section falls back exactly when there are no messages. */
  lemma UsersSection(rows: seq<Message>, render: seq<Row<string>> -> string)
    ensures rows == [] ==> SectionText(Some(TopUsers(rows)), UsersTitle, render) == NoData(UsersTitle)
    ensures rows != [] ==> SectionText(Some(TopUsers(rows)), UsersTitle, render) == render(TopUsers(rows))
  {
    TopTallyEmpty(Users(rows), TopUsers(rows));
  }

  /** The media section falls back exactly when no message is the media placeholder. */
  lemma MediaSection(rows: seq<Message>, render: seq<Row<string>> -> string)
    ensures (forall i :: 0 <= i < |rows| ==> rows[i].text != MediaOmitted) ==>
      SectionText(Some(TopMediaUsers(rows)), MediaTitle, render) == NoData(MediaTitle)
    ensures (exists i :: 0 <= i < |rows| && rows[i].text == MediaOmitted) ==>
      SectionText(Some(TopMediaUsers(rows)), MediaTitle, render) == render(TopMediaUsers(rows))
  {
    var media := MediaMessages(rows);
    TopTallyEmpty(Users(media), TopMediaUsers(rows));
    if exists i :: 0 <= i < |rows| && rows[i].text == MediaOmitted {
      var i :| 0 <= i < |rows| && rows[i].text == MediaOmitted;
      assert rows[i] in multiset(rows);
      assert rows[i] in multiset(media);
      assert media != [];
    } else {
      if media != [] {
        assert false;
      }
    }
  }

  /** The emoji section falls back exactly when no message holds an emoji character. */
  lemma EmojisSection(rows: seq<Message>, isEmoji: char -> bool, table: seq<Row<char>>, render: seq<Row<char>> -> string)
    requires table == Top(EmojiStream(rows, isEmoji), TableSize)
    ensures EmojiStream(rows, isEmoji) == [] ==> SectionText(Some(table), EmojisTitle, render) == NoData(EmojisTitle)
    ensures EmojiStream(rows, isEmoji) != [] ==> SectionText(Some(table), EmojisTitle, render) == render(table)
  {
    TopIsTopTally(EmojiStream(rows, isEmoji), TableSize);
    TopTallyEmpty(EmojiStream(rows, isEmoji), table);
  }
}
