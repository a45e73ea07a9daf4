/** The HTML body of the summary mail (`MailView.getMessage`): one table row
    per interval record, in order. */
module Mail {
  import opened ClassifySound
  import opened TimeFormat
  import opened Sequences

  const TableOpen := "<table>"
  const TableClose := "</table>"

  /** The table row of one record: its phase label and its two durations. */
  function Row(info: BreathingInfo): string
  {
    "<tr><td>" + info.description
    + "</td><td>interval: " + StringFromTimeInterval(info.interval)
    + "</td><td>detected: " + StringFromTimeInterval(info.time)
    + "</td></tr>"
  }

  /** The rows of a list of records, one after another. */
  function Rows(s: seq<BreathingInfo>): string
  {
    ConcatMap(s, Row)
  }

  /** The whole message body for a list of records. */
  function Message(s: seq<BreathingInfo>): string
  {
    TableOpen + Rows(s) + TableClose
  }

  /** `getMessage`: the body is built by appending one row per record. */
  method GetMessage(yogaInfo: seq<BreathingInfo>) returns (res: string)
    ensures res == Message(yogaInfo)
  {
    res := "<table>";
    for i := 0 to |yogaInfo|
      invariant res == TableOpen + Rows(yogaInfo[..i])
    {
      ConcatMapTake(yogaInfo, i, Row);
      var info := yogaInfo[i];
      var row := "<tr><td>" + info.description
        + "</td><td>interval: " + StringFromTimeInterval(info.interval)
        + "</td><td>detected: " + StringFromTimeInterval(info.time)
        + "</td></tr>";
      assert row == Row(info);
      AppendAssoc(TableOpen, Rows(yogaInfo[..i]), row);
      res := res + row;
    }
    res := res + "</table>";
    assert yogaInfo[..|yogaInfo|] == yogaInfo;
  }

  /** The body always opens and closes the table. */
  lemma MessageBracketed(s: seq<BreathingInfo>)
    ensures var m := Message(s);
      |m| >= 15 && m[..7] == TableOpen && m[|m| - 8..] == TableClose
  {
    Bracketed(TableOpen, Rows(s), TableClose);
  }

  /** No records: an empty table. */
  lemma MessageEmpty()
    ensures Message([]) == "<table></table>"
  {
  }

  /** The rows of a concatenation are the rows of its parts, concatenated. */
  lemma RowsAppend(a: seq<BreathingInfo>, b: seq<BreathingInfo>)
    ensures Rows(a + b) == Rows(a) + Rows(b)
  {
    ConcatMapAppend(a, b, Row);
  }

  /** The message of `a + b` is the table holding the rows of `a`, then those of `b`. */
  lemma MessageAppend(a: seq<BreathingInfo>, b: seq<BreathingInfo>)
    ensures Message(a + b) == TableOpen + Rows(a) + Rows(b) + TableClose
  {
    RowsAppend(a, b);
    AppendAssoc(TableOpen, Rows(a), Rows(b));
  }

  /** Record `k`'s row sits between the rows of the records before it and
      those of the records after it. */
  lemma RowsSplit(s: seq<BreathingInfo>, k: nat)
    requires k < |s|
    ensures Rows(s) == Rows(s[..k]) + Row(s[k]) + Rows(s[k + 1..])
  {
    assert s == (s[..k] + [s[k]]) + s[k + 1..];
    ConcatMapAppend(s[..k] + [s[k]], s[k + 1..], Row);
    ConcatMapSnoc(s[..k], s[k], Row);
  }


  /** For non-negative durations a row is 74 characters plus its label, with
      the label and the two nine-character durations at fixed places. */
  lemma RowLayout(info: BreathingInfo)
    requires info.interval >= 0 && info.time >= 0
    ensures var r := Row(info); var d := |info.description|;
      && |r| == d + 74
      && r[..8] == "<tr><td>" && r[8..8 + d] == info.description
      && r[8 + d..27 + d] == "</td><td>interval: "
      && r[27 + d..36 + d] == StringFromTimeInterval(info.interval)
      && r[36 + d..55 + d] == "</td><td>detected: "
      && r[55 + d..64 + d] == StringFromTimeInterval(info.time)
      && r[64 + d..] == "</td></tr>"
  {
    FormatShape(info.interval);
    FormatShape(info.time);
    SevenPieces("<tr><td>", info.description, "</td><td>interval: ", StringFromTimeInterval(info.interval),
                "</td><td>detected: ", StringFromTimeInterval(info.time), "</td></tr>");
  }
}
