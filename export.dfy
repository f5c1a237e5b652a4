/** The result exporter (`write_score_to_csv`): one header row built from
    the first player's question keys, then one row per player with the name,
    the points in key order and their sum. The rows are returned as
    sequences of cells instead of being written to `quiz_score.csv`; a cell
    holds the text `csv.writer` would write for it (`str` of a number). */
module Export {
  import opened Text
  import opened Scores

  type Row = seq<string>

  /** `['Name'] + [f'Question {q_no}' for q_no in questions] + ['Total']` */
  function Header(questions: seq<string>): Row
  {
    ["Name"] + seq(|questions|, i requires 0 <= i < |questions| => "Question " + questions[i]) + ["Total"]
  }

  /** The points of one player, in key order, as cells. */
  function PointCells(m: PointMap): seq<string>
  {
    seq(|m|, i requires 0 <= i < |m| => NatToString(m[i].1))
  }

  /** `[person] + list(scores.values()) + [total]` */
  function PlayerRow(name: string, m: PointMap): Row
  {
    [name] + PointCells(m) + [NatToString(Total(m))]
  }

  /** Everything the file receives: the header, then the players in table
      order. The header needs a first player (`next(iter(...))` raises on an
      empty table). */
  function ScoreRows(t: ScoreTable): seq<Row>
    requires |t| > 0
  {
    [Header(Keys(t[0].1))] + seq(|t|, i requires 0 <= i < |t| => PlayerRow(t[i].0, t[i].1))
  }

  /** `write_score_to_csv(score)`: emits the header, then a row per player. */
  method WriteScoreRows(score: ScoreTable) returns (rows: seq<Row>)
    requires |score| > 0
    ensures rows == ScoreRows(score)
  {
    var questions := Keys(score[0].1);
    var headers := Header(questions);
    rows := [headers];
    for i := 0 to |score|
      invariant |rows| == i + 1 && rows[0] == headers
      invariant forall k :: 0 <= k < i ==> rows[k + 1] == PlayerRow(score[k].0, score[k].1)
    {
      var (person, scores) := score[i];
      var total := Total(scores);
      rows := rows + [[person] + PointCells(scores) + [NatToString(total)]];
    }
  }

  /** The shape of the exported table: one row more than there are players;
      the header is "Name", a "Question k" column per key of the first
      player, and "Total"; each player's row is the name, one cell per point
      and the total. */
  lemma ScoreRowsShape(t: ScoreTable)
    requires |t| > 0
    ensures |ScoreRows(t)| == |t| + 1
    ensures |ScoreRows(t)[0]| == |t[0].1| + 2
    ensures ScoreRows(t)[0][0] == "Name" && ScoreRows(t)[0][|t[0].1| + 1] == "Total"
    ensures forall k :: 0 <= k < |t[0].1| ==> ScoreRows(t)[0][k + 1] == "Question " + t[0].1[k].0
    ensures forall i :: 0 <= i < |t| ==>
      && |ScoreRows(t)[i + 1]| == |t[i].1| + 2
      && ScoreRows(t)[i + 1][0] == t[i].0
  {
    var rows := ScoreRows(t);
    forall i | 0 <= i < |t| ensures |rows[i + 1]| == |t[i].1| + 2 && rows[i + 1][0] == t[i].0 {
      assert rows[i + 1] == PlayerRow(t[i].0, t[i].1);
    }
  }

  /** Every row is as long as the header exactly when every player has as
      many points as the first one. A table shaped by the quiz is aligned in
      content too: each point sits under the column of its own question.
      Equal lengths alone do not give that (keys "1","2" for one player and
      "2","1" for the next put the second player's points under the wrong
      headings). */
  lemma ScoreRowsAligned(t: ScoreTable)
    requires |t| > 0
    ensures (forall i :: 0 <= i < |ScoreRows(t)| ==> |ScoreRows(t)[i]| == |ScoreRows(t)[0]|)
        <==> (forall i :: 0 <= i < |t| ==> |t[i].1| == |t[0].1|)
    ensures Uniform(t) ==> forall i :: 0 <= i < |ScoreRows(t)| ==> |ScoreRows(t)[i]| == |ScoreRows(t)[0]|
    ensures Uniform(t) ==> forall i, k :: 0 <= i < |t| && 0 <= k < |t[i].1| ==>
      ScoreRows(t)[0][k + 1] == "Question " + t[i].1[k].0
  {
    ScoreRowsShape(t);
    var rows := ScoreRows(t);
    if forall i :: 0 <= i < |rows| ==> |rows[i]| == |rows[0]| {
      forall i | 0 <= i < |t| ensures |t[i].1| == |t[0].1| {
        assert |rows[i + 1]| == |rows[0]|;
      }
    }
    if Uniform(t) {
      forall i | 0 <= i < |t| ensures |t[i].1| == |t[0].1| {
        assert |Keys(t[i].1)| == |Keys(t[0].1)|;
      }
      forall i, k | 0 <= i < |t| && 0 <= k < |t[i].1|
        ensures rows[0][k + 1] == "Question " + t[i].1[k].0
      {
        assert Keys(t[i].1)[k] == Keys(t[0].1)[k];
      }
    }
  }

  /** What a reader of the file gets back: for each row after the header,
      the name and the last cell read as a number. */
  function ReadTotals(rows: seq<Row>): seq<(string, Option<nat>)>
  {
    var n := if |rows| == 0 then 0 else |rows| - 1;
    seq(n, i requires 0 <= i < n => ReadRow(rows[i + 1]))
  }

  /** One row read back: the name cell and the total cell as a number. */
  function ReadRow(row: Row): (string, Option<nat>)
  {
    if |row| == 0 then ("", None) else (row[0], ParseNat(row[|row| - 1]))
  }

  /** Exporting and reading back gives every player's name and total, in
      table order, and every point cell reads back as the point. */
  lemma {:induction false} ScoreRowsRoundTrip(t: ScoreTable)
    requires |t| > 0
    ensures ReadTotals(ScoreRows(t)) == seq(|t|, i requires 0 <= i < |t| => (t[i].0, Some(Total(t[i].1))))
    ensures forall i, k :: 0 <= i < |t| && 0 <= k < |t[i].1| ==>
      ParseNat(ScoreRows(t)[i + 1][k + 1]) == Some(t[i].1[k].1)
  {
    var rows := ScoreRows(t);
    var back := ReadTotals(rows);
    forall i | 0 <= i < |t| ensures back[i] == (t[i].0, Some(Total(t[i].1))) {
      var row := rows[i + 1];
      assert row == PlayerRow(t[i].0, t[i].1);
      ParseNatToString(Total(t[i].1));
    }
    forall i, k | 0 <= i < |t| && 0 <= k < |t[i].1|
      ensures ParseNat(rows[i + 1][k + 1]) == Some(t[i].1[k].1)
    {
      assert rows[i + 1] == PlayerRow(t[i].0, t[i].1);
      assert rows[i + 1][k + 1] == NatToString(t[i].1[k].1);
      ParseNatToString(t[i].1[k].1);
    }
  }
}
