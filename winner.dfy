/** The winner calculator (`calculate_winner`): each player's total is the
    sum of their points, a running maximum starting at -1 picks the highest
    total, and the list of players tied at it is rebuilt whenever the maximum
    rises. A highest total of 0 gives the "no points" message instead of a
    winner list. The announcement is returned instead of printed. */
module Winner {
  import opened Text
  import opened Scores

  /** The running maximum after the whole table: -1 for an empty table,
      otherwise the largest total. */
  function Highest(t: ScoreTable): int
  {
    if |t| == 0 then -1
    else
      var h := Highest(t[..|t| - 1]);
      var x := Total(t[|t| - 1].1);
      if x > h then x else h
  }

  /** The names whose total is `h`, in table order. */
  function Leaders(t: ScoreTable, h: int): seq<string>
  {
    if |t| == 0 then []
    else Leaders(t[..|t| - 1], h) + (if Total(t[|t| - 1].1) == h then [t[|t| - 1].0] else [])
  }

  /** `Highest` is the maximum of the totals, and -1 only for an empty table. */
  lemma {:induction false} HighestIsMax(t: ScoreTable)
    ensures |t| == 0 <==> Highest(t) == -1
    ensures forall k :: 0 <= k < |t| ==> Total(t[k].1) <= Highest(t)
    ensures |t| > 0 ==> exists k :: 0 <= k < |t| && Total(t[k].1) == Highest(t)
  {
    if |t| > 0 {
      var init := t[..|t| - 1];
      HighestIsMax(init);
      assert forall k :: 0 <= k < |init| ==> t[k] == init[k];
      if Total(t[|t| - 1].1) <= Highest(init) && |init| > 0 {
        var k :| 0 <= k < |init| && Total(init[k].1) == Highest(init);
        assert t[k] == init[k];
      }
    }
  }

  /** Every listed name belongs to an entry whose total is `h`. */
  lemma {:induction false} LeadersSound(t: ScoreTable, h: int)
    ensures forall x :: x in Leaders(t, h) ==>
      exists k :: 0 <= k < |t| && t[k].0 == x && Total(t[k].1) == h
  {
    if |t| > 0 {
      var init := t[..|t| - 1];
      LeadersSound(init, h);
      forall x | x in Leaders(t, h)
        ensures exists k :: 0 <= k < |t| && t[k].0 == x && Total(t[k].1) == h
      {
        if x in Leaders(init, h) {
          var k :| 0 <= k < |init| && init[k].0 == x && Total(init[k].1) == h;
          assert t[k] == init[k];
        } else {
          assert t[|t| - 1].0 == x && Total(t[|t| - 1].1) == h;
        }
      }
    }
  }

  /** Every entry whose total is `h` has its name listed. */
  lemma {:induction false} LeadersComplete(t: ScoreTable, h: int)
    ensures forall k :: 0 <= k < |t| && Total(t[k].1) == h ==> t[k].0 in Leaders(t, h)
  {
    if |t| > 0 {
      var init := t[..|t| - 1];
      LeadersComplete(init, h);
      forall k | 0 <= k < |t| && Total(t[k].1) == h ensures t[k].0 in Leaders(t, h) {
        if k < |init| {
          assert init[k] == t[k];
        }
      }
    }
  }

  /** A name is listed exactly when some entry with that name has total `h`. */
  lemma LeadersMembership(t: ScoreTable, h: int)
    ensures forall x :: x in Leaders(t, h) <==>
      exists k :: 0 <= k < |t| && t[k].0 == x && Total(t[k].1) == h
  {
    LeadersSound(t, h);
    LeadersComplete(t, h);
  }

  /** No name is listed for a value above every total. */
  lemma LeadersAboveAll(t: ScoreTable, h: int)
    requires forall k :: 0 <= k < |t| ==> Total(t[k].1) < h
    ensures Leaders(t, h) == []
  {
    LeadersMembership(t, h);
    if Leaders(t, h) != [] {
      assert Leaders(t, h)[0] in Leaders(t, h);
    }
  }

  /** One step of the running maximum: a higher total restarts the list of
      leaders with its player, an equal total joins it, a lower one changes
      nothing. */
  lemma RunningMaxStep(t: ScoreTable, i: nat, highest: int)
    requires i < |t| && highest == Highest(t[..i])
    ensures Total(t[i].1) > highest ==>
      Highest(t[..i + 1]) == Total(t[i].1) && Leaders(t[..i + 1], Total(t[i].1)) == [t[i].0]
    ensures Total(t[i].1) == highest ==>
      Highest(t[..i + 1]) == highest && Leaders(t[..i + 1], highest) == Leaders(t[..i], highest) + [t[i].0]
    ensures Total(t[i].1) < highest ==>
      Highest(t[..i + 1]) == highest && Leaders(t[..i + 1], highest) == Leaders(t[..i], highest)
  {
    assert t[..i + 1][..i] == t[..i];
    if Total(t[i].1) > highest {
      HighestIsMax(t[..i]);
      LeadersAboveAll(t[..i], Total(t[i].1));
    }
  }

  /** The example of the `calculate_winner` documentation: Penny alone leads
      with 3 points. */
  lemma DocumentedExample()
    ensures var t: ScoreTable := [("Sheldon", [("1", 0), ("2", 1), ("3", 1)]),
                      ("Leonard", [("1", 0), ("2", 0), ("3", 0)]),
                      ("Penny", [("1", 1), ("2", 1), ("3", 1)])];
      Highest(t) == 3 && Leaders(t, 3) == ["Penny"]
  {
    var t: ScoreTable := [("Sheldon", [("1", 0), ("2", 1), ("3", 1)]),
              ("Leonard", [("1", 0), ("2", 0), ("3", 0)]),
              ("Penny", [("1", 1), ("2", 1), ("3", 1)])];
    forall i | 0 <= i < 3 ensures Total(t[i].1) == t[i].1[0].1 + t[i].1[1].1 + t[i].1[2].1 {
      var m: PointMap := t[i].1;
      assert m[..2][..1] == m[..1] && Total(m[..1]) == m[0].1;
    }
    assert t[..2][..1] == t[..1] && Highest(t[..1]) == 2;
    assert Highest(t[..2]) == 2;
    assert Leaders(t[..1], 3) == [];
    assert Leaders(t[..2], 3) == [];
  }

  /** What is announced: the "no points" message, or the winners with their
      score. */
  datatype Announcement = NoPoints | Winners(highest: int, names: seq<string>)

  /** The announcement exactly as written: the message is chosen only when
      the highest score is 0. */
  function AnnounceAsWritten(highest: int, leaders: seq<string>): Announcement
  {
    if highest == 0 then NoPoints else Winners(highest, leaders)
  }

  /** The announcement as intended: nobody wins without points, which also
      covers the empty table, whose running maximum stays at -1. */
  function AnnounceIntended(highest: int, leaders: seq<string>): Announcement
  {
    if highest <= 0 then NoPoints else Winners(highest, leaders)
  }

  /** With no players the code as written congratulates an empty list of
      winners with a highest score of -1. */
  lemma {:induction false} EmptyTableAnnouncedAsWinners()
    ensures AnnounceAsWritten(Highest([]), Leaders([], Highest([]))) == Winners(-1, [])
  {
  }

  /** The intended announcement names winners only when someone scored, and
      then names every player tied at the top and no one else. */
  lemma IntendedAnnouncement(t: ScoreTable)
    ensures AnnounceIntended(Highest(t), Leaders(t, Highest(t))).NoPoints? <==>
      forall k :: 0 <= k < |t| ==> Total(t[k].1) == 0
    ensures AnnounceIntended(Highest(t), Leaders(t, Highest(t))).Winners? ==>
      && AnnounceIntended(Highest(t), Leaders(t, Highest(t))).highest > 0
      && AnnounceIntended(Highest(t), Leaders(t, Highest(t))).names != []
  {
    HighestIsMax(t);
    LeadersMembership(t, Highest(t));
    if Highest(t) > 0 {
      var k :| 0 <= k < |t| && Total(t[k].1) == Highest(t);
      assert t[k].0 in Leaders(t, Highest(t));
    }
  }

  /** On every table with at least one player, the two announcements agree. */
  lemma AnnouncementsAgree(t: ScoreTable)
    requires |t| > 0
    ensures AnnounceAsWritten(Highest(t), Leaders(t, Highest(t)))
         == AnnounceIntended(Highest(t), Leaders(t, Highest(t)))
  {
    HighestIsMax(t);
    assert Total(t[0].1) >= 0;
  }

  /** `player_point_sums[person] = total_score` on a table with distinct
      names appends the next player's total. */
  lemma SumsStep(t: ScoreTable, sums: seq<(string, nat)>, i: nat)
    requires Distinct(Keys(t)) && i < |t|
    requires Keys(sums) == Keys(t)[..i]
    requires forall k :: 0 <= k < i ==> sums[k].1 == Total(t[k].1)
    ensures Keys(Put(sums, t[i].0, Total(t[i].1))) == Keys(t)[..i + 1]
    ensures forall k :: 0 <= k <= i ==> Put(sums, t[i].0, Total(t[i].1))[k].1 == Total(t[k].1)
  {
    assert t[i].0 !in Keys(sums) by {
      assert Keys(t)[i] == t[i].0;
    }
    PutFresh(sums, t[i].0, Total(t[i].1));
  }

  /** The running maximum and its leaders, as the caller of
      `CalculateWinner` sees them. */
  lemma WinnerFacts(t: ScoreTable)
    ensures |t| == 0 ==> Highest(t) == -1
    ensures forall k :: 0 <= k < |t| ==> Total(t[k].1) <= Highest(t)
    ensures |t| > 0 ==> exists k :: 0 <= k < |t| && Total(t[k].1) == Highest(t)
    ensures forall x :: x in Leaders(t, Highest(t)) <==>
      exists k :: 0 <= k < |t| && t[k].0 == x && Total(t[k].1) == Highest(t)
    ensures AnnounceIntended(Highest(t), Leaders(t, Highest(t))).NoPoints? <==>
      forall k :: 0 <= k < |t| ==> Total(t[k].1) == 0
    ensures AnnounceIntended(Highest(t), Leaders(t, Highest(t))).Winners? ==>
      && Highest(t) > 0
      && Leaders(t, Highest(t)) != []
  {
    HighestIsMax(t);
    LeadersMembership(t, Highest(t));
    IntendedAnnouncement(t);
  }

  /** Everything `calculate_winner` computes: `player_point_sums`,
      `highest_score`, `persons_with_highest_score`, and what is printed. */
  datatype Outcome = Outcome(sums: seq<(string, nat)>, highest: int,
                             leaders: seq<string>, announcement: Announcement)

  /** `calculate_winner(score)`; the score table is a dictionary, so its
      player names are distinct. */
  method CalculateWinner(score: ScoreTable) returns (o: Outcome)
    requires Distinct(Keys(score))
    ensures Keys(o.sums) == Keys(score)
    ensures forall k :: 0 <= k < |score| ==> o.sums[k].1 == Total(score[k].1)
    ensures |score| == 0 ==> o.highest == -1
    ensures forall k :: 0 <= k < |score| ==> Total(score[k].1) <= o.highest
    ensures |score| > 0 ==> exists k :: 0 <= k < |score| && Total(score[k].1) == o.highest
    ensures forall x :: x in o.leaders <==>
      exists k :: 0 <= k < |score| && score[k].0 == x && Total(score[k].1) == o.highest
    ensures o.leaders == Leaders(score, o.highest)
    ensures o.announcement.NoPoints? <==> forall k :: 0 <= k < |score| ==> Total(score[k].1) == 0
    ensures o.announcement.Winners? ==>
      o.announcement == Winners(o.highest, o.leaders) && o.highest > 0 && o.leaders != []
  {
    var highest: int := -1;
    var leaders: seq<string> := [];
    var sums: seq<(string, nat)> := [];
    for i := 0 to |score|
      invariant highest == Highest(score[..i])
      invariant leaders == Leaders(score[..i], highest)
      invariant Keys(sums) == Keys(score)[..i]
      invariant forall k :: 0 <= k < i ==> sums[k].1 == Total(score[k].1)
    {
      var (person, scores) := score[i];
      var total := Total(scores);
      SumsStep(score, sums, i);
      sums := Put(sums, person, total);
      RunningMaxStep(score, i, highest);
      if total > highest {
        highest := total;
        leaders := [person];
      } else if total == highest {
        leaders := leaders + [person];
      }
    }
    assert score[..|score|] == score;
    WinnerFacts(score);
    o := Outcome(sums, highest, leaders, AnnounceIntended(highest, leaders));
  }
}
