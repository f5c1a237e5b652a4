/** The score table of the trivia game. Python dictionaries keep insertion
    order, and that order decides the order of winners and of CSV rows, so a
    dictionary is modelled as a sequence of (key, value) pairs with distinct
    keys, in insertion order. */
module Scores {
  import opened Text

  /** `{'1': 1, '2': 0, ...}`: question key to point, one player's answers. */
  type PointMap = seq<(string, nat)>

  /** `{'Alice': {...}, 'Bob': {...}}`: player name to that player's points. */
  type ScoreTable = seq<(string, PointMap)>

  /** The keys of an ordered dictionary, in insertion order (`list(d.keys())`). */
  function Keys<V>(m: seq<(string, V)>): (ks: seq<string>)
    ensures |ks| == |m|
    ensures forall i :: 0 <= i < |m| ==> ks[i] == m[i].0
  {
    seq(|m|, i requires 0 <= i < |m| => m[i].0)
  }

  predicate Distinct(s: seq<string>)
  {
    forall i, j :: 0 <= i < j < |s| ==> s[i] != s[j]
  }

  /** Where key `k` sits in `m`, if anywhere (the dictionary's lookup). */
  function IndexOf<V>(m: seq<(string, V)>, k: string): (r: Option<nat>)
    ensures r.None? ==> forall j :: 0 <= j < |m| ==> m[j].0 != k
    ensures r.Some? ==> r.value < |m| && m[r.value].0 == k
    ensures r.Some? ==> forall j :: 0 <= j < r.value ==> m[j].0 != k
  {
    if |m| == 0 then None
    else if m[0].0 == k then Some(0)
    else
      match IndexOf(m[1..], k)
      case None => None
      case Some(j) => Some(j + 1)
  }

  /** In a dictionary whose keys are distinct, a key is found where it is. */
  lemma {:induction false} IndexOfDistinct<V>(m: seq<(string, V)>, j: nat)
    requires Distinct(Keys(m)) && j < |m|
    ensures IndexOf(m, m[j].0).Some? && IndexOf(m, m[j].0).value == j
  {
    if j > 0 {
      var ks := Keys(m);
      assert ks[0] != ks[j];
      assert Keys(m[1..]) == ks[1..];
      IndexOfDistinct(m[1..], j - 1);
    }
  }

  /** `d[k] = v`: a present key keeps its place and takes the new value; a new
      key is appended at the end. */
  function Put<V>(m: seq<(string, V)>, k: string, v: V): seq<(string, V)>
  {
    match IndexOf(m, k)
    case None => m + [(k, v)]
    case Some(i) => m[i := (k, v)]
  }

  /** Assigning to a new key appends the pair. */
  lemma PutFresh<V>(m: seq<(string, V)>, k: string, v: V)
    requires k !in Keys(m)
    ensures Put(m, k, v) == m + [(k, v)]
  {
  }

  /** Assigning to a present key, in a dictionary with distinct keys, changes
      that key's value only and keeps the order of the keys. */
  lemma PutPresent<V>(m: seq<(string, V)>, k: string, v: V)
    requires Distinct(Keys(m)) && k in Keys(m)
    ensures |Put(m, k, v)| == |m|
    ensures forall j :: 0 <= j < |m| ==> Put(m, k, v)[j] == if m[j].0 == k then (k, v) else m[j]
  {
    var i := IndexOf(m, k).value;
    forall j | 0 <= j < |m| && m[j].0 == k ensures j == i {
      IndexOfDistinct(m, j);
    }
  }

  /** `d[k]` for a key that is present. */
  function Get<V>(m: seq<(string, V)>, k: string): (v: V)
    requires k in Keys(m)
    ensures exists j :: 0 <= j < |m| && m[j] == (k, v)
  {
    m[IndexOf(m, k).value].1
  }

  /** `sum(d.values())`: a player's total. */
  function Total(m: PointMap): nat
  {
    if |m| == 0 then 0 else Total(m[..|m| - 1]) + m[|m| - 1].1
  }

  /** Every point in the map is 0 or 1. */
  predicate ZeroOrOne(m: PointMap)
  {
    forall i :: 0 <= i < |m| ==> m[i].1 <= 1
  }

  /** With one point at most per question, a total never exceeds the number
      of questions. */
  lemma {:induction false} TotalAtMostCount(m: PointMap)
    requires ZeroOrOne(m)
    ensures Total(m) <= |m|
  {
    if |m| > 0 {
      TotalAtMostCount(m[..|m| - 1]);
    }
  }

  /** The keys the quiz gives a game of `n` questions: "1", "2", ..., "n". */
  function QuestionKeys(n: nat): (ks: seq<string>)
    ensures |ks| == n
  {
    seq(n, i requires 0 <= i < n => NatToString(i + 1))
  }

  /** Those keys are distinct, and the next question number is none of them. */
  lemma QuestionKeysFresh(n: nat)
    ensures Distinct(QuestionKeys(n))
    ensures NatToString(n + 1) !in QuestionKeys(n)
  {
    var ks := QuestionKeys(n);
    forall i, j | 0 <= i < j < n ensures ks[i] != ks[j] {
      NatToStringInjective(i + 1, j + 1);
    }
    if NatToString(n + 1) in ks {
      var i :| 0 <= i < n && ks[i] == NatToString(n + 1);
      NatToStringInjective(i + 1, n + 1);
    }
  }

  /** The shape `quiz` promises: every player's map has the first player's
      key sequence, and every point is 0 or 1. */
  predicate Uniform(t: ScoreTable)
  {
    forall i :: 0 <= i < |t| ==> Keys(t[i].1) == Keys(t[0].1) && ZeroOrOne(t[i].1)
  }
}
