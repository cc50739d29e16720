/**
 * The records the analysis works on.
 *
 * A tracking table is a sequence of `Row`s: one (game, play, frame, entity)
 * sample each. Every row carries the integer index label pandas attached to
 * it (`index`), because several steps look rows up by label rather than by
 * position. A play table is a sequence of `Play`s, likewise labelled.
 */
module Tracking {
  import opened Results
  import opened Seqs

  /** Length of the field between the end lines, in yards (the goal plane is at x = 120). */
  const FieldLength: real := 120.0
  /** Width of the field, 160 feet, in yards. */
  const FieldWidth: real := 160.0 / 3.0
  /** The lateral centre of the field and of the goal posts, 160/6 yards. */
  const GoalCentre: real := 160.0 / 6.0

  /**
   * One tracking sample. `event` is `None` on the frames the vendor left
   * unannotated; `position` is the player's position code ("K", "P", ...).
   */
  datatype Row = Row(
    index: int,
    gameId: int,
    playId: int,
    frameId: int,
    team: string,
    position: string,
    displayName: string,
    playDirection: string,
    x: real,
    y: real,
    s: real,
    event: Option<string>)

  /**
   * One play record. `gameClockSeconds` is absent until the play table has
   * been preprocessed.
   */
  datatype Play = Play(
    index: int,
    gameId: int,
    playId: int,
    specialTeamsPlayType: string,
    quarter: int,
    gameClock: string,
    penaltyYards: Option<real>,
    penaltyCodes: Option<string>,
    gameClockSeconds: Option<int>)

  /** Index labels strictly increase along the table, as they do after `ignore_index` concatenation. */
  ghost predicate LabelsIncreasing(rows: seq<Row>) {
    forall i, j :: 0 <= i < j < |rows| ==> rows[i].index < rows[j].index
  }

  /** The speed column, `df['s']`. */
  function Speeds(rows: seq<Row>): (v: seq<real>)
    ensures |v| == |rows|
    ensures forall i :: 0 <= i < |rows| ==> v[i] == rows[i].s
  {
    seq(|rows|, i requires 0 <= i < |rows| => rows[i].s)
  }

  /**
   * `df.loc[centre - radius : centre + radius]`: the rows whose label lies
   * in the closed range around `centre`, in table order (what pandas
   * returns for a monotonic integer index).
   */
  function LabelWindow(rows: seq<Row>, centre: int, radius: nat): (w: seq<Row>)
    ensures forall r :: r in w <==> r in rows && centre - radius <= r.index <= centre + radius
    ensures IsSubsequence(w, rows)
  {
    Filter(rows, (r: Row) => centre - radius <= r.index <= centre + radius)
  }

  /**
   * `series[key]` on a labelled column: the row whose index label is `key` (the
   * first one, the only one when labels are unique), or KeyError.
   */
  function RowWithLabel(rows: seq<Row>, key: int): (r: Result<Row>)
    ensures r.Success? <==> exists i :: 0 <= i < |rows| && rows[i].index == key
    ensures r.Success? ==> r.value in rows && r.value.index == key
    ensures r.Failure? ==> r.error == KeyError
  {
    if |rows| == 0 then Failure(KeyError)
    else if rows[0].index == key then Success(rows[0])
    else
      var r := RowWithLabel(rows[1..], key);
      assert forall i :: 0 < i < |rows| ==> rows[i] == rows[1..][i - 1];
      r
  }

  /** `df.loc[key]` for a label known to be present: the first row carrying it. */
  function LabelledRow(rows: seq<Row>, key: int): (r: Row)
    requires exists i :: 0 <= i < |rows| && rows[i].index == key
    ensures r in rows && r.index == key
    ensures Success(r) == RowWithLabel(rows, key)
  {
    if rows[0].index == key then rows[0]
    else
      assert forall i :: 0 < i < |rows| ==> rows[i] == rows[1..][i - 1];
      LabelledRow(rows[1..], key)
  }

  /** A subsequence of a table with increasing labels has increasing labels. */
  lemma {:induction false} SubsequenceKeepsLabelsIncreasing(a: seq<Row>, b: seq<Row>)
    requires IsSubsequence(a, b)
    requires LabelsIncreasing(b)
    ensures LabelsIncreasing(a)
    ensures forall r :: r in a ==> r in b
    decreases |b|
  {
    if |a| > 0 {
      if a[0] == b[0] && IsSubsequence(a[1..], b[1..]) {
        SubsequenceKeepsLabelsIncreasing(a[1..], b[1..]);
        LaterLabelsExceedHead(b);
        assert a == [b[0]] + a[1..];
        LabelsIncreasingCons(b[0], a[1..]);
      } else {
        SubsequenceKeepsLabelsIncreasing(a, b[1..]);
      }
    }
  }

  /** Every row after the head of rows with increasing labels has a larger label. */
  lemma LaterLabelsExceedHead(rows: seq<Row>)
    requires LabelsIncreasing(rows) && |rows| > 0
    ensures LabelsIncreasing(rows[1..])
    ensures forall r :: r in rows[1..] ==> rows[0].index < r.index
  {
    assert forall i :: 0 <= i < |rows| - 1 ==> rows[1..][i] == rows[i + 1];
  }

  /** A head labelled below every row of a label-increasing sequence keeps it label-increasing. */
  lemma LabelsIncreasingCons(head: Row, rows: seq<Row>)
    requires LabelsIncreasing(rows)
    requires forall r :: r in rows ==> head.index < r.index
    ensures LabelsIncreasing([head] + rows)
  {
    assert forall j :: 0 < j < |rows| + 1 ==> ([head] + rows)[j] == rows[j - 1] && rows[j - 1] in rows;
  }

  /** Rows with distinct increasing labels, all within [lo, hi], number at most hi - lo + 1. */
  lemma {:induction false} IncreasingLabelsInRange(rows: seq<Row>, lo: int, hi: int)
    requires LabelsIncreasing(rows)
    requires forall i :: 0 <= i < |rows| ==> lo <= rows[i].index <= hi
    requires lo <= hi + 1
    ensures |rows| <= hi - lo + 1
  {
    if |rows| > 0 {
      IncreasingLabelsInRange(rows[1..], rows[0].index + 1, hi);
    }
  }

  /** With increasing labels a window of radius `radius` holds at most 2 * radius + 1 rows. */
  lemma LabelWindowSize(rows: seq<Row>, centre: int, radius: nat)
    requires LabelsIncreasing(rows)
    ensures |LabelWindow(rows, centre, radius)| <= 2 * radius + 1
  {
    var w := LabelWindow(rows, centre, radius);
    SubsequenceKeepsLabelsIncreasing(w, rows);
    assert forall i :: 0 <= i < |w| ==> w[i] in w;
    IncreasingLabelsInRange(w, centre - radius, centre + radius);
  }

  /** With increasing labels, two positions carrying the same label are the same position. */
  lemma LabelsDetermineRow(rows: seq<Row>, i: int, j: int)
    requires LabelsIncreasing(rows)
    requires 0 <= i < |rows| && 0 <= j < |rows|
    requires rows[i].index == rows[j].index
    ensures i == j
  {
  }

  /** With increasing labels, looking a row up by its own label finds that row. */
  lemma LabelledRowFindsRow(rows: seq<Row>, r: Row)
    requires LabelsIncreasing(rows)
    requires r in rows
    ensures exists i :: 0 <= i < |rows| && rows[i].index == r.index
    ensures LabelledRow(rows, r.index) == r
  {
    var i :| 0 <= i < |rows| && rows[i] == r;
    var found := LabelledRow(rows, r.index);
    var j :| 0 <= j < |rows| && rows[j] == found;
    LabelsDetermineRow(rows, i, j);
  }
}
