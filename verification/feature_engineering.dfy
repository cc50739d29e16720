/**
 * pipeline/feature_engineering.py: the per-play features.
 *
 * - the observed goal-plane crossing (`compute_endzone_y_pos`),
 * - the expected crossing on the straight line of the kick (`find_kickline`),
 * - their absolute error and the offset from the goal centre,
 * - the defensive pressure: distance from the kicker to the k-th nearest
 *   opponent at the moment of the kick (`compute_kicker_core_dist`),
 * - and the per-play column maps built on them.
 *
 * NaN is `None`; an exception the source does not catch is a `Failure`.
 * Distances are compared and returned SQUARED (there is no square root
 * here); the ordering, and hence which opponent is k-th, is the same.
 */
module FeatureEngineering {
  import opened Results
  import opened Seqs
  import opened Tracking
  import opened TrackingQuery

  function Abs(v: real): real {
    if v < 0.0 then -v else v
  }

  /**
   * Open band of half-width `halfWidth` around either goal plane, x = 120
   * and x = 0. The pipeline uses 2 yards; an older notebook uses 1.
   */
  predicate WithinGoalBand(x: real, halfWidth: real) {
    (x > FieldLength - halfWidth && x < FieldLength + halfWidth) || (x > -halfWidth && x < halfWidth)
  }

  /** `x_within_fg_bounds`: strictly within 2 yards of x = 120 or of x = 0. */
  function XWithinFgBounds(x: real): (b: bool)
    ensures b <==> (118.0 < x < 122.0) || (-2.0 < x < 2.0)
    ensures b <==> Abs(x - FieldLength) < 2.0 || Abs(x) < 2.0
  {
    WithinGoalBand(x, 2.0)
  }

  /** The samples of a play that lie in the goal band, in order. */
  function InBand(play: seq<Row>, halfWidth: real): (b: seq<Row>)
    ensures forall r :: r in b <==> r in play && WithinGoalBand(r.x, halfWidth)
    ensures IsSubsequence(b, play)
  {
    Filter(play, (r: Row) => WithinGoalBand(r.x, halfWidth))
  }

  /**
   * The y taken as the crossing point from the in-band samples: positions
   * n//2 - 1 and (n//2 if n is even, else n//2 - 1) read with Python's
   * `iloc`, so that one sample (position -1) reads itself and no sample
   * raises IndexError, caught and turned into NaN.
   */
  function MiddleCrossingY(inBand: seq<Row>): (r: Option<real>)
    ensures r.None? <==> |inBand| == 0
    ensures |inBand| > 0 && |inBand| % 2 == 0 ==>
              r == Some((inBand[|inBand| / 2 - 1].y + inBand[|inBand| / 2].y) / 2.0)
    ensures |inBand| % 2 == 1 ==>
              r == Some(inBand[if |inBand| == 1 then 0 else |inBand| / 2 - 1].y)
  {
    var n := |inBand|;
    var id1 := n / 2 - 1;
    var id2 := if n % 2 == 0 then n / 2 else n / 2 - 1;
    match (PyIndex(id1, n), PyIndex(id2, n))
    case (Some(a), Some(b)) => Some((inBand[a].y + inBand[b].y) / 2.0)
    case _ => None
  }

  /**
   * For an even number of in-band samples the two averaged samples are
   * adjacent and centred: as many samples precede the first as follow the
   * second. The result lies between their y values.
   */
  lemma MiddlePairIsCentred(inBand: seq<Row>)
    requires |inBand| > 0 && |inBand| % 2 == 0
    ensures var a, b := |inBand| / 2 - 1, |inBand| / 2;
            && b == a + 1
            && a == |inBand| - 1 - b
            && var y := MiddleCrossingY(inBand).value;
               (inBand[a].y <= y <= inBand[b].y || inBand[b].y <= y <= inBand[a].y)
  {
  }

  /** The crossing y of one play for a band of half-width `halfWidth`. */
  function EndzoneYPosWithin(gameId: int, playId: int, trackFp: seq<Row>, halfWidth: real): (r: Option<real>)
    ensures r.None? <==> forall row :: row in GetPlay(gameId, playId, trackFp) ==> !WithinGoalBand(row.x, halfWidth)
    ensures r == MiddleCrossingY(InBand(GetPlay(gameId, playId, trackFp), halfWidth))
  {
    var b := InBand(GetPlay(gameId, playId, trackFp), halfWidth);
    assert |b| > 0 ==> b[0] in b;
    MiddleCrossingY(b)
  }

  /**
   * `compute_endzone_y_pos`: NaN exactly when no ball sample of the play is
   * strictly within 2 yards of a goal plane; otherwise the middle-pair
   * crossing of those samples.
   */
  function ComputeEndzoneYPos(gameId: int, playId: int, trackFp: seq<Row>): (r: Option<real>)
    ensures r.None? <==> forall row :: row in GetPlay(gameId, playId, trackFp) ==> !XWithinFgBounds(row.x)
    ensures r == MiddleCrossingY(InBand(GetPlay(gameId, playId, trackFp), 2.0))
  {
    EndzoneYPosWithin(gameId, playId, trackFp, 2.0)
  }

  /** A column of crossing points, one per play row, for a band of half-width `halfWidth`. */
  function EndzoneYColumnWithin(plays: seq<Play>, trackFp: seq<Row>, halfWidth: real): (col: seq<Option<real>>)
    ensures |col| == |plays|
    ensures forall i :: 0 <= i < |plays| ==>
              (col[i].None? <==> forall row :: row in GetPlay(plays[i].gameId, plays[i].playId, trackFp) ==> !WithinGoalBand(row.x, halfWidth))
    ensures forall i :: 0 <= i < |plays| ==> col[i] == EndzoneYPosWithin(plays[i].gameId, plays[i].playId, trackFp, halfWidth)
  {
    seq(|plays|, i requires 0 <= i < |plays| => EndzoneYPosWithin(plays[i].gameId, plays[i].playId, trackFp, halfWidth))
  }

  /** `endzone_y_pos`: the column of crossing points, one per play row. */
  function EndzoneYColumn(plays: seq<Play>, trackFp: seq<Row>): (col: seq<Option<real>>)
    ensures |col| == |plays|
    ensures forall i :: 0 <= i < |plays| ==>
              (col[i].None? <==> forall row :: row in GetPlay(plays[i].gameId, plays[i].playId, trackFp) ==> !XWithinFgBounds(row.x))
    ensures forall i :: 0 <= i < |plays| ==> col[i] == ComputeEndzoneYPos(plays[i].gameId, plays[i].playId, trackFp)
  {
    EndzoneYColumnWithin(plays, trackFp, 2.0)
  }

  /**
   * The y at x = `at` of the straight line through (x1, y1) and (x2, y2):
   * the unique y with (at, y) collinear with the two points. A vertical
   * line (x1 == x2) has no such value: `None` where numpy yields inf or NaN.
   */
  function LineAt(x1: real, y1: real, x2: real, y2: real, at: real): (r: Option<real>)
    ensures r.None? <==> x1 == x2
    ensures r.Some? ==> (r.value - y1) * (x2 - x1) == (y2 - y1) * (at - x1)
  {
    if x2 == x1 then None
    else
      var m := (y2 - y1) / (x2 - x1);
      assert m * (x2 - x1) == y2 - y1;
      assert (m * (at - x1)) * (x2 - x1) == (m * (x2 - x1)) * (at - x1);
      Some(m * (at - x1) + y1)
  }

  /** A point collinear with the two samples is the one `LineAt` returns. */
  lemma LineAtUnique(x1: real, y1: real, x2: real, y2: real, at: real, y: real)
    requires x1 != x2
    requires (y - y1) * (x2 - x1) == (y2 - y1) * (at - x1)
    ensures LineAt(x1, y1, x2, y2, at) == Some(y)
  {
    CancelFactor(y - y1, x2 - x1);
    ScaledQuotient(y2 - y1, at - x1, x2 - x1);
    assert y == ((y2 - y1) / (x2 - x1)) * (at - x1) + y1;
    assert LineAt(x1, y1, x2, y2, at) == Some(((y2 - y1) / (x2 - x1)) * (at - x1) + y1);
  }

  lemma CancelFactor(a: real, d: real)
    requires d != 0.0
    ensures (a * d) / d == a
  {
  }

  lemma ScaledQuotient(a: real, b: real, d: real)
    requires d != 0.0
    ensures (a * b) / d == (a / d) * b
  {
  }

  /** A first sample on the goal plane, or a level line, gives back y1. */
  lemma LineAtLevelOrOnPlane(x1: real, y1: real, x2: real, y2: real, at: real)
    requires x1 != x2
    requires x1 == at || y1 == y2
    ensures LineAt(x1, y1, x2, y2, at) == Some(y1)
  {
    LineAtUnique(x1, y1, x2, y2, at, y1);
  }

  /**
   * The expected crossing from a window: the rows labelled `from` and
   * `from + step` (KeyError if either is missing) define the line, which
   * is read at the goal plane x = 120.
   */
  function KickLine(window: seq<Row>, from: int, step: int): (r: Result<Option<real>>)
    ensures r.Failure? <==> RowWithLabel(window, from).Failure? || RowWithLabel(window, from + step).Failure?
    ensures r.Failure? ==> r.error == KeyError
    ensures r.Success? ==>
              var a, b := RowWithLabel(window, from).value, RowWithLabel(window, from + step).value;
              && a in window && a.index == from && b in window && b.index == from + step
              && (r.value.None? <==> a.x == b.x)
              && (r.value.Some? ==> (r.value.value - a.y) * (b.x - a.x) == (b.y - a.y) * (FieldLength - a.x))
              && r.value == LineAt(a.x, a.y, b.x, b.y, FieldLength)
  {
    var a :- RowWithLabel(window, from);
    var b :- RowWithLabel(window, from + step);
    Success(LineAt(a.x, a.y, b.x, b.y, FieldLength))
  }

  /**
   * `find_kickline`: the expected crossing on the line through the kick
   * moment `event_index` and the row two labels later. Raises IndexError
   * (from `get_event`) when the play lacks the event, KeyError when label
   * `event_index + 2` is not in the window.
   */
  function FindKickline(gameId: int, playId: int, trackFp: seq<Row>, event: string): (r: Result<Option<real>>)
    ensures !HasEvent(GetPlay(gameId, playId, trackFp), event) ==> r == Failure(IndexError)
    ensures HasEvent(GetPlay(gameId, playId, trackFp), event) ==>
              var ev := GetEvent(gameId, playId, trackFp, event).value;
              && (r.Failure? <==> RowWithLabel(ev.0, ev.1 + 2).Failure?)
              && (r.Failure? ==> r.error == KeyError)
              && (r.Success? ==>
                    var a, b := RowWithLabel(ev.0, ev.1).value, RowWithLabel(ev.0, ev.1 + 2).value;
                    r.value == LineAt(a.x, a.y, b.x, b.y, FieldLength))
  {
    var ev := GetEvent(gameId, playId, trackFp, event);
    if ev.Failure? then Failure(ev.error)
    else
      assert RowWithLabel(ev.value.0, ev.value.1).Success?;
      KickLine(ev.value.0, ev.value.1, 2)
  }

  /** `endzone_y_expected`: the column of expected crossings; the first exception aborts it. */
  function EndzoneYExpectedColumn(plays: seq<Play>, trackFp: seq<Row>, event: string): (r: Result<seq<Option<real>>>)
    ensures r.Success? <==> forall i :: 0 <= i < |plays| ==> FindKickline(plays[i].gameId, plays[i].playId, trackFp, event).Success?
    ensures r.Success? ==> |r.value| == |plays|
    ensures r.Success? ==>
              forall i :: 0 <= i < |plays| ==> r.value[i] == FindKickline(plays[i].gameId, plays[i].playId, trackFp, event).value
    ensures r.Failure? ==>
              exists i :: (0 <= i < |plays| &&
                           FindKickline(plays[i].gameId, plays[i].playId, trackFp, event) == Failure(r.error) &&
                           forall j :: 0 <= j < i ==> FindKickline(plays[j].gameId, plays[j].playId, trackFp, event).Success?)
  {
    MapOrFail(plays, (p: Play) => FindKickline(p.gameId, p.playId, trackFp, event))
  }

  /** `np.abs(a - b)` with NaN propagation. */
  function AbsDiff(a: Option<real>, b: Option<real>): (r: Option<real>)
    ensures r.None? <==> a.None? || b.None?
    ensures r.Some? ==> r.value >= 0.0
    ensures r.Some? ==> (r.value == 0.0 <==> a.value == b.value)
    ensures r.Some? ==> r.value == a.value - b.value || r.value == b.value - a.value
  {
    if a.None? || b.None? then None else Some(Abs(a.value - b.value))
  }

  /** The error is symmetric in observed and expected crossing. */
  lemma AbsDiffSymmetric(a: Option<real>, b: Option<real>)
    ensures AbsDiff(a, b) == AbsDiff(b, a)
  {
  }

  /** `endzone_y_error`: elementwise |endzone_y - endzone_y_expected|. */
  function EndzoneYError(endzoneY: seq<Option<real>>, expected: seq<Option<real>>): (col: seq<Option<real>>)
    requires |endzoneY| == |expected|
    ensures |col| == |endzoneY|
    ensures forall i :: 0 <= i < |col| ==>
              (col[i].None? <==> endzoneY[i].None? || expected[i].None?) &&
              (col[i].Some? ==> col[i].value >= 0.0 && (col[i].value == 0.0 <==> endzoneY[i] == expected[i])) &&
              (col[i].Some? ==> col[i].value == endzoneY[i].value - expected[i].value ||
                                col[i].value == expected[i].value - endzoneY[i].value)
  {
    seq(|endzoneY|, i requires 0 <= i < |endzoneY| => AbsDiff(endzoneY[i], expected[i]))
  }

  /** The offset of one crossing from the goal centre 160/6. */
  function OffCenter(y: Option<real>): (r: Option<real>)
    ensures r.None? <==> y.None?
    ensures r.Some? ==> r.value >= 0.0 && (r.value == 0.0 <==> y.value == GoalCentre)
    ensures r.Some? ==> r.value == y.value - GoalCentre || r.value == GoalCentre - y.value
  {
    AbsDiff(y, Some(GoalCentre))
  }

  /** `endzone_y_off_center`: elementwise |endzone_y - 160/6|. */
  function EndzoneYOffCenter(endzoneY: seq<Option<real>>): (col: seq<Option<real>>)
    ensures |col| == |endzoneY|
    ensures forall i :: 0 <= i < |col| ==> col[i] == OffCenter(endzoneY[i])
  {
    seq(|endzoneY|, i requires 0 <= i < |endzoneY| => OffCenter(endzoneY[i]))
  }

  /**
   * `get_opposing_team`: 'away' plays against 'home'; every other label,
   * 'home' included, is taken to play against 'away'.
   */
  function OpposingTeam(kickingTeam: string): (t: string)
    ensures t == "home" || t == "away"
    ensures t == "home" <==> kickingTeam == "away"
  {
    if kickingTeam == "away" then "home" else "away"
  }

  /** On the two team labels the opposing team is an involution without fixed point. */
  lemma OpposingTeamInvolution(team: string)
    requires team == "home" || team == "away"
    ensures OpposingTeam(OpposingTeam(team)) == team
    ensures OpposingTeam(team) != team
  {
  }

  /** Position of the first row of `frame` at position `position`. */
  function FirstAtPosition(frame: seq<Row>, position: string): (r: Option<nat>)
    ensures r.None? <==> forall i :: 0 <= i < |frame| ==> frame[i].position != position
    ensures r.Some? ==> r.value < |frame| && frame[r.value].position == position &&
                        forall j :: 0 <= j < r.value ==> frame[j].position != position
  {
    FirstWhere(frame, (r: Row) => r.position == position)
  }

  /**
   * The kicking specialist of a frame: the first 'K' row if there is one,
   * otherwise the first 'P' row, otherwise none.
   */
  function KickerOf(frame: seq<Row>): (r: Option<Row>)
    ensures r.None? <==> forall i :: 0 <= i < |frame| ==> frame[i].position != "K" && frame[i].position != "P"
    ensures r.Some? ==> r.value in frame
    ensures r.Some? ==> r.value.position == "K" ||
                        (r.value.position == "P" && forall i :: 0 <= i < |frame| ==> frame[i].position != "K")
    ensures r.Some? ==> exists p :: 0 <= p < |frame| && frame[p] == r.value &&
                                    forall j :: 0 <= j < p ==> frame[j].position != r.value.position
  {
    match FirstAtPosition(frame, "K")
    case Some(i) => Some(frame[i])
    case None =>
      match FirstAtPosition(frame, "P")
      case Some(i) => Some(frame[i])
      case None => None
  }

  /** Squared Euclidean distance between two samples. */
  function SqDist(a: Row, b: Row): (d: real)
    ensures d >= 0.0
    ensures a.x == b.x && a.y == b.y ==> d == 0.0
  {
    var dx, dy := a.x - b.x, a.y - b.y;
    assert dx * dx >= 0.0 && dy * dy >= 0.0;
    dx * dx + dy * dy
  }

  /** The rows of `frame` on the team opposing `kicker`. */
  function Opponents(frame: seq<Row>, kicker: Row): (o: seq<Row>)
    ensures forall r :: r in o <==> r in frame && r.team == OpposingTeam(kicker.team)
  {
    Filter(frame, (r: Row) => r.team == OpposingTeam(kicker.team))
  }

  /** Squared distances from `kicker` to each opponent in the frame. */
  function OpponentSqDistances(frame: seq<Row>, kicker: Row): (ds: seq<real>)
    ensures |ds| == |Opponents(frame, kicker)|
    ensures forall i :: 0 <= i < |ds| ==> ds[i] == SqDist(kicker, Opponents(frame, kicker)[i]) && ds[i] >= 0.0
  {
    var o := Opponents(frame, kicker);
    seq(|o|, i requires 0 <= i < |o| => SqDist(kicker, o[i]))
  }

  /**
   * The core distance at one frame: the k-th smallest (1-based, read with
   * `iloc[k-1]`) kicker-to-opponent distance. NaN when the frame has no
   * 'K' and no 'P'; IndexError when fewer than k opponents are present.
   * For k >= 1 the result d is the k-th order statistic: fewer than k
   * opponents are strictly closer than d and at least k are within d.
   */
  function CoreDistAtFrame(frame: seq<Row>, k: int): (r: Result<Option<real>>)
    ensures r == Success(None) <==> KickerOf(frame).None?
    ensures KickerOf(frame).Some? && k >= 1 ==>
              var ds := OpponentSqDistances(frame, KickerOf(frame).value);
              && (r.Failure? <==> |ds| < k)
              && (r.Failure? ==> r.error == IndexError)
              && (r.Success? ==> r.value.Some? && r.value.value >= 0.0 && r.value.value in ds &&
                                 CountBelow(ds, r.value.value) < k <= CountAtMost(ds, r.value.value))
  {
    match KickerOf(frame)
    case None => Success(None)
    case Some(kicker) =>
      var ds := OpponentSqDistances(frame, kicker);
      var sorted := Sort(ds);
      match PyIndex(k - 1, |sorted|)
      case None => Failure(IndexError)
      case Some(j) =>
        assert sorted[j] in multiset(ds) by {
          assert sorted[j] in multiset(sorted);
        }
        SortedOrderStatistic(sorted, j);
        Success(Some(sorted[j]))
  }

  /** The core distance does not decrease as k grows. */
  lemma CoreDistMonotone(frame: seq<Row>, k1: int, k2: int)
    requires 1 <= k1 <= k2
    requires CoreDistAtFrame(frame, k2).Success? && CoreDistAtFrame(frame, k2).value.Some?
    ensures CoreDistAtFrame(frame, k1).Success? && CoreDistAtFrame(frame, k1).value.Some?
    ensures CoreDistAtFrame(frame, k1).value.value <= CoreDistAtFrame(frame, k2).value.value
  {
    CoreDistNeedsKOpponents(frame, k2);
    var ds := OpponentSqDistances(frame, KickerOf(frame).value);
    var a, b := CoreDistAtFrame(frame, k1).value.value, CoreDistAtFrame(frame, k2).value.value;
    if b < a {
      CountsAcrossThreshold(ds, b, a);
    }
  }

  /** A core distance for k means a kicker and at least k opponents. */
  lemma CoreDistNeedsKOpponents(frame: seq<Row>, k: int)
    requires k >= 1
    requires CoreDistAtFrame(frame, k).Success? && CoreDistAtFrame(frame, k).value.Some?
    ensures KickerOf(frame).Some?
    ensures |OpponentSqDistances(frame, KickerOf(frame).value)| >= k
  {
  }

  /** With a kicker and at least k opponents, the core distance is entry k - 1 of the sorted distances. */
  lemma CoreDistIsSortedEntry(frame: seq<Row>, k: int)
    requires k >= 1
    requires KickerOf(frame).Some?
    requires |OpponentSqDistances(frame, KickerOf(frame).value)| >= k
    ensures CoreDistAtFrame(frame, k) == Success(Some(Sort(OpponentSqDistances(frame, KickerOf(frame).value))[k - 1]))
  {
    var sorted := Sort(OpponentSqDistances(frame, KickerOf(frame).value));
    assert PyIndex(k - 1, |sorted|) == Some(k - 1);
  }

  /** A home kicker at (0, 0) in frame 7 of a play. */
  function ExampleKicker(): Row {
    Row(0, 1, 1, 7, "home", "K", "kicker", "right", 0.0, 0.0, 0.0, None)
  }

  /** Four away players of the same frame at x = 1, 2, 3, 4 on the kicker's line. */
  function ExampleOpponents(): seq<Row> {
    [Row(1, 1, 1, 7, "away", "LB", "a", "right", 1.0, 0.0, 0.0, None),
     Row(2, 1, 1, 7, "away", "LB", "b", "right", 2.0, 0.0, 0.0, None),
     Row(3, 1, 1, 7, "away", "LB", "c", "right", 3.0, 0.0, 0.0, None),
     Row(4, 1, 1, 7, "away", "LB", "d", "right", 4.0, 0.0, 0.0, None)]
  }

  lemma ExampleKickerAndOpponents()
    ensures KickerOf([ExampleKicker()] + ExampleOpponents()) == Some(ExampleKicker())
    ensures Opponents([ExampleKicker()] + ExampleOpponents(), ExampleKicker()) == ExampleOpponents()
  {
    ExampleKickerFound();
    ExampleOpponentsFound();
  }

  lemma ExampleKickerFound()
    ensures KickerOf([ExampleKicker()] + ExampleOpponents()) == Some(ExampleKicker())
  {
    assert FirstAtPosition([ExampleKicker()] + ExampleOpponents(), "K") == Some(0);
  }

  lemma ExampleOpponentsFound()
    ensures Opponents([ExampleKicker()] + ExampleOpponents(), ExampleKicker()) == ExampleOpponents()
  {
    var keep := (r: Row) => r.team == OpposingTeam(ExampleKicker().team);
    var frame := [ExampleKicker()] + ExampleOpponents();
    assert frame[1..] == ExampleOpponents();
    assert !keep(frame[0]);
    assert forall i :: 0 <= i < 4 ==> ExampleOpponents()[i].team == "away";
    FilterAllKept(ExampleOpponents(), keep);
  }

  lemma ExampleDistances()
    ensures OpponentSqDistances([ExampleKicker()] + ExampleOpponents(), ExampleKicker()) == [1.0, 4.0, 9.0, 16.0]
  {
    ExampleKickerAndOpponents();
    ExampleOpponentDistances();
  }

  lemma ExampleOpponentDistances()
    ensures forall i :: 0 <= i < 4 ==> SqDist(ExampleKicker(), ExampleOpponents()[i]) == [1.0, 4.0, 9.0, 16.0][i]
  {
  }

  lemma SortedLiteral()
    ensures Sorted([1.0, 4.0, 9.0, 16.0])
  {
  }

  /**
   * A kicker at (0, 0) and four opponents at distances 1, 2, 3 and 4: the
   * third-nearest is at squared distance 9, and asking for the fifth
   * raises IndexError.
   */
  lemma CoreDistWorkedExample()
    ensures CoreDistAtFrame([ExampleKicker()] + ExampleOpponents(), 3) == Success(Some(9.0))
    ensures CoreDistAtFrame([ExampleKicker()] + ExampleOpponents(), DefaultK) == Failure(IndexError)
  {
    var frame := [ExampleKicker()] + ExampleOpponents();
    ExampleKickerAndOpponents();
    ExampleDistances();
    var ds := OpponentSqDistances(frame, ExampleKicker());
    SortedLiteral();
    SortOfSorted(ds);
    CoreDistIsSortedEntry(frame, 3);
  }

  /** The rows of a play at frame `frameId`: `play_ex[play_ex['frameId'] == kick_frame]`. */
  function FrameRows(play: seq<Row>, frameId: int): (f: seq<Row>)
    ensures forall r :: r in f <==> r in play && r.frameId == frameId
  {
    Filter(play, (r: Row) => r.frameId == frameId)
  }

  /** The default neighbour rank `k` of `compute_kicker_core_dist`. */
  const DefaultK: int := 5

  /**
   * `compute_kicker_core_dist`: the kick moment comes from the ball
   * tracking (`get_event`, whose IndexError is not caught), the kick frame
   * is the frameId of the row labelled `event_index`, and the core
   * distance is taken among all tracked rows of the play at that frame.
   */
  function ComputeKickerCoreDist(gameId: int, playId: int, tracking: seq<Row>, trackFp: seq<Row>,
                                 event: string, k: int): (r: Result<Option<real>>)
    ensures !HasEvent(GetPlay(gameId, playId, trackFp), event) ==> r == Failure(IndexError)
    ensures HasEvent(GetPlay(gameId, playId, trackFp), event) ==>
              var ev := GetEvent(gameId, playId, trackFp, event).value;
              var kickRow := LabelledRow(ev.0, ev.1);
              r == CoreDistAtFrame(FrameRows(GetPlay(gameId, playId, tracking), kickRow.frameId), k)
    ensures HasEvent(GetPlay(gameId, playId, trackFp), event) && LabelsIncreasing(GetPlay(gameId, playId, trackFp)) ==>
              var kick := LocateKick(GetPlay(gameId, playId, trackFp), event, true).value;
              r == CoreDistAtFrame(FrameRows(GetPlay(gameId, playId, tracking), kick.peak.frameId), k)
  {
    var play := GetPlay(gameId, playId, tracking);
    var ev :- GetEvent(gameId, playId, trackFp, event);
    var kickRow := LabelledRow(ev.0, ev.1);
    assert LabelsIncreasing(GetPlay(gameId, playId, trackFp)) ==>
             kickRow == LocateKick(GetPlay(gameId, playId, trackFp), event, true).value.peak by {
      if LabelsIncreasing(GetPlay(gameId, playId, trackFp)) {
        GetEventPeakRow(gameId, playId, trackFp, event);
      }
    }
    CoreDistAtFrame(FrameRows(play, kickRow.frameId), k)
  }

  /**
   * `kicker_core_dist`: the column of core distances over the three seasons'
   * tracking concatenated; the first exception aborts it.
   */
  function KickerCoreDistColumn(plays: seq<Play>, track18: seq<Row>, track19: seq<Row>, track20: seq<Row>,
                                trackFp: seq<Row>, event: string, k: int): (r: Result<seq<Option<real>>>)
    ensures r.Success? <==> forall i :: 0 <= i < |plays| ==>
              ComputeKickerCoreDist(plays[i].gameId, plays[i].playId, track18 + track19 + track20, trackFp, event, k).Success?
    ensures r.Success? ==> |r.value| == |plays|
    ensures r.Success? ==>
              forall i :: 0 <= i < |plays| ==>
                r.value[i] == ComputeKickerCoreDist(plays[i].gameId, plays[i].playId, track18 + track19 + track20, trackFp, event, k).value
    ensures r.Failure? ==>
              exists i :: (0 <= i < |plays| &&
                           ComputeKickerCoreDist(plays[i].gameId, plays[i].playId, track18 + track19 + track20,
                                                 trackFp, event, k) == Failure(r.error) &&
                           forall j :: 0 <= j < i ==>
                             ComputeKickerCoreDist(plays[j].gameId, plays[j].playId, track18 + track19 + track20,
                                                   trackFp, event, k).Success?)
  {
    var tracking := track18 + track19 + track20;
    MapOrFail(plays, (p: Play) => ComputeKickerCoreDist(p.gameId, p.playId, tracking, trackFp, event, k))
  }
}
