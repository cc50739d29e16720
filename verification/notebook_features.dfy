/**
 * Feature_engineering.py: the notebook version of the goal-plane features.
 * It shares `get_play` and the kick-moment rule with the pipeline, but
 * never widens the window and returns the peak's frameId, uses a band of
 * half-width 1 around the goal planes, and extrapolates through the kick
 * row and the row one label later, found from a frameId.
 */
module NotebookFeatures {
  import opened Results
  import opened Seqs
  import opened Tracking
  import opened TrackingQuery
  import FeatureEngineering

  /**
   * `get_event`: the ±5-label window around the first row carrying
   * `event`, never widened, and the frameId of `play.loc[max_index]`, the
   * play's row carrying the label of the window's first maximum-speed row.
   * Without the event, `.values[0]` raises IndexError.
   */
  function GetEvent(gameId: int, playId: int, tracking: seq<Row>, event: string): (r: Result<(seq<Row>, int)>)
    ensures r.Failure? <==> !HasEvent(GetPlay(gameId, playId, tracking), event)
    ensures r.Failure? ==> r.error == IndexError
    ensures r.Success? ==>
              var play := GetPlay(gameId, playId, tracking);
              var window := r.value.0;
              && window == LabelWindow(play, EventLabel(play, event), 5)
              && exists peak :: IsFirstFastest(window, peak) &&
                                (exists row :: row in play && row.index == peak.index && row.frameId == r.value.1) &&
                                (LabelsIncreasing(play) ==> r.value.1 == peak.frameId)
  {
    var play := GetPlay(gameId, playId, tracking);
    var kick :- LocateKick(play, event, false);
    assert kick.peak in play;
    var row := LabelledRow(play, kick.peak.index);
    assert LabelsIncreasing(play) ==> row == kick.peak by {
      if LabelsIncreasing(play) {
        LabelledRowFindsRow(play, kick.peak);
      }
    }
    Success((kick.window, row.frameId))
  }

  /** With increasing labels the frame returned is the frame of the window's first maximum-speed row. */
  lemma GetEventFrameOfPeak(gameId: int, playId: int, tracking: seq<Row>, event: string)
    requires LabelsIncreasing(GetPlay(gameId, playId, tracking))
    requires HasEvent(GetPlay(gameId, playId, tracking), event)
    ensures var play := GetPlay(gameId, playId, tracking);
            var r := GetEvent(gameId, playId, tracking, event);
            && r.Success?
            && r.value.1 == LocateKick(play, event, false).value.peak.frameId
            && r.value.0 == LocateKick(play, event, false).value.window
  {
    var play := GetPlay(gameId, playId, tracking);
    LabelledRowFindsRow(play, LocateKick(play, event, false).value.peak);
  }

  /** `x_within_fg_bounds`: strictly within one yard of either goal plane. */
  function XWithinFgBounds(x: real): (b: bool)
    ensures b <==> (119.0 < x < 121.0) || (-1.0 < x < 1.0)
  {
    FeatureEngineering.WithinGoalBand(x, 1.0)
  }

  /** The one-yard band lies inside the pipeline's two-yard band. */
  lemma NarrowBandInsidePipelineBand(x: real)
    ensures XWithinFgBounds(x) ==> FeatureEngineering.XWithinFgBounds(x)
  {
  }

  /**
   * `compute_endzone_y_pos`: NaN exactly when no sample of the play is
   * strictly within one yard of a goal plane (the bare `except` catches
   * the IndexError); otherwise the middle-pair rule of the pipeline.
   */
  function ComputeEndzoneYPos(gameId: int, playId: int, tracking: seq<Row>): (r: Option<real>)
    ensures r.None? <==> forall row :: row in GetPlay(gameId, playId, tracking) ==> !XWithinFgBounds(row.x)
    ensures r == FeatureEngineering.MiddleCrossingY(FeatureEngineering.InBand(GetPlay(gameId, playId, tracking), 1.0))
  {
    FeatureEngineering.EndzoneYPosWithin(gameId, playId, tracking, 1.0)
  }

  /** A play crossing in the one-yard band also crosses in the pipeline's band. */
  lemma NarrowCrossingImpliesPipelineCrossing(gameId: int, playId: int, tracking: seq<Row>)
    ensures ComputeEndzoneYPos(gameId, playId, tracking).Some? ==>
              FeatureEngineering.ComputeEndzoneYPos(gameId, playId, tracking).Some?
  {
    var play := GetPlay(gameId, playId, tracking);
    if ComputeEndzoneYPos(gameId, playId, tracking).Some? {
      var row :| row in play && XWithinFgBounds(row.x);
      NarrowBandInsidePipelineBand(row.x);
    }
  }

  /** `endzone_y_pos`: the column of crossing points, one per play row. */
  function EndzoneYColumn(plays: seq<Play>, tracking: seq<Row>): (col: seq<Option<real>>)
    ensures |col| == |plays|
    ensures forall i :: 0 <= i < |plays| ==>
              (col[i].None? <==> forall row :: row in GetPlay(plays[i].gameId, plays[i].playId, tracking) ==> !XWithinFgBounds(row.x))
    ensures forall i :: 0 <= i < |plays| ==> col[i] == ComputeEndzoneYPos(plays[i].gameId, plays[i].playId, tracking)
  {
    FeatureEngineering.EndzoneYColumnWithin(plays, tracking, 1.0)
  }

  /** Position of the first row of `rows` in frame `frameId`. */
  function FirstInFrame(rows: seq<Row>, frameId: int): (r: Option<nat>)
    ensures r.None? <==> forall i :: 0 <= i < |rows| ==> rows[i].frameId != frameId
    ensures r.Some? ==> r.value < |rows| && rows[r.value].frameId == frameId &&
                        forall j :: 0 <= j < r.value ==> rows[j].frameId != frameId
  {
    FirstWhere(rows, (r: Row) => r.frameId == frameId)
  }

  /**
   * `find_kickline(event_df, frame_id)`: the label of the first window row
   * in frame `frameId` (IndexError if there is none) and the row one label
   * later (KeyError if it is missing) define the line read at x = 120.
   */
  function FindKickline(window: seq<Row>, frameId: int): (r: Result<Option<real>>)
    ensures (forall i :: 0 <= i < |window| ==> window[i].frameId != frameId) ==> r == Failure(IndexError)
    ensures FirstInFrame(window, frameId).Some? ==>
              var i := window[FirstInFrame(window, frameId).value].index;
              && (r.Failure? <==> RowWithLabel(window, i + 1).Failure?)
              && (r.Failure? ==> r.error == KeyError)
              && (r.Success? ==>
                    var a, b := RowWithLabel(window, i).value, RowWithLabel(window, i + 1).value;
                    r.value == FeatureEngineering.LineAt(a.x, a.y, b.x, b.y, FieldLength))
  {
    match FirstInFrame(window, frameId)
    case None => Failure(IndexError)
    case Some(p) =>
      assert RowWithLabel(window, window[p].index).Success?;
      FeatureEngineering.KickLine(window, window[p].index, 1)
  }

  /**
   * With increasing labels, the extrapolation runs through the first row
   * of the frame and the row labelled one more: the y at x = 120 on the
   * line through those two rows.
   */
  lemma FindKicklineThroughRows(window: seq<Row>, frameId: int, p: nat, j: nat)
    requires LabelsIncreasing(window)
    requires FirstInFrame(window, frameId) == Some(p)
    requires j < |window| && window[j].index == window[p].index + 1
    ensures FindKickline(window, frameId) ==
            Success(FeatureEngineering.LineAt(window[p].x, window[p].y, window[j].x, window[j].y, FieldLength))
  {
    LabelledRowsFound(window, p, j);
  }

  lemma LabelledRowsFound(window: seq<Row>, p: nat, j: nat)
    requires LabelsIncreasing(window)
    requires p < |window| && j < |window|
    ensures RowWithLabel(window, window[p].index) == Success(window[p])
    ensures RowWithLabel(window, window[j].index) == Success(window[j])
  {
    LabelledRowFindsRow(window, window[p]);
    LabelledRowFindsRow(window, window[j]);
  }
}
