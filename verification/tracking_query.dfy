/**
 * querying/tracking_query.py: locating a play in a tracking table, splitting
 * one frame of it by team, and locating the moment of the kick.
 *
 * `LocateKick` is the kick-moment rule shared by every notebook variant; the
 * variants differ only in whether the window is widened and in what they
 * return, so `widen` is a parameter and each module instantiates it.
 */
module TrackingQuery {
  import opened Results
  import opened Seqs
  import opened Tracking

  /**
   * `get_play`: the rows of `tracking` whose gameId and playId are the
   * requested ones, each exactly as often as in the input, in input order.
   * No match is an empty table, not an error.
   */
  function GetPlay(gameId: int, playId: int, tracking: seq<Row>): (play: seq<Row>)
    ensures forall r :: r in play <==> r in tracking && r.gameId == gameId && r.playId == playId
    ensures forall r :: multiset(play)[r] ==
              if r.gameId == gameId && r.playId == playId then multiset(tracking)[r] else 0
    ensures IsSubsequence(play, tracking)
    ensures (forall i :: 0 <= i < |tracking| ==> tracking[i].gameId != gameId || tracking[i].playId != playId)
              ==> play == []
  {
    var play := Filter(tracking, (r: Row) => r.gameId == gameId && r.playId == playId);
    assert |play| > 0 ==> play[0] in play;
    play
  }

  /** Locating a play inside an already located play changes nothing. */
  lemma GetPlayIdempotent(gameId: int, playId: int, tracking: seq<Row>)
    ensures GetPlay(gameId, playId, GetPlay(gameId, playId, tracking)) == GetPlay(gameId, playId, tracking)
  {
    FilterAllKept(GetPlay(gameId, playId, tracking), (r: Row) => r.gameId == gameId && r.playId == playId);
  }

  /** The three per-team groups of one frame that `get_play_frame` returns. */
  datatype FrameGroups = FrameGroups(home: seq<Row>, away: seq<Row>, ball: seq<Row>)

  /** The rows of `rows` in frame `frameId` whose team is `team`. */
  function FrameTeam(rows: seq<Row>, frameId: int, team: string): (g: seq<Row>)
    ensures forall r :: r in g <==> r in rows && r.frameId == frameId && r.team == team
    ensures forall r :: multiset(g)[r] ==
              if r.frameId == frameId && r.team == team then multiset(rows)[r] else 0
  {
    var frame := Filter(rows, (r: Row) => r.frameId == frameId);
    Filter(frame, (r: Row) => r.team == team)
  }

  /**
   * `get_play_frame`: the rows of frame `frameId` split into the 'home',
   * 'away' and 'football' groups. The groups are pairwise disjoint, each
   * holds every row of its team at that frame, and rows of any other team
   * are in none of them.
   */
  function GetPlayFrame(play: seq<Row>, frameId: int): (g: FrameGroups)
    ensures forall r :: r in g.home <==> r in play && r.frameId == frameId && r.team == "home"
    ensures forall r :: r in g.away <==> r in play && r.frameId == frameId && r.team == "away"
    ensures forall r :: r in g.ball <==> r in play && r.frameId == frameId && r.team == "football"
    ensures forall r: Row :: r.frameId == frameId && r.team == "home" ==> multiset(g.home)[r] == multiset(play)[r]
    ensures forall r: Row :: r.frameId == frameId && r.team == "away" ==> multiset(g.away)[r] == multiset(play)[r]
    ensures forall r: Row :: r.frameId == frameId && r.team == "football" ==> multiset(g.ball)[r] == multiset(play)[r]
    ensures forall r :: r in g.home ==> r !in g.away && r !in g.ball
    ensures forall r :: r in g.away ==> r !in g.ball
    ensures forall r: Row :: r.team != "home" && r.team != "away" && r.team != "football" ==>
              r !in g.home && r !in g.away && r !in g.ball
  {
    FrameGroups(FrameTeam(play, frameId, "home"), FrameTeam(play, frameId, "away"),
                FrameTeam(play, frameId, "football"))
  }

  /** Some row of `rows` carries `event`. */
  ghost predicate HasEvent(rows: seq<Row>, event: string) {
    exists i :: 0 <= i < |rows| && rows[i].event == Some(event)
  }

  /** Position of the first row carrying `event`, or `None` when there is none. */
  function FindEvent(rows: seq<Row>, event: string): (r: Option<nat>)
    ensures r.None? <==> !HasEvent(rows, event)
    ensures r.Some? ==> r.value < |rows| && rows[r.value].event == Some(event) &&
                        forall j :: 0 <= j < r.value ==> rows[j].event != Some(event)
  {
    FirstWhere(rows, (r: Row) => r.event == Some(event))
  }

  /** The label of the first row carrying `event`: `play.index[play['event'] == event].values[0]`. */
  function EventLabel(rows: seq<Row>, event: string): int
    requires HasEvent(rows, event)
  {
    rows[FindEvent(rows, event).value].index
  }

  /** `peak` is the last or second-to-last label of `window`. */
  predicate PeakAtWindowEnd(window: seq<Row>, peak: int) {
    |window| > 0 &&
    (window[|window| - 1].index == peak || (|window| >= 2 && window[|window| - 2].index == peak))
  }

  /** `peak` is the first row of `window` of maximum speed (pandas `idxmax`). */
  ghost predicate IsFirstFastest(window: seq<Row>, peak: Row) {
    exists p :: 0 <= p < |window| && window[p] == peak &&
                (forall j :: 0 <= j < |window| ==> window[j].s <= peak.s) &&
                (forall j :: 0 <= j < p ==> window[j].s < peak.s)
  }

  /** `window.loc[window['s'].idxmax()]`: the first row of maximum speed. */
  function FirstFastest(window: seq<Row>): (peak: Row)
    requires |window| > 0
    ensures IsFirstFastest(window, peak)
    ensures peak in window
  {
    var p := FirstArgMax(Speeds(window));
    assert forall j :: 0 <= j < |window| ==> window[j].s == Speeds(window)[j];
    window[p]
  }

  /** The window around the kick and the row taken as the moment of the kick. */
  datatype Kick = Kick(window: seq<Row>, peak: Row)

  /**
   * The kick-moment rule of `get_event` on the rows of one play: the first
   * row carrying `event` fixes a centre label i; the rows labelled
   * i-5 .. i+5 form the window; its first maximum-speed row is the peak.
   * When `widen` holds and the peak is the window's last or second-to-last
   * row, the window is replaced by labels i-10 .. i+10, but the peak is kept.
   * Without the event, `.values[0]` raises IndexError.
   */
  function LocateKick(play: seq<Row>, event: string, widen: bool): (r: Result<Kick>)
    ensures r.Failure? <==> !HasEvent(play, event)
    ensures r.Failure? ==> r.error == IndexError
    ensures r.Success? ==>
              var i := EventLabel(play, event);
              var narrow := LabelWindow(play, i, 5);
              && IsFirstFastest(narrow, r.value.peak)
              && r.value.window == (if widen && PeakAtWindowEnd(narrow, r.value.peak.index)
                                    then LabelWindow(play, i, 10) else narrow)
              && r.value.peak in r.value.window
  {
    match FindEvent(play, event)
    case None => Failure(IndexError)
    case Some(pos) =>
      var i := play[pos].index;
      assert i == EventLabel(play, event);
      var narrow := LabelWindow(play, i, 5);
      assert play[pos] in narrow;
      var peak := FirstFastest(narrow);
      var window := if widen && PeakAtWindowEnd(narrow, peak.index) then LabelWindow(play, i, 10) else narrow;
      assert peak in window by {
        WidenedWindowContainsNarrow(play, i);
      }
      Success(Kick(window, peak))
  }

  /**
   * `get_event`: locate the play in the ball-tracking table, then return the
   * (possibly widened) window and the label of the peak row, `event_index`.
   * The returned window always contains the row labelled `event_index`.
   */
  function GetEvent(gameId: int, playId: int, trackFp: seq<Row>, event: string): (r: Result<(seq<Row>, int)>)
    ensures r.Failure? <==> !HasEvent(GetPlay(gameId, playId, trackFp), event)
    ensures r.Failure? ==> r == Failure(IndexError)
    ensures r.Success? ==>
              var kick := LocateKick(GetPlay(gameId, playId, trackFp), event, true).value;
              r.value == (kick.window, kick.peak.index)
    ensures r.Success? ==> exists k :: 0 <= k < |r.value.0| && r.value.0[k].index == r.value.1
  {
    var kick :- LocateKick(GetPlay(gameId, playId, trackFp), event, true);
    var k :| 0 <= k < |kick.window| && kick.window[k] == kick.peak;
    Success((kick.window, kick.peak.index))
  }

  /**
   * With increasing labels, the row `.loc[event_index]` of the returned
   * window is the peak row itself, so its frame is the kick frame.
   */
  lemma GetEventPeakRow(gameId: int, playId: int, trackFp: seq<Row>, event: string)
    requires LabelsIncreasing(GetPlay(gameId, playId, trackFp))
    requires HasEvent(GetPlay(gameId, playId, trackFp), event)
    ensures var ev := GetEvent(gameId, playId, trackFp, event).value;
            && RowWithLabel(ev.0, ev.1).Success?
            && LabelledRow(ev.0, ev.1) == LocateKick(GetPlay(gameId, playId, trackFp), event, true).value.peak
  {
    var play := GetPlay(gameId, playId, trackFp);
    var kick := LocateKick(play, event, true).value;
    SubsequenceKeepsLabelsIncreasing(kick.window, play);
    LabelledRowFindsRow(kick.window, kick.peak);
  }

  /** With increasing labels the first window holds at most 11 rows, among them the event row. */
  lemma NarrowWindowShape(play: seq<Row>, event: string)
    requires LabelsIncreasing(play)
    requires HasEvent(play, event)
    ensures |LabelWindow(play, EventLabel(play, event), 5)| <= 11
    ensures play[FindEvent(play, event).value] in LabelWindow(play, EventLabel(play, event), 5)
  {
    LabelWindowSize(play, EventLabel(play, event), 5);
  }

  /**
   * The peak of the first window is fast: its speed is at least that of
   * every row labelled within 5 of the event.
   */
  lemma PeakDominatesNarrowWindow(play: seq<Row>, event: string, widen: bool)
    requires HasEvent(play, event)
    ensures var k := LocateKick(play, event, widen).value;
            forall r :: r in play && EventLabel(play, event) - 5 <= r.index <= EventLabel(play, event) + 5
                        ==> r.s <= k.peak.s
  {
    var i := EventLabel(play, event);
    var narrow := LabelWindow(play, i, 5);
    var peak := LocateKick(play, event, widen).value.peak;
    assert IsFirstFastest(narrow, peak);
    forall r | r in play && i - 5 <= r.index <= i + 5
      ensures r.s <= peak.s
    {
      assert r in narrow;
      FastestDominates(narrow, peak, r);
    }
  }

  lemma FastestDominates(window: seq<Row>, peak: Row, r: Row)
    requires IsFirstFastest(window, peak)
    requires r in window
    ensures r.s <= peak.s
  {
    var j :| 0 <= j < |window| && window[j] == r;
  }

  /**
   * The widened window contains the first one, so the peak, which is not
   * recomputed, is still inside whatever window is returned.
   */
  lemma WidenedWindowContainsNarrow(play: seq<Row>, centre: int)
    ensures forall r :: r in LabelWindow(play, centre, 5) ==> r in LabelWindow(play, centre, 10)
  {
  }

  /**
   * A play whose row `top` is strictly faster than every other row, labelled
   * within 5 of the event, yields `top` as the moment of the kick, whether
   * or not the window is widened.
   */
  lemma UniquePeakIsFound(play: seq<Row>, event: string, widen: bool, top: Row)
    requires HasEvent(play, event)
    requires top in play
    requires EventLabel(play, event) - 5 <= top.index <= EventLabel(play, event) + 5
    requires forall r :: r in play && r != top ==> r.s < top.s
    ensures LocateKick(play, event, widen).value.peak == top
  {
    var k := LocateKick(play, event, widen).value;
    var narrow := LabelWindow(play, EventLabel(play, event), 5);
    assert top in narrow;
    var t :| 0 <= t < |narrow| && narrow[t] == top;
    assert top.s <= k.peak.s;
    assert k.peak in play;
  }
}
