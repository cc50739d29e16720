/**
 * pipeline/preprocessing.py: the table preparation that precedes feature
 * derivation, and the sanity filter that drops plays whose labelled kick
 * is implausibly far from the ball's speed peak.
 *
 * The two clock formulas of the notebooks are one function with a
 * `MinuteReading` parameter; this module uses `MinutesRemaining`.
 */
module Preprocessing {
  import opened Results
  import opened Seqs
  import opened Text
  import opened Tracking
  import opened TrackingQuery
  import opened FeatureEngineering

  /**
   * `ft_in`: a height "feet-inches" in inches, using only the first two
   * dash-separated fields; a string without a dash is read as a plain
   * integer. A field `int()` rejects raises ValueError.
   */
  function FtIn(height: string): (r: Result<int>)
    ensures '-' !in height ==> r == (match ParseInt(height) case Some(n) => Success(n) case None => Failure(ValueError))
    ensures '-' in height ==>
              (r.Failure? <==> ParseInt(Split(height, '-')[0]).None? || ParseInt(Split(height, '-')[1]).None?)
    ensures r.Failure? ==> r.error == ValueError
  {
    if '-' in height then
      var parts := Split(height, '-');
      match (ParseInt(parts[0]), ParseInt(parts[1]))
      case (Some(feet), Some(inches)) => Success(feet * 12 + inches)
      case _ => Failure(ValueError)
    else
      match ParseInt(height)
      case Some(n) => Success(n)
      case None => Failure(ValueError)
  }

  lemma NatToStringHasNo(n: nat, c: char)
    requires !IsDigit(c)
    ensures c !in NatToString(n)
  {
    var s := NatToString(n);
    assert forall i :: 0 <= i < |s| ==> IsDigit(s[i]);
  }

  /** A zero-padded rendering of a natural holds no character other than digits. */
  lemma PaddedHasNo(z: nat, n: nat, c: char)
    requires !IsDigit(c)
    ensures c !in Padded(z, n)
  {
    NatToStringHasNo(n, c);
  }

  /** A height written "a-b" reads as 12 * a + b inches. */
  lemma FtInFeetInches(feet: nat, inches: nat)
    ensures FtIn(NatToString(feet) + "-" + NatToString(inches)) == Success(12 * feet + inches)
  {
    var a, b := NatToString(feet), NatToString(inches);
    var s := a + "-" + b;
    NatToStringHasNo(feet, '-');
    NatToStringHasNo(inches, '-');
    assert s == a + ['-'] + b;
    SplitTwoFields(a, '-', b);
    assert s[|a|] == '-';
    assert '-' in s;
    ParseNatToString(feet);
    ParseNatToString(inches);
    assert Split(s, '-') == [a, b];
  }

  /** FtIn on a string whose first two dash-separated fields are known. */
  lemma FtInOfFields(height: string, feet: int, inches: int)
    requires '-' in height
    requires ParseInt(Split(height, '-')[0]) == Some(feet)
    requires ParseInt(Split(height, '-')[1]) == Some(inches)
    ensures FtIn(height) == Success(12 * feet + inches)
  {
  }

  /** Fields after the second are ignored: "a-b-c" reads as 12 * a + b. */
  lemma FtInIgnoresLaterFields(feet: nat, inches: nat, rest: string)
    ensures FtIn(NatToString(feet) + "-" + NatToString(inches) + "-" + rest) == Success(12 * feet + inches)
  {
    var a, b := NatToString(feet), NatToString(inches);
    var s := a + "-" + b + "-" + rest;
    NatToStringHasNo(feet, '-');
    NatToStringHasNo(inches, '-');
    assert s == a + ['-'] + b + ['-'] + rest;
    SplitLeadingFields(a, '-', b, rest);
    assert s[|a|] == '-';
    ParseNatToString(feet);
    ParseNatToString(inches);
    FtInOfFields(s, feet, inches);
  }

  /** A height without a dash reads as the number it spells. */
  lemma FtInPlainNumber(n: nat)
    ensures FtIn(NatToString(n)) == Success(n)
  {
    NatToStringHasNo(n, '-');
    ParseNatToString(n);
  }

  /** `preprocess_players`: the height column converted by `ft_in`; the first bad height aborts it. */
  function PreprocessPlayers(heights: seq<string>): (r: Result<seq<int>>)
    ensures r.Success? <==> forall i :: 0 <= i < |heights| ==> FtIn(heights[i]).Success?
    ensures r.Success? ==> |r.value| == |heights| && forall i :: 0 <= i < |heights| ==> r.value[i] == FtIn(heights[i]).value
    ensures r.Failure? ==> r.error == ValueError
  {
    MapOrFail(heights, FtIn)
  }

  /** A column of "feet-inches" heights converts to 12 * feet + inches, row by row. */
  lemma PreprocessPlayersFeetInches(heights: seq<string>, feet: seq<nat>, inches: seq<nat>)
    requires |heights| == |feet| == |inches|
    requires forall i :: 0 <= i < |heights| ==> heights[i] == NatToString(feet[i]) + "-" + NatToString(inches[i])
    ensures PreprocessPlayers(heights).Success?
    ensures forall i :: 0 <= i < |heights| ==> PreprocessPlayers(heights).value[i] == 12 * feet[i] + inches[i]
  {
    forall i | 0 <= i < |heights| ensures FtIn(heights[i]) == Success(12 * feet[i] + inches[i]) {
      FtInFeetInches(feet[i], inches[i]);
    }
  }

  /**
   * How the minutes field of the game clock is read: as minutes remaining
   * in the quarter (this module) or as minutes elapsed (an older notebook).
   */
  datatype MinuteReading = MinutesRemaining | MinutesElapsed

  /**
   * `clock`: seconds from the "MM:SS..." game clock and the quarter,
   * ((15 - MM) + 15 * (quarter - 1)) * 60 + SS when minutes count down,
   * (MM + 15 * (quarter - 1)) * 60 + SS when they count up. Fields after
   * the second are ignored; a clock without ':' raises IndexError and a
   * field `int()` rejects raises ValueError.
   */
  function ClockSeconds(gameClock: string, quarter: int, reading: MinuteReading): (r: Result<int>)
    ensures ':' !in gameClock ==> r == Failure(IndexError)
    ensures ':' in gameClock ==>
              (r.Failure? <==> ParseInt(Split(gameClock, ':')[0]).None? || ParseInt(Split(gameClock, ':')[1]).None?)
    ensures ':' in gameClock && r.Failure? ==> r == Failure(ValueError)
    ensures r.Failure? ==> r.error == IndexError || r.error == ValueError
  {
    var parts := Split(gameClock, ':');
    if |parts| < 2 then Failure(IndexError)
    else
      match (ParseInt(parts[0]), ParseInt(parts[1]))
      case (Some(mm), Some(ss)) =>
        var minutes := (if reading == MinutesRemaining then 15 - mm else mm) + 15 * (quarter - 1);
        Success(minutes * 60 + ss)
      case _ => Failure(ValueError)
  }

  /**
   * The clock "MM:SS" read back as numbers, for fields with any number of
   * leading zeros, so both "9:5" and the recorded form "09:05" are covered.
   */
  lemma ClockOfReading(zm: nat, mm: nat, zs: nat, ss: nat, quarter: int, reading: MinuteReading)
    ensures ClockSeconds(Padded(zm, mm) + ":" + Padded(zs, ss), quarter, reading) ==
            Success(((if reading == MinutesRemaining then 15 - mm else mm) + 15 * (quarter - 1)) * 60 + ss)
  {
    var a, b := Padded(zm, mm), Padded(zs, ss);
    var s := a + ":" + b;
    PaddedHasNo(zm, mm, ':');
    PaddedHasNo(zs, ss, ':');
    assert s == a + [':'] + b;
    SplitTwoFields(a, ':', b);
    ParsePaddedNat(zm, mm);
    ParsePaddedNat(zs, ss);
    ClockOfFields(s, mm, ss, quarter, reading);
  }

  /** ClockSeconds on a clock whose first two colon-separated fields are known. */
  lemma ClockOfFields(gameClock: string, mm: int, ss: int, quarter: int, reading: MinuteReading)
    requires |Split(gameClock, ':')| >= 2
    requires ParseInt(Split(gameClock, ':')[0]) == Some(mm)
    requires ParseInt(Split(gameClock, ':')[1]) == Some(ss)
    ensures ClockSeconds(gameClock, quarter, reading) ==
            Success(((if reading == MinutesRemaining then 15 - mm else mm) + 15 * (quarter - 1)) * 60 + ss)
  {
  }

  /**
   * A clock "MM:SS:rest" reads the same as "MM:SS": fields after the
   * second are ignored. This covers the recorded "MM:SS:00" form, with
   * zero-padded fields.
   */
  lemma ClockIgnoresLaterFields(zm: nat, mm: nat, zs: nat, ss: nat, rest: string, quarter: int, reading: MinuteReading)
    ensures ClockSeconds(Padded(zm, mm) + ":" + Padded(zs, ss) + ":" + rest, quarter, reading) ==
            Success(((if reading == MinutesRemaining then 15 - mm else mm) + 15 * (quarter - 1)) * 60 + ss)
  {
    var a, b := Padded(zm, mm), Padded(zs, ss);
    var s := a + ":" + b + ":" + rest;
    PaddedHasNo(zm, mm, ':');
    PaddedHasNo(zs, ss, ':');
    assert s == a + [':'] + b + [':'] + rest;
    SplitLeadingFields(a, ':', b, rest);
    ParsePaddedNat(zm, mm);
    ParsePaddedNat(zs, ss);
    ClockOfFields(s, mm, ss, quarter, reading);
  }

  /** "09:05:00" in the second quarter, minutes remaining: (15 - 9 + 15) * 60 + 5 seconds. */
  lemma ClockWorkedExample()
    ensures ClockSeconds("09:05:00", 2, MinutesRemaining) == Success(1265)
  {
    assert NatToString(9) == "9" && NatToString(5) == "5";
    assert Zeros(1) == "0";
    assert Padded(1, 9) + ":" + Padded(1, 5) + ":" + "00" == "09:05:00";
    ClockIgnoresLaterFields(1, 9, 1, 5, "00", 2, MinutesRemaining);
  }

  /** The same clock one quarter later is exactly 900 seconds later, for either reading. */
  lemma ClockNextQuarter(gameClock: string, quarter: int, reading: MinuteReading)
    ensures ClockSeconds(gameClock, quarter + 1, reading).Success? <==> ClockSeconds(gameClock, quarter, reading).Success?
    ensures ClockSeconds(gameClock, quarter, reading).Success? ==>
              ClockSeconds(gameClock, quarter + 1, reading).value == ClockSeconds(gameClock, quarter, reading).value + 900
  {
  }

  /**
   * The mirror of one row: rows recorded with playDirection 'left' are
   * turned around, x to 120 - x and y to 160/3 - y; others are unchanged.
   */
  function MirrorRow(r: Row): (m: Row)
    ensures m.(x := r.x, y := r.y) == r
    ensures r.playDirection != "left" ==> m == r
    ensures r.playDirection == "left" ==> m.x + r.x == FieldLength && m.y + r.y == FieldWidth
  {
    if r.playDirection == "left" then r.(x := FieldLength - r.x, y := FieldWidth - r.y) else r
  }

  /** Mirroring twice gives back the row. */
  lemma MirrorInvolution(r: Row)
    ensures MirrorRow(MirrorRow(r)) == r
  {
  }

  /** The mirror maps the field [0, 120] x [0, 160/3] onto itself. */
  lemma MirrorKeepsField(r: Row)
    ensures (0.0 <= r.x <= FieldLength && 0.0 <= r.y <= FieldWidth) <==>
            (0.0 <= MirrorRow(r).x <= FieldLength && 0.0 <= MirrorRow(r).y <= FieldWidth)
  {
  }

  /**
   * The mirror keeps every distance from the lateral centre, so the
   * off-centre metric of a crossing is the same in either orientation, and
   * it keeps membership of the goal band, whose two halves swap.
   */
  lemma MirrorKeepsOffCenterAndBand(r: Row, halfWidth: real)
    ensures OffCenter(Some(MirrorRow(r).y)) == OffCenter(Some(r.y))
    ensures WithinGoalBand(MirrorRow(r).x, halfWidth) <==> WithinGoalBand(r.x, halfWidth)
  {
  }

  /** The reorientation of one season's tracking table, on a copy. */
  function Reorient(track: seq<Row>): (t: seq<Row>)
    ensures |t| == |track|
    ensures forall i :: 0 <= i < |track| ==> t[i] == MirrorRow(track[i])
  {
    seq(|track|, i requires 0 <= i < |track| => MirrorRow(track[i]))
  }

  /** Reorienting a reoriented table gives back the original. */
  lemma ReorientInvolution(track: seq<Row>)
    ensures Reorient(Reorient(track)) == track
  {
    var t := Reorient(Reorient(track));
    forall i | 0 <= i < |track| ensures t[i] == track[i] {
      MirrorInvolution(track[i]);
    }
  }

  /** Some play of type `playType` has the key (gameId, playId). */
  ghost predicate IsPlayOfType(plays: seq<Play>, playType: string, gameId: int, playId: int) {
    exists i :: 0 <= i < |plays| && plays[i].specialTeamsPlayType == playType &&
                plays[i].gameId == gameId && plays[i].playId == playId
  }

  /** `play_df.loc[type == playType][['gameId', 'playId']]`: the keys of the plays of one type. */
  function PlayTypeKeys(plays: seq<Play>, playType: string): (keys: seq<(int, int)>)
    ensures forall g, p :: (g, p) in keys <==> IsPlayOfType(plays, playType, g, p)
  {
    if |plays| == 0 then []
    else
      assert forall i :: 0 < i < |plays| ==> plays[i] == plays[1..][i - 1];
      (if plays[0].specialTeamsPlayType == playType then [(plays[0].gameId, plays[0].playId)] else [])
        + PlayTypeKeys(plays[1..], playType)
  }

  /**
   * The rows `pd.merge(keys, track, on=['gameId', 'playId'])` selects, an
   * inner join, still under their tracking labels: for each key in turn,
   * the tracking rows of that play. A row is in the result iff its play's
   * key is, as often as in `track` times the number of times its key is
   * listed.
   */
  function InnerJoin(keys: seq<(int, int)>, track: seq<Row>): (j: seq<Row>)
    ensures forall r :: r in j <==> r in track && (r.gameId, r.playId) in keys
  {
    if |keys| == 0 then []
    else
      assert keys == [keys[0]] + keys[1..];
      GetPlay(keys[0].0, keys[0].1, track) + InnerJoin(keys[1..], track)
  }

  lemma MulSucc(m: int, c: int)
    ensures m * (c + 1) == m * c + m
  {
  }

  /** Each row of the join appears as often as in `track` times the number of times its key is listed. */
  lemma {:induction false} InnerJoinMultiplicity(keys: seq<(int, int)>, track: seq<Row>, r: Row)
    ensures multiset(InnerJoin(keys, track))[r] == multiset(track)[r] * multiset(keys)[(r.gameId, r.playId)]
  {
    if |keys| > 0 {
      InnerJoinMultiplicity(keys[1..], track, r);
      var key := (r.gameId, r.playId);
      var c := multiset(keys[1..])[key];
      var m := multiset(track)[r];
      JoinCountStep(keys, track, r);
      KeyCountStep(keys, key);
      if key == keys[0] {
        MulSucc(m, c);
      }
    }
  }

  lemma JoinCountStep(keys: seq<(int, int)>, track: seq<Row>, r: Row)
    requires |keys| > 0
    ensures multiset(InnerJoin(keys, track))[r] ==
            (if (r.gameId, r.playId) == keys[0] then multiset(track)[r] else 0) + multiset(InnerJoin(keys[1..], track))[r]
  {
    var here, rest := GetPlay(keys[0].0, keys[0].1, track), InnerJoin(keys[1..], track);
    assert InnerJoin(keys, track) == here + rest;
    assert multiset(here + rest) == multiset(here) + multiset(rest);
  }

  lemma KeyCountStep(keys: seq<(int, int)>, key: (int, int))
    requires |keys| > 0
    ensures multiset(keys)[key] == (if key == keys[0] then 1 else 0) + multiset(keys[1..])[key]
  {
    assert keys == [keys[0]] + keys[1..];
    assert multiset(keys) == multiset([keys[0]]) + multiset(keys[1..]);
  }

  /**
   * `pd.merge(keys, track, on=['gameId', 'playId'])` as pandas returns it:
   * a merge on columns discards both indexes, so the joined rows carry a
   * fresh index 0 .. n-1. Row i is a tracking row of a listed play
   * relabelled i, and every tracking row of a listed play appears.
   */
  function Merge(keys: seq<(int, int)>, track: seq<Row>): (j: seq<Row>)
    ensures |j| == |InnerJoin(keys, track)|
    ensures forall i :: 0 <= i < |j| ==> j[i].index == i
    ensures forall i :: 0 <= i < |j| ==> j[i] == WithLabel(InnerJoin(keys, track)[i], i)
    ensures forall i :: 0 <= i < |j| ==> ListedRowRelabelled(j[i], i, track, keys)
    ensures forall t :: t in track && (t.gameId, t.playId) in keys ==>
              exists i :: 0 <= i < |j| && j[i] == WithLabel(t, i)
  {
    RelabelledJoin(InnerJoin(keys, track), keys, track);
    Relabel(InnerJoin(keys, track))
  }

  /** `r` is a tracking row of a listed play, relabelled `i`. */
  ghost predicate ListedRowRelabelled(r: Row, i: int, track: seq<Row>, keys: seq<(int, int)>) {
    exists t :: t in track && (t.gameId, t.playId) in keys && r == WithLabel(t, i)
  }

  /** `r` is a tracking row of a play of type `playType`, relabelled `i`. */
  ghost predicate PlayTypeRowRelabelled(r: Row, i: int, track: seq<Row>, plays: seq<Play>, playType: string) {
    exists t :: t in track && IsPlayOfType(plays, playType, t.gameId, t.playId) && r == WithLabel(t, i)
  }

  /**
   * `out` is `track` merged with the plays of type `playType`: labelled
   * 0 .. n-1, each row a relabelled tracking row of such a play, and every
   * tracking row of such a play present.
   */
  ghost predicate MergedWithPlayType(out: seq<Row>, track: seq<Row>, plays: seq<Play>, playType: string) {
    && (forall i :: 0 <= i < |out| ==> out[i].index == i)
    && RowsOfPlayType(out, track, plays, playType)
    && PlayTypeRowsKept(out, track, plays, playType)
  }

  /** Each row of `out` is a tracking row of a play of type `playType`, relabelled with its position. */
  ghost predicate RowsOfPlayType(out: seq<Row>, track: seq<Row>, plays: seq<Play>, playType: string) {
    forall i :: 0 <= i < |out| ==> PlayTypeRowRelabelled(out[i], i, track, plays, playType)
  }

  /** Every tracking row of a play of type `playType` appears in `out`, relabelled with its position. */
  ghost predicate PlayTypeRowsKept(out: seq<Row>, track: seq<Row>, plays: seq<Play>, playType: string) {
    forall t :: t in track && IsPlayOfType(plays, playType, t.gameId, t.playId) ==>
      exists i :: 0 <= i < |out| && out[i] == WithLabel(t, i)
  }

  /**
   * `preprocess_tracking`: each season's table is reoriented on a copy and
   * merged with the plays of type `playType`.
   */
  function PreprocessTracking(track18: seq<Row>, track19: seq<Row>, track20: seq<Row>,
                              plays: seq<Play>, playType: string): (out: (seq<Row>, seq<Row>, seq<Row>))
    ensures MergedWithPlayType(out.0, Reorient(track18), plays, playType)
    ensures MergedWithPlayType(out.1, Reorient(track19), plays, playType)
    ensures MergedWithPlayType(out.2, Reorient(track20), plays, playType)
    ensures |out.0| == |InnerJoin(PlayTypeKeys(plays, playType), Reorient(track18))|
    ensures |out.1| == |InnerJoin(PlayTypeKeys(plays, playType), Reorient(track19))|
    ensures |out.2| == |InnerJoin(PlayTypeKeys(plays, playType), Reorient(track20))|
  {
    var keys := PlayTypeKeys(plays, playType);
    MergeWithPlayType(Reorient(track18), plays, playType);
    MergeWithPlayType(Reorient(track19), plays, playType);
    MergeWithPlayType(Reorient(track20), plays, playType);
    (Merge(keys, Reorient(track18)), Merge(keys, Reorient(track19)), Merge(keys, Reorient(track20)))
  }

  /** Merging with the keys of the plays of one type merges with those plays. */
  lemma MergeWithPlayType(track: seq<Row>, plays: seq<Play>, playType: string)
    ensures MergedWithPlayType(Merge(PlayTypeKeys(plays, playType), track), track, plays, playType)
  {
    MergedRowsOfPlayType(track, plays, playType);
    MergedPlayTypeRowsKept(track, plays, playType);
  }

  lemma MergedRowsOfPlayType(track: seq<Row>, plays: seq<Play>, playType: string)
    ensures RowsOfPlayType(Merge(PlayTypeKeys(plays, playType), track), track, plays, playType)
  {
    RowsOfListedPlays(Merge(PlayTypeKeys(plays, playType), track), track, PlayTypeKeys(plays, playType), plays, playType);
  }

  lemma MergedPlayTypeRowsKept(track: seq<Row>, plays: seq<Play>, playType: string)
    ensures PlayTypeRowsKept(Merge(PlayTypeKeys(plays, playType), track), track, plays, playType)
  {
    ListedPlayRowsKept(Merge(PlayTypeKeys(plays, playType), track), track, PlayTypeKeys(plays, playType), plays, playType);
  }

  /** Rows drawn from the listed plays are rows of plays of the type the keys list. */
  lemma RowsOfListedPlays(j: seq<Row>, track: seq<Row>, keys: seq<(int, int)>, plays: seq<Play>, playType: string)
    requires forall g, p :: (g, p) in keys <==> IsPlayOfType(plays, playType, g, p)
    requires forall i :: 0 <= i < |j| ==> ListedRowRelabelled(j[i], i, track, keys)
    ensures RowsOfPlayType(j, track, plays, playType)
  {
    forall i | 0 <= i < |j|
      ensures PlayTypeRowRelabelled(j[i], i, track, plays, playType)
    {
      assert ListedRowRelabelled(j[i], i, track, keys);
      var t :| t in track && (t.gameId, t.playId) in keys && j[i] == WithLabel(t, i);
      assert IsPlayOfType(plays, playType, t.gameId, t.playId);
    }
  }

  /** If every row of a listed play is kept, every row of a play of the listed type is. */
  lemma ListedPlayRowsKept(j: seq<Row>, track: seq<Row>, keys: seq<(int, int)>, plays: seq<Play>, playType: string)
    requires forall g, p :: (g, p) in keys <==> IsPlayOfType(plays, playType, g, p)
    requires forall t :: t in track && (t.gameId, t.playId) in keys ==>
               exists i :: 0 <= i < |j| && j[i] == WithLabel(t, i)
    ensures PlayTypeRowsKept(j, track, plays, playType)
  {
    forall t | t in track && IsPlayOfType(plays, playType, t.gameId, t.playId)
      ensures exists i :: 0 <= i < |j| && j[i] == WithLabel(t, i)
    {
      assert (t.gameId, t.playId) in keys;
    }
  }

  predicate IsFootball(r: Row) {
    r.displayName == "football"
  }

  /**
   * Relabelling a sequence that holds exactly the tracking rows of the
   * listed plays gives, up to labels, exactly those rows.
   */
  lemma RelabelledJoin(joined: seq<Row>, keys: seq<(int, int)>, track: seq<Row>)
    requires forall r :: r in joined <==> r in track && (r.gameId, r.playId) in keys
    ensures forall i :: 0 <= i < |Relabel(joined)| ==> ListedRowRelabelled(Relabel(joined)[i], i, track, keys)
    ensures forall t :: t in track && (t.gameId, t.playId) in keys ==>
              exists i :: 0 <= i < |Relabel(joined)| && Relabel(joined)[i] == WithLabel(t, i)
  {
    RelabelledRowsFrom(joined);
    forall i | 0 <= i < |Relabel(joined)|
      ensures ListedRowRelabelled(Relabel(joined)[i], i, track, keys)
    {
      var t := joined[i];
      assert t in track && (t.gameId, t.playId) in keys && Relabel(joined)[i] == WithLabel(t, i);
    }
    forall t | t in track && (t.gameId, t.playId) in keys
      ensures exists i :: 0 <= i < |Relabel(joined)| && Relabel(joined)[i] == WithLabel(t, i)
    {
      RelabelledRowPresent(joined, t);
    }
  }

  /** Every relabelled row is a row of the input under its new label. */
  lemma RelabelledRowsFrom(rows: seq<Row>)
    ensures forall i :: 0 <= i < |Relabel(rows)| ==> rows[i] in rows && Relabel(rows)[i] == WithLabel(rows[i], i)
  {
  }

  /** Every row of the input appears, relabelled, in `Relabel(rows)`. */
  lemma RelabelledRowPresent(rows: seq<Row>, t: Row)
    requires t in rows
    ensures exists i :: 0 <= i < |Relabel(rows)| && Relabel(rows)[i] == WithLabel(t, i)
  {
    var i := PositionOf(rows, t);
    assert Relabel(rows)[i] == WithLabel(t, i);
  }

  lemma PositionOf(s: seq<Row>, x: Row) returns (i: nat)
    requires x in s
    ensures i < |s| && s[i] == x
  {
    i :| i < |s| && s[i] == x;
  }

  /** `r` under label `i`, every other field unchanged. */
  function WithLabel(r: Row, i: int): Row {
    r.(index := i)
  }

  /** `ignore_index=True`: row i gets label i. */
  function Relabel(rows: seq<Row>): (out: seq<Row>)
    ensures |out| == |rows|
    ensures forall i :: 0 <= i < |rows| ==> out[i] == WithLabel(rows[i], i)
  {
    seq(|rows|, i requires 0 <= i < |rows| => WithLabel(rows[i], i))
  }

  /**
   * `preprocess_football_track`: the 'football' rows of the three seasons,
   * in season order, relabelled 0 .. n-1. The result is the football rows
   * of the concatenated seasons, in order, with contiguous labels.
   */
  function PreprocessFootballTrack(trackP18: seq<Row>, trackP19: seq<Row>, trackP20: seq<Row>): (fp: seq<Row>)
    ensures var ball := Filter(trackP18 + trackP19 + trackP20, IsFootball);
            && |fp| == |ball|
            && forall i :: 0 <= i < |fp| ==> fp[i] == ball[i].(index := i)
    ensures forall i :: 0 <= i < |fp| ==> fp[i].index == i && IsFootball(fp[i])
    ensures LabelsIncreasing(fp)
  {
    var ball := Filter(trackP18 + trackP19 + trackP20, IsFootball);
    FilterConcat(trackP18, trackP19, IsFootball);
    FilterConcat(trackP18 + trackP19, trackP20, IsFootball);
    assert ball == Filter(trackP18, IsFootball) + Filter(trackP19, IsFootball) + Filter(trackP20, IsFootball);
    forall i | 0 <= i < |ball| ensures IsFootball(ball[i]) {
      assert ball[i] in ball;
    }
    Relabel(Filter(trackP18, IsFootball) + Filter(trackP19, IsFootball) + Filter(trackP20, IsFootball))
  }

  /** `fillna(default)` on one cell. */
  function FillNone<T>(cell: Option<T>, default: T): (v: T)
    ensures cell.Some? ==> v == cell.value
    ensures cell.None? ==> v == default
  {
    match cell
    case Some(v) => v
    case None => default
  }

  /** `preprocess_play` on one row: null penalties filled, clock converted. */
  function PreprocessPlayRow(p: Play, reading: MinuteReading): (r: Result<Play>)
    ensures r.Success? <==> ClockSeconds(p.gameClock, p.quarter, reading).Success?
  {
    var secs :- ClockSeconds(p.gameClock, p.quarter, reading);
    Success(p.(penaltyYards := Some(FillNone(p.penaltyYards, 0.0)),
               penaltyCodes := Some(FillNone(p.penaltyCodes, "no penalty")),
               gameClockSeconds := Some(secs)))
  }

  /**
   * `preprocess_play`: null penaltyYards become 0, null penaltyCodes
   * become 'no penalty', non-null values are kept, and gameClockSeconds is
   * computed from the clock; any clock that cannot be read aborts it.
   */
  function PreprocessPlay(plays: seq<Play>, reading: MinuteReading): (r: Result<seq<Play>>)
    ensures r.Success? <==> forall i :: 0 <= i < |plays| ==> ClockSeconds(plays[i].gameClock, plays[i].quarter, reading).Success?
    ensures r.Success? ==> |r.value| == |plays| && forall i :: 0 <= i < |plays| ==>
              var p, q := plays[i], r.value[i];
              && q.(penaltyYards := p.penaltyYards, penaltyCodes := p.penaltyCodes, gameClockSeconds := p.gameClockSeconds) == p
              && q.penaltyYards == (if p.penaltyYards.Some? then p.penaltyYards else Some(0.0))
              && q.penaltyCodes == (if p.penaltyCodes.Some? then p.penaltyCodes else Some("no penalty"))
              && q.gameClockSeconds == Some(ClockSeconds(p.gameClock, p.quarter, reading).value)
  {
    MapOrFail(plays, (p: Play) => PreprocessPlayRow(p, reading))
  }

  /** Preprocessing an already preprocessed play table changes nothing. */
  lemma PreprocessPlayIdempotent(plays: seq<Play>, reading: MinuteReading)
    requires PreprocessPlay(plays, reading).Success?
    ensures PreprocessPlay(PreprocessPlay(plays, reading).value, reading) == PreprocessPlay(plays, reading)
  {
    var once := PreprocessPlay(plays, reading).value;
    var twice := PreprocessPlay(once, reading);
    assert twice.Success?;
    assert |twice.value| == |once|;
    forall i | 0 <= i < |once| ensures twice.value[i] == once[i] {
      var p, q := once[i], twice.value[i];
      assert p.gameClock == plays[i].gameClock && p.quarter == plays[i].quarter;
      assert p.penaltyYards.Some? && p.penaltyCodes.Some?;
      assert q.penaltyYards == p.penaltyYards && q.penaltyCodes == p.penaltyCodes;
      assert q.gameClockSeconds == p.gameClockSeconds;
      assert q == q.(penaltyYards := p.penaltyYards, penaltyCodes := p.penaltyCodes, gameClockSeconds := p.gameClockSeconds);
    }
    assert twice.value == once;
  }

  /**
   * `get_kick_attempt_idx_diff`: NaN when the play's ball tracking never
   * carries `event`; otherwise the distance between the label of the first
   * row carrying it and the label of the play's first maximum-speed row.
   */
  function KickAttemptIdxDiff(gameId: int, playId: int, trackFp: seq<Row>, event: string): (r: Option<nat>)
    ensures r.None? <==> !HasEvent(GetPlay(gameId, playId, trackFp), event)
    ensures r.Some? ==>
              var ball := GetPlay(gameId, playId, trackFp);
              var e := FindEvent(ball, event).value;
              exists m :: 0 <= m < |ball| && IsFirstFastestAt(ball, m) &&
                          (r.value == ball[e].index - ball[m].index || r.value == ball[m].index - ball[e].index)
  {
    IdxDiffOf(GetPlay(gameId, playId, trackFp), event)
  }

  /** The index difference on the ball rows of one play. */
  function IdxDiffOf(ball: seq<Row>, event: string): (r: Option<nat>)
    ensures r.None? <==> !HasEvent(ball, event)
    ensures r.Some? ==>
              var e := FindEvent(ball, event).value;
              exists m :: 0 <= m < |ball| && IsFirstFastestAt(ball, m) &&
                          (r.value == ball[e].index - ball[m].index || r.value == ball[m].index - ball[e].index)
  {
    match FindEvent(ball, event)
    case None => None
    case Some(e) =>
      var m := FirstArgMax(Speeds(ball));
      assert IsFirstFastestAt(ball, m) by {
        assert forall j :: 0 <= j < |ball| ==> ball[j].s == Speeds(ball)[j];
      }
      var d := ball[e].index - ball[m].index;
      var diff: nat := if d < 0 then -d else d;
      assert diff == ball[e].index - ball[m].index || diff == ball[m].index - ball[e].index;
      Some(diff)
  }

  /** Row `m` is the first maximum-speed row of `rows`. */
  ghost predicate IsFirstFastestAt(rows: seq<Row>, m: int) {
    && 0 <= m < |rows|
    && (forall j :: 0 <= j < |rows| ==> rows[j].s <= rows[m].s)
    && (forall j :: 0 <= j < m ==> rows[j].s < rows[m].s)
  }

  /** There is one first maximum. */
  lemma FirstFastestUnique(rows: seq<Row>, m1: int, m2: int)
    requires IsFirstFastestAt(rows, m1) && IsFirstFastestAt(rows, m2)
    ensures m1 == m2
  {
    assert rows[m1].s == rows[m2].s;
    assert !(m1 < m2);
    assert !(m2 < m1);
  }

  /**
   * With increasing labels the difference is 0 exactly when the first
   * event row is itself the play's first maximum-speed row.
   */
  lemma IdxDiffZeroIffEventIsPeak(gameId: int, playId: int, trackFp: seq<Row>, event: string)
    requires LabelsIncreasing(GetPlay(gameId, playId, trackFp))
    requires HasEvent(GetPlay(gameId, playId, trackFp), event)
    ensures var ball := GetPlay(gameId, playId, trackFp);
            KickAttemptIdxDiff(gameId, playId, trackFp, event) == Some(0) <==>
            IsFirstFastestAt(ball, FindEvent(ball, event).value)
  {
    var ball := GetPlay(gameId, playId, trackFp);
    var e := FindEvent(ball, event).value;
    var d := KickAttemptIdxDiff(gameId, playId, trackFp, event).value;
    var m :| 0 <= m < |ball| && IsFirstFastestAt(ball, m) &&
             (d == ball[e].index - ball[m].index || d == ball[m].index - ball[e].index);
    if IsFirstFastestAt(ball, e) {
      FirstFastestUnique(ball, e, m);
    }
    if d == 0 {
      LabelsDetermineRow(ball, e, m);
    }
  }

  /** The threshold `drop_by_index_difference` uses when none is given. */
  const DefaultThreshold: int := 7

  /** The play's index difference is known and at most `threshold`. */
  predicate Plausible(p: Play, trackFp: seq<Row>, event: string, threshold: int) {
    var d := KickAttemptIdxDiff(p.gameId, p.playId, trackFp, event);
    d.Some? && d.value <= threshold
  }

  /**
   * `drop_by_index_difference`: keeps, in order and unchanged, exactly the
   * plays whose index difference is at most `threshold`; plays with NaN
   * (no event) fail the comparison and are dropped.
   */
  function DropByIndexDifference(plays: seq<Play>, trackFp: seq<Row>, event: string, threshold: int): (kept: seq<Play>)
    ensures IsSubsequence(kept, plays)
    ensures forall p :: p in kept <==> p in plays && Plausible(p, trackFp, event, threshold)
    ensures forall p :: multiset(kept)[p] == if Plausible(p, trackFp, event, threshold) then multiset(plays)[p] else 0
  {
    Filter(plays, (p: Play) => Plausible(p, trackFp, event, threshold))
  }

  /** The threshold is inclusive: a difference equal to it is kept, one more is dropped, NaN is dropped. */
  lemma DropThresholdInclusive(plays: seq<Play>, trackFp: seq<Row>, event: string, threshold: int, p: Play)
    requires p in plays
    ensures KickAttemptIdxDiff(p.gameId, p.playId, trackFp, event).Some? &&
            KickAttemptIdxDiff(p.gameId, p.playId, trackFp, event).value == threshold ==>
              p in DropByIndexDifference(plays, trackFp, event, threshold)
    ensures KickAttemptIdxDiff(p.gameId, p.playId, trackFp, event).Some? &&
            KickAttemptIdxDiff(p.gameId, p.playId, trackFp, event).value == threshold + 1 ==>
              p !in DropByIndexDifference(plays, trackFp, event, threshold)
    ensures KickAttemptIdxDiff(p.gameId, p.playId, trackFp, event).None? ==>
              p !in DropByIndexDifference(plays, trackFp, event, threshold)
  {
  }
}
