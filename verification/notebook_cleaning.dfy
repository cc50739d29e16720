/**
 * Cleaning_data.py: the notebook version of the sanity filter. Its
 * `get_play` and `get_kick_attempt_idx_diff` are the pipeline's
 * (`TrackingQuery.GetPlay`, `Preprocessing.KickAttemptIdxDiff`).
 *
 * Its `drop_by_index_difference` builds the Series of differences with the
 * labels of `play_df`, a name the function never defines: it only runs
 * when the notebook happens to hold a global of that name. The function
 * as written takes that global's labels as an explicit input (`None`
 * when there is no such global); `Preprocessing.DropByIndexDifference`,
 * which labels the differences with `pt_play`'s own index, is the
 * behaviour it evidently intends.
 */
module NotebookCleaning {
  import opened Results
  import opened Seqs
  import opened Tracking
  import opened Preprocessing

  /** The index differences of the plays, in play order (`pt_play.index.map(...)`). */
  function IndexDiffs(plays: seq<Play>, trackFp: seq<Row>, event: string): (d: seq<Option<nat>>)
    ensures |d| == |plays|
    ensures forall i :: 0 <= i < |plays| ==> d[i] == KickAttemptIdxDiff(plays[i].gameId, plays[i].playId, trackFp, event)
  {
    seq(|plays|, i requires 0 <= i < |plays| => KickAttemptIdxDiff(plays[i].gameId, plays[i].playId, trackFp, event))
  }

  /**
   * Reading the boolean mask at label `key` after pandas aligns it with
   * the play table: the value stored under the first occurrence of `key`
   * among `labels`; a label the mask lacks makes the mask unalignable.
   */
  function MaskAt(labels: seq<int>, diffs: seq<Option<nat>>, key: int): (r: Result<Option<nat>>)
    requires |labels| == |diffs|
    ensures r.Success? <==> key in labels
    ensures r.Failure? ==> r.error == IndexingError
    ensures r.Success? ==> exists i :: 0 <= i < |labels| && labels[i] == key && r.value == diffs[i] &&
                                       forall j :: 0 <= j < i ==> labels[j] != key
  {
    if |labels| == 0 then Failure(IndexingError)
    else if labels[0] == key then Success(diffs[0])
    else
      assert forall i :: 0 < i < |labels| ==> labels[i] == labels[1..][i - 1];
      var r := MaskAt(labels[1..], diffs[1..], key);
      assert key in labels <==> key in labels[1..];
      assert r.Success? ==> exists i :: 0 < i < |labels| && labels[i] == key && r.value == diffs[i] &&
                                        forall j :: 0 <= j < i ==> labels[j] != key by {
        if r.Success? {
          var i :| 0 <= i < |labels[1..]| && labels[1..][i] == key && r.value == diffs[1..][i] &&
                   forall j :: 0 <= j < i ==> labels[1..][j] != key;
          assert forall j :: 1 <= j < i + 1 ==> labels[j] == labels[1..][j - 1];
        }
      }
      r
  }

  /** The plays whose mask entry is a difference at most `threshold`, in order. */
  function KeepWhere(plays: seq<Play>, mask: seq<Option<nat>>, threshold: int): (kept: seq<Play>)
    requires |mask| == |plays|
    ensures IsSubsequence(kept, plays)
    ensures forall p :: p in kept ==> p in plays
    ensures (forall i :: 0 <= i < |plays| ==> mask[i].Some? && mask[i].value <= threshold) ==> kept == plays
  {
    if |plays| == 0 then []
    else
      var rest := KeepWhere(plays[1..], mask[1..], threshold);
      if mask[0].Some? && mask[0].value <= threshold then [plays[0]] + rest else rest
  }

  /** The labels of the play table, `pt_play.index`. */
  function Labels(plays: seq<Play>): (l: seq<int>)
    ensures |l| == |plays|
    ensures forall i :: 0 <= i < |plays| ==> l[i] == plays[i].index
  {
    seq(|plays|, i requires 0 <= i < |plays| => plays[i].index)
  }

  /**
   * `drop_by_index_difference` as written. `globalLabels` is the index of
   * whatever global `play_df` the notebook holds, `None` when it holds
   * none. With no such global the call raises NameError; when its length
   * differs from `pt_play`'s, building the Series raises ValueError;
   * otherwise the mask is aligned with `pt_play` by label.
   */
  function DropByIndexDifferenceAsWritten(ptPlay: seq<Play>, trackFp: seq<Row>, event: string, threshold: int,
                                          globalLabels: Option<seq<int>>): (r: Result<seq<Play>>)
    ensures globalLabels.None? ==> r == Failure(NameError)
    ensures globalLabels.Some? && |globalLabels.value| != |ptPlay| ==> r == Failure(ValueError)
    ensures r.Success? ==> IsSubsequence(r.value, ptPlay)
  {
    match globalLabels
    case None => Failure(NameError)
    case Some(labels) =>
      if |labels| != |ptPlay| then Failure(ValueError)
      else
        var diffs := IndexDiffs(ptPlay, trackFp, event);
        var mask :- MapOrFail(ptPlay, (p: Play) => MaskAt(labels, diffs, p.index));
        Success(KeepWhere(ptPlay, mask, threshold))
  }

  /**
   * The notebook's own call, `drop_by_index_difference(pt_play, track_fp,
   * event, threshold)` with no global `play_df`, fails for every input.
   */
  lemma AsWrittenFailsWithoutGlobal(ptPlay: seq<Play>, trackFp: seq<Row>, event: string, threshold: int)
    ensures DropByIndexDifferenceAsWritten(ptPlay, trackFp, event, threshold, None) == Failure(NameError)
  {
  }

  /** A concrete play table: two plays and a full play table of three rows as the global `play_df`. */
  lemma AsWrittenFailsWithFullPlayTable(trackFp: seq<Row>, event: string)
    ensures var a := Play(0, 1, 1, "Extra Point", 1, "10:00:00", None, None, None);
            var b := Play(2, 1, 3, "Extra Point", 1, "09:00:00", None, None, None);
            DropByIndexDifferenceAsWritten([a, b], trackFp, event, DefaultThreshold, Some([0, 1, 2])) == Failure(ValueError)
  {
  }

  /**
   * When the global holds exactly `pt_play`'s labels, all distinct, the
   * function as written keeps what the corrected one keeps.
   */
  lemma AsWrittenAgreesWhenAligned(ptPlay: seq<Play>, trackFp: seq<Row>, event: string, threshold: int)
    requires forall i, j :: 0 <= i < j < |ptPlay| ==> ptPlay[i].index != ptPlay[j].index
    ensures DropByIndexDifferenceAsWritten(ptPlay, trackFp, event, threshold, Some(Labels(ptPlay))) ==
            Success(DropByIndexDifference(ptPlay, trackFp, event, threshold))
  {
    var labels := Labels(ptPlay);
    var diffs := IndexDiffs(ptPlay, trackFp, event);
    forall i | 0 <= i < |ptPlay| ensures MaskAt(labels, diffs, ptPlay[i].index) == Success(diffs[i]) {
      MaskAtOwnLabel(ptPlay, diffs, i);
    }
    var mask := MapOrFail(ptPlay, (p: Play) => MaskAt(labels, diffs, p.index));
    assert mask.Success?;
    assert mask.value == diffs;
    KeepWhereIsFilter(ptPlay, diffs, trackFp, event, threshold);
  }

  /** With distinct labels, the mask read at a play's own label is that play's entry. */
  lemma MaskAtOwnLabel(plays: seq<Play>, diffs: seq<Option<nat>>, i: int)
    requires |diffs| == |plays|
    requires forall i, j :: 0 <= i < j < |plays| ==> plays[i].index != plays[j].index
    requires 0 <= i < |plays|
    ensures MaskAt(Labels(plays), diffs, plays[i].index) == Success(diffs[i])
  {
    var labels := Labels(plays);
    assert labels[i] == plays[i].index;
    var m := MaskAt(labels, diffs, plays[i].index);
    var k :| 0 <= k < |labels| && labels[k] == plays[i].index && m.value == diffs[k] &&
             forall j :: 0 <= j < k ==> labels[j] != plays[i].index;
    assert k == i;
  }

  /** Keeping by the plays' own differences is the plausibility filter. */
  lemma KeepWhereIsFilter(plays: seq<Play>, diffs: seq<Option<nat>>, trackFp: seq<Row>, event: string, threshold: int)
    requires |diffs| == |plays|
    requires forall i :: 0 <= i < |plays| ==> diffs[i] == KickAttemptIdxDiff(plays[i].gameId, plays[i].playId, trackFp, event)
    ensures KeepWhere(plays, diffs, threshold) == DropByIndexDifference(plays, trackFp, event, threshold)
  {
    var keep := (p: Play) => Plausible(p, trackFp, event, threshold);
    KeepWhereAgreesWithMask(plays, diffs, threshold, keep);
  }

  /** Keeping by a mask is selecting with any predicate that agrees with the mask entry by entry. */
  lemma {:induction false} KeepWhereAgreesWithMask(plays: seq<Play>, mask: seq<Option<nat>>, threshold: int, keep: Play -> bool)
    requires |mask| == |plays|
    requires forall i :: 0 <= i < |plays| ==> keep(plays[i]) == (mask[i].Some? && mask[i].value <= threshold)
    ensures KeepWhere(plays, mask, threshold) == Filter(plays, keep)
  {
    if |plays| > 0 {
      assert forall i :: 0 <= i < |plays| - 1 ==> plays[1..][i] == plays[i + 1] && mask[1..][i] == mask[i + 1];
      KeepWhereAgreesWithMask(plays[1..], mask[1..], threshold, keep);
    }
  }
}
