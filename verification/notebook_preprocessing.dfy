/**
 * Preprocessing_makers.py: the notebook version of the preprocessing. Its
 * `ft_in`, `get_play`, reorientation, play-type join, football extraction
 * and null filling are the pipeline's (`Preprocessing`), and its `clock`
 * reads the minutes field as minutes elapsed: `ClockSeconds` with
 * `MinutesElapsed`, which is what its `preprocess_play` applies.
 */
module NotebookPreprocessing {
  import opened Results
  import opened Text
  import opened Preprocessing

  /**
   * In the first quarter the elapsed-minutes clock is the plain MM:SS
   * reading in seconds, for the recorded "MM:SS:rest" form with
   * zero-padded fields.
   */
  lemma ClockElapsedFirstQuarter(zm: nat, mm: nat, zs: nat, ss: nat, rest: string)
    ensures ClockSeconds(Padded(zm, mm) + ":" + Padded(zs, ss) + ":" + rest, 1, MinutesElapsed) ==
            Success(mm * 60 + ss)
  {
    ClockIgnoresLaterFields(zm, mm, zs, ss, rest, 1, MinutesElapsed);
  }

  /**
   * The two clock formulas never agree: on any clock both can read, the
   * remaining-minutes value exceeds the elapsed-minutes value by
   * (15 - 2 * MM) * 60, which is 60 modulo 120 and so never 0.
   */
  lemma ClockReadingsNeverAgree(gameClock: string, quarter: int)
    requires ClockSeconds(gameClock, quarter, MinutesRemaining).Success?
    ensures ClockSeconds(gameClock, quarter, MinutesElapsed).Success?
    ensures (ClockSeconds(gameClock, quarter, MinutesRemaining).value -
             ClockSeconds(gameClock, quarter, MinutesElapsed).value) % 120 == 60
    ensures ClockSeconds(gameClock, quarter, MinutesRemaining) != ClockSeconds(gameClock, quarter, MinutesElapsed)
  {
    var parts := Split(gameClock, ':');
    var mm := ParseInt(parts[0]).value;
    var d := ClockSeconds(gameClock, quarter, MinutesRemaining).value - ClockSeconds(gameClock, quarter, MinutesElapsed).value;
    assert d == 60 + 120 * (7 - mm);
    ModuloShift(60, 7 - mm);
  }

  lemma ModuloShift(r: int, k: int)
    requires 0 <= r < 120
    ensures (r + 120 * k) % 120 == r
  {
    var q := (r + 120 * k) / 120;
    var m := (r + 120 * k) % 120;
    assert r + 120 * k == 120 * q + m;
    assert 120 * (k - q) == m - r;
    assert -120 < m - r < 120;
    assert k - q == 0;
  }
}
