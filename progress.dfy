/**
 * The progress throttle of BuildDirectoryTree. A report is identified by the
 * line index `i` it is made for; the value handed to IProgress.Report is the
 * fraction i / totalLines.
 */
module Progress {
  import opened Wrappers

  /** The exception the throttle can raise. */
  datatype Fault = DivideByZero

  // ---------------------------------------------------------------------------
  // The throttle as written
  // ---------------------------------------------------------------------------

  /** `totalLines / 100`, the line count between two reports as the source computes it. */
  function UpdateFrequency(totalLines: nat): (frequency: nat)
    ensures frequency == 0 <==> totalLines < 100
    ensures 100 * frequency <= totalLines < 100 * (frequency + 1)
  {
    totalLines / 100
  }

  /** The condition `i % updateFrequency == 0 || i == totalLines - 1` as written:
      the modulus comes first, so a zero frequency raises DivideByZero. */
  function ProgressDue(i: nat, totalLines: nat): (r: Result<bool, Fault>)
  {
    var updateFrequency := UpdateFrequency(totalLines);
    if updateFrequency == 0 then Failure(DivideByZero)
    else Success(i % updateFrequency == 0 || i == totalLines - 1)
  }

  /** As written, a manifest of 1 to 99 lines makes the check after the first
      line raise DivideByZero, so no tree is returned. */
  lemma SmallManifestFails(totalLines: nat)
    requires 1 <= totalLines < 100
    ensures ProgressDue(0, totalLines) == Failure(DivideByZero)
  {
  }

  // ---------------------------------------------------------------------------
  // The corrected throttle
  // ---------------------------------------------------------------------------

  /** The line count between two reports once corrected: totalLines / 100
      rounded up, and never 0. */
  function ReportFrequency(totalLines: nat): (frequency: nat)
    ensures frequency >= 1
    ensures totalLines <= 100 * frequency
    ensures totalLines >= 1 ==> 100 * (frequency - 1) < totalLines
  {
    if totalLines == 0 then 1 else (totalLines + 99) / 100
  }

  /** Line `i` of `totalLines` is due under the given frequency: a multiple of
      the frequency, or the last line. */
  predicate DueAt(i: nat, totalLines: nat, frequency: nat)
    requires frequency >= 1
  {
    i % frequency == 0 || i + 1 == totalLines
  }

  /** The corrected throttle: the first line, the last line and, below 100
      lines, every line is due. */
  function ReportDue(i: nat, totalLines: nat): (due: bool)
    ensures i == 0 || i + 1 == totalLines || totalLines < 100 ==> due
  {
    var frequency := ReportFrequency(totalLines);
    assert totalLines < 100 ==> frequency == 1;
    DueAt(i, totalLines, frequency)
  }

  /** The corrected throttle never fails. Where the source raises, which is
      exactly below 100 lines, every line is reported; where the line count
      is a multiple of 100 it decides exactly as the source does. */
  lemma ReportDueRefinesProgressDue(i: nat, totalLines: nat)
    ensures ProgressDue(i, totalLines).Failure? <==> totalLines < 100
    ensures ProgressDue(i, totalLines).Failure? ==> ReportDue(i, totalLines)
    ensures ProgressDue(i, totalLines).Success? && totalLines % 100 == 0 ==>
              ProgressDue(i, totalLines).value == ReportDue(i, totalLines)
  {
    if totalLines >= 100 && totalLines % 100 == 0 {
      assert ReportFrequency(totalLines) == UpdateFrequency(totalLines);
    }
  }

  // ---------------------------------------------------------------------------
  // The reports of a whole run
  // ---------------------------------------------------------------------------

  /** The line indices reported while the first `k` lines are processed,
      under the given frequency. */
  function Reports(totalLines: nat, frequency: nat, k: nat): seq<nat>
    requires frequency >= 1
  {
    if k == 0 then []
    else Reports(totalLines, frequency, k - 1) + (if DueAt(k - 1, totalLines, frequency) then [k - 1] else [])
  }

  /** The reports of the corrected throttle over the first `k` lines. */
  function Schedule(totalLines: nat, k: nat): seq<nat>
  {
    Reports(totalLines, ReportFrequency(totalLines), k)
  }

  /** The reports of the throttle as written, for the line counts where it
      does not raise. */
  function WrittenSchedule(totalLines: nat, k: nat): seq<nat>
    requires totalLines >= 100
  {
    Reports(totalLines, UpdateFrequency(totalLines), k)
  }

  /** The throttled `progress.Report(i / totalLines)` after line `i`, with
      the reports made so far as a sequence of line indices: the schedule
      grows by one line. */
  method ReportIfDue(reports: seq<nat>, i: nat, totalLines: nat) returns (reports': seq<nat>)
    requires reports == Schedule(totalLines, i)
    ensures reports' == Schedule(totalLines, i + 1)
  {
    reports' := reports;
    if ReportDue(i, totalLines) {
      reports' := reports' + [i];
    }
  }

  /** The reported indices are strictly increasing, so the fractions
      i / totalLines never decrease. */
  predicate StrictlyIncreasing(s: seq<nat>)
  {
    forall a, b :: 0 <= a < b < |s| ==> s[a] < s[b]
  }

  /** Exactly the due indices below `k` are reported, in increasing order. */
  lemma {:induction false} ReportsAreDueIndices(totalLines: nat, frequency: nat, k: nat)
    requires frequency >= 1
    ensures StrictlyIncreasing(Reports(totalLines, frequency, k))
    ensures forall i: nat :: i in Reports(totalLines, frequency, k) <==> i < k && DueAt(i, totalLines, frequency)
  {
    if k > 0 {
      var prev := Reports(totalLines, frequency, k - 1);
      ReportsAreDueIndices(totalLines, frequency, k - 1);
      assert forall a :: 0 <= a < |prev| ==> prev[a] in prev;
    }
  }

  /** Over a whole run every report is for a line index below totalLines, so
      each fraction lies in [0, 1); the first line and the last line are
      always reported. */
  lemma ScheduleBounds(totalLines: nat)
    requires totalLines > 0
    ensures var s := Schedule(totalLines, totalLines);
      |s| > 0 && s[0] == 0 && s[|s| - 1] == totalLines - 1 &&
      forall a :: 0 <= a < |s| ==> s[a] < totalLines
  {
    var s := Schedule(totalLines, totalLines);
    ReportsAreDueIndices(totalLines, ReportFrequency(totalLines), totalLines);
    assert ReportDue(totalLines - 1, totalLines);
    assert s[|s| - 1] == totalLines - 1;
    assert ReportDue(0, totalLines);
    assert 0 in s;
    assert forall a :: 0 <= a < |s| ==> s[a] in s;
  }

  // ---------------------------------------------------------------------------
  // How many reports a run makes
  // ---------------------------------------------------------------------------

  /** The number of multiples of `frequency` below `k`. */
  function MultiplesBelow(frequency: nat, k: nat): nat
    requires frequency >= 1
  {
    if k == 0 then 0
    else MultiplesBelow(frequency, k - 1) + (if (k - 1) % frequency == 0 then 1 else 0)
  }

  /** Before the last line, exactly the multiples of the frequency are reported. */
  lemma {:induction false} ReportsBeforeLast(totalLines: nat, frequency: nat, k: nat)
    requires frequency >= 1 && k < totalLines
    ensures |Reports(totalLines, frequency, k)| == MultiplesBelow(frequency, k)
  {
    if k > 0 {
      ReportsBeforeLast(totalLines, frequency, k - 1);
    }
  }

  /** A run reports at most one line more than the multiples of the
      frequency below its last line. */
  lemma ReportsOfRun(totalLines: nat, frequency: nat)
    requires frequency >= 1 && totalLines >= 1
    ensures |Reports(totalLines, frequency, totalLines)| <= MultiplesBelow(frequency, totalLines - 1) + 1
  {
    ReportsBeforeLast(totalLines, frequency, totalLines - 1);
  }

  /** Two multiples of `frequency` less than `frequency` apart are equal. */
  lemma CloseMultiples(c: nat, q: nat, frequency: nat)
    requires frequency >= 1
    requires q * frequency <= c * frequency < q * frequency + frequency
    ensures c == q
  {
    if c > q {
      MultiplyMonotone(q + 1, c, frequency);
    } else if c < q {
      MultiplyMonotone(c + 1, q, frequency);
    }
  }

  /** Multiplying by `frequency` keeps the order. */
  lemma {:induction false} MultiplyMonotone(a: nat, b: nat, frequency: nat)
    requires a <= b
    ensures a * frequency <= b * frequency
  {
    if a < b {
      MultiplyMonotone(a, b - 1, frequency);
      assert b * frequency == (b - 1) * frequency + frequency;
    }
  }

  /** A multiple of `frequency` leaves no remainder. */
  lemma MultipleOfProduct(c: nat, frequency: nat)
    requires frequency >= 1
    ensures (c * frequency) % frequency == 0
  {
    var a := c * frequency;
    assert a == (a / frequency) * frequency + a % frequency;
    CloseMultiples(c, a / frequency, frequency);
  }

  /** There are k / frequency multiples below `k`, rounded up:
      `MultiplesBelow(f, k) * f` lies in [k, k + f). */
  lemma {:induction false} MultiplesBelowBounds(frequency: nat, k: nat)
    requires frequency >= 1
    ensures k <= MultiplesBelow(frequency, k) * frequency < k + frequency
  {
    if k > 0 {
      var j := k - 1;
      var c := MultiplesBelow(frequency, j);
      MultiplesBelowBounds(frequency, j);
      MultipleOfProduct(c, frequency);
      if j % frequency == 0 {
        var q := j / frequency;
        assert j == q * frequency;
        CloseMultiples(c, q, frequency);
        assert (c + 1) * frequency == c * frequency + frequency;
      } else {
        assert c * frequency != j;
      }
    }
  }

  /** Fewer than `bound` times `frequency` means fewer than `bound`. */
  lemma BelowMultiple(c: nat, bound: nat, frequency: nat)
    requires frequency >= 1 && c * frequency < bound * frequency
    ensures c < bound
  {
  }

  /** The corrected throttle keeps the promise of at most about 100 updates:
      a run makes at most 101 reports, the multiples of the frequency plus
      the last line. */
  lemma ScheduleAtMost101(totalLines: nat)
    ensures |Schedule(totalLines, totalLines)| <= 101
  {
    if totalLines >= 1 {
      var frequency := ReportFrequency(totalLines);
      var c := MultiplesBelow(frequency, totalLines - 1);
      ReportsOfRun(totalLines, frequency);
      MultiplesBelowBounds(frequency, totalLines - 1);
      assert c * frequency < 101 * frequency;
      BelowMultiple(c, 101, frequency);
    }
  }

  /** The throttle as written can report nearly twice as often as promised:
      at most 199 reports once it runs at all. */
  lemma WrittenScheduleAtMost199(totalLines: nat)
    requires totalLines >= 100
    ensures |WrittenSchedule(totalLines, totalLines)| <= 199
  {
    var frequency := UpdateFrequency(totalLines);
    var c := MultiplesBelow(frequency, totalLines - 1);
    ReportsOfRun(totalLines, frequency);
    MultiplesBelowBounds(frequency, totalLines - 1);
    assert c * frequency < 199 * frequency;
    BelowMultiple(c, 199, frequency);
  }

  /** Between 100 and 199 lines the frequency as written is 1, so every line
      is reported. */
  lemma {:induction false} WrittenEveryLine(totalLines: nat, k: nat)
    requires 100 <= totalLines < 200 && k <= totalLines
    ensures |WrittenSchedule(totalLines, k)| == k
  {
    if k > 0 {
      WrittenEveryLine(totalLines, k - 1);
    }
  }

  /** A manifest of 150 lines gets 150 progress reports, not at most 100. */
  lemma TooManyReports()
    ensures |WrittenSchedule(150, 150)| == 150
  {
    WrittenEveryLine(150, 150);
  }
}
