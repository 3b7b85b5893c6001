/** The console progress reporter behind uploads
    (src/Avalanche/Glacier/IConsolePercentUpdater.cs): it rounds each
    reported percentage down to a multiple of ten and prints a line only
    when that differs from the last one printed. The last amount is one
    field shared by every file. */
module Progress {

  /** One printed line, `"{file} is at {percent}%"`. */
  datatype ProgressLine = ProgressLine(file: string, percent: int)

  /** One call of UpdatePercentage. */
  datatype Update = Update(file: string, percent: int)

  /** `(percent / 10) * 10` with C#'s integer division, which truncates
      toward zero. */
  function Bucket(percent: int): (b: int)
    ensures b % 10 == 0
    ensures percent >= 0 ==> 0 <= b <= percent < b + 10
    ensures percent < 0 ==> b - 10 < percent <= b <= 0
  {
    if percent >= 0 then (percent / 10) * 10 else -(((-percent) / 10) * 10)
  }

  lemma BucketMonotone(p: int, q: int)
    requires p <= q
    ensures Bucket(p) <= Bucket(q)
  {
  }

  /** The remembered amount after a series of calls: every call leaves
      the bucket of its percentage behind, printed or not. */
  function LastAfter(last: int, updates: seq<Update>): int {
    if updates == [] then last else Bucket(updates[|updates| - 1].percent)
  }

  /** The lines a series of calls prints, starting from remembered amount
      `last`. */
  function Printed(last: int, updates: seq<Update>): seq<ProgressLine> {
    if updates == [] then []
    else
      var init := updates[..|updates| - 1];
      var u := updates[|updates| - 1];
      var b := Bucket(u.percent);
      Printed(last, init) + (if b == LastAfter(last, init) then [] else [ProgressLine(u.file, b)])
  }

  lemma PrintedSnoc(last: int, updates: seq<Update>, u: Update)
    ensures LastAfter(last, updates + [u]) == Bucket(u.percent)
    ensures Printed(last, updates + [u]) == Printed(last, updates) +
              (if Bucket(u.percent) == LastAfter(last, updates) then [] else [ProgressLine(u.file, Bucket(u.percent))])
  {
    assert (updates + [u])[..|updates|] == updates;
  }

  /** A series of calls printed in two parts: the second part starts from
      what the first left behind. */
  lemma {:induction false} PrintedAppend(last: int, first: seq<Update>, second: seq<Update>)
    ensures LastAfter(last, first + second) == LastAfter(LastAfter(last, first), second)
    ensures Printed(last, first + second) == Printed(last, first) + Printed(LastAfter(last, first), second)
    decreases |second|
  {
    if second == [] {
      assert first + second == first;
    } else {
      var init := second[..|second| - 1];
      var u := second[|second| - 1];
      assert second == init + [u];
      assert first + second == (first + init) + [u];
      PrintedAppend(last, first, init);
      PrintedSnoc(last, first + init, u);
      PrintedSnoc(LastAfter(last, first), init, u);
    }
  }

  /** The progress callbacks of one upload, as calls for one file. */
  function ProgressUpdates(file: string, percents: seq<int>): (updates: seq<Update>)
    ensures |updates| == |percents|
    ensures forall i :: 0 <= i < |percents| ==> updates[i] == Update(file, percents[i])
  {
    seq(|percents|, i requires 0 <= i < |percents| => Update(file, percents[i]))
  }

  class ConsolePercentUpdater {
    var lastUpdateAmount: int
    /** What has been written to the console. */
    var lines: seq<ProgressLine>

    constructor ()
      ensures lastUpdateAmount == -1 && lines == []
    {
      lastUpdateAmount := -1;
      lines := [];
    }

    method UpdatePercentage(file: string, percent: int)
      modifies this
      ensures lastUpdateAmount == Bucket(percent)
      ensures lines == old(lines) +
                (if Bucket(percent) == old(lastUpdateAmount) then [] else [ProgressLine(file, Bucket(percent))])
    {
      var rounded := (if percent >= 0 then percent / 10 else -((-percent) / 10)) * 10;
      if rounded == lastUpdateAmount {
        return;
      }
      lines := lines + [ProgressLine(file, rounded)];
      lastUpdateAmount := rounded;
    }

    /** The progress callbacks of one upload, each forwarded to
        UpdatePercentage. */
    method ReportAll(file: string, percents: seq<int>)
      modifies this
      ensures lastUpdateAmount == LastAfter(old(lastUpdateAmount), ProgressUpdates(file, percents))
      ensures lines == old(lines) + Printed(old(lastUpdateAmount), ProgressUpdates(file, percents))
    {
      var i := 0;
      while i < |percents|
        invariant 0 <= i <= |percents|
        invariant lastUpdateAmount == LastAfter(old(lastUpdateAmount), ProgressUpdates(file, percents[..i]))
        invariant lines == old(lines) + Printed(old(lastUpdateAmount), ProgressUpdates(file, percents[..i]))
      {
        PrintedSnoc(old(lastUpdateAmount), ProgressUpdates(file, percents[..i]), Update(file, percents[i]));
        assert ProgressUpdates(file, percents[..i + 1]) == ProgressUpdates(file, percents[..i]) + [Update(file, percents[i])];
        UpdatePercentage(file, percents[i]);
        i := i + 1;
      }
      assert percents[..i] == percents;
    }
  }

  /** The very first call always prints: no bucket equals the initial -1. */
  lemma FirstUpdatePrints(file: string, percent: int)
    ensures Printed(-1, [Update(file, percent)]) == [ProgressLine(file, Bucket(percent))]
  {
    PrintedSnoc(-1, [], Update(file, percent));
    assert [] + [Update(file, percent)] == [Update(file, percent)];
  }

  /** Reporting the same percentage twice prints once. */
  lemma RepeatIsSilent(last: int, updates: seq<Update>, u: Update)
    ensures Printed(last, updates + [u, u]) == Printed(last, updates + [u])
  {
    PrintedSnoc(last, updates + [u], u);
    assert updates + [u] + [u] == updates + [u, u];
  }

  /** Because the remembered amount is shared, a second file starting in
      the bucket the first one is in prints nothing. */
  lemma SharedAcrossFiles(a: string, b: string)
    ensures Printed(-1, [Update(a, 5), Update(b, 0)]) == [ProgressLine(a, 0)]
  {
    FirstUpdatePrints(a, 5);
    PrintedSnoc(-1, [Update(a, 5)], Update(b, 0));
    assert [Update(a, 5)] + [Update(b, 0)] == [Update(a, 5), Update(b, 0)];
  }

  predicate NondecreasingPercents(updates: seq<Update>) {
    forall i, j :: 0 <= i < j < |updates| ==> updates[i].percent <= updates[j].percent
  }

  predicate PercentsInRange(updates: seq<Update>) {
    forall i :: 0 <= i < |updates| ==> 0 <= updates[i].percent <= 100
  }

  predicate Rising(p: seq<ProgressLine>) {
    forall i, j :: 0 <= i < j < |p| ==> p[i].percent < p[j].percent
  }

  predicate InTens(p: seq<ProgressLine>) {
    forall i :: 0 <= i < |p| ==> 0 <= p[i].percent <= 100 && p[i].percent % 10 == 0
  }

  /** Whenever anything was reported, something was printed, and the
      last line printed carries the remembered amount. */
  lemma {:induction false} PrintedEndsAtLast(updates: seq<Update>)
    ensures var p := Printed(-1, updates);
      updates != [] ==> p != [] && p[|p| - 1].percent == LastAfter(-1, updates)
  {
    if updates != [] {
      var init := updates[..|updates| - 1];
      var u := updates[|updates| - 1];
      assert updates == init + [u];
      PrintedSnoc(-1, init, u);
      PrintedEndsAtLast(init);
    }
  }

  /** Every printed percentage is a multiple of ten within 0 to 100 when
      every report is. */
  lemma {:induction false} PrintedInTens(updates: seq<Update>)
    requires PercentsInRange(updates)
    ensures InTens(Printed(-1, updates))
  {
    if updates != [] {
      var init := updates[..|updates| - 1];
      var u := updates[|updates| - 1];
      assert updates == init + [u];
      PrintedSnoc(-1, init, u);
      PrintedInTens(init);
    }
  }

  /** For one upload's progress (nondecreasing) the printed percentages
      rise strictly. */
  lemma {:induction false} PrintedRises(updates: seq<Update>)
    requires NondecreasingPercents(updates)
    ensures Rising(Printed(-1, updates))
  {
    if updates != [] {
      var init := updates[..|updates| - 1];
      var u := updates[|updates| - 1];
      assert updates == init + [u];
      assert NondecreasingPercents(init) by {
        forall i, j | 0 <= i < j < |init| ensures init[i].percent <= init[j].percent {
          assert init[i] == updates[i] && init[j] == updates[j];
        }
      }
      PrintedRises(init);
      PrintedSnoc(-1, init, u);
      var p0 := Printed(-1, init);
      var b := Bucket(u.percent);
      if b != LastAfter(-1, init) {
        if init != [] {
          PrintedEndsAtLast(init);
          BucketMonotone(init[|init| - 1].percent, u.percent);
          forall i | 0 <= i < |p0| ensures p0[i].percent < b {
            if i < |p0| - 1 {
              assert p0[i].percent < p0[|p0| - 1].percent;
            }
          }
        }
        var p := p0 + [ProgressLine(u.file, b)];
        forall i, j | 0 <= i < j < |p| ensures p[i].percent < p[j].percent {
          if j < |p0| {
            assert p[i] == p0[i] && p[j] == p0[j];
          } else {
            assert p[i] == p0[i];
          }
        }
      }
    }
  }

  lemma RisingTensBound(p: seq<ProgressLine>)
    requires Rising(p) && InTens(p)
    ensures |p| <= 11
  {
    if p != [] {
      var k := 0;
      while k + 1 < |p|
        invariant 0 <= k < |p| && p[k].percent >= 10 * k
      {
        assert p[k].percent < p[k + 1].percent;
        k := k + 1;
      }
    }
  }

  /** One upload prints at most eleven lines: 0%, 10%, ..., 100%. */
  lemma AtMostElevenLines(updates: seq<Update>)
    requires NondecreasingPercents(updates) && PercentsInRange(updates)
    ensures |Printed(-1, updates)| <= 11
  {
    PrintedRises(updates);
    PrintedInTens(updates);
    RisingTensBound(Printed(-1, updates));
  }

  /** One upload's progress: 0% first, then what the transfer reports.
      When the transfer reports nondecreasing percentages from 0 to 100
      and the reporter is fresh, the first line printed is 0% and at most
      eleven lines are printed. */
  lemma UploadPrintsAtMostEleven(file: string, percents: seq<int>)
    requires forall i, j :: 0 <= i < j < |percents| ==> percents[i] <= percents[j]
    requires forall i :: 0 <= i < |percents| ==> 0 <= percents[i] <= 100
    ensures |Printed(-1, [Update(file, 0)] + ProgressUpdates(file, percents))| <= 11
    ensures Printed(-1, [Update(file, 0)] + ProgressUpdates(file, percents)) != []
    ensures Printed(-1, [Update(file, 0)] + ProgressUpdates(file, percents))[0] == ProgressLine(file, 0)
  {
    var rest := ProgressUpdates(file, percents);
    var updates := [Update(file, 0)] + rest;
    assert NondecreasingPercents(updates) by {
      forall i, j | 0 <= i < j < |updates| ensures updates[i].percent <= updates[j].percent {
        if i > 0 {
          assert updates[i] == rest[i - 1] && updates[j] == rest[j - 1];
        } else {
          assert updates[j] == rest[j - 1];
        }
      }
    }
    assert PercentsInRange(updates) by {
      forall i | 0 <= i < |updates| ensures 0 <= updates[i].percent <= 100 {
        if i > 0 {
          assert updates[i] == rest[i - 1];
        }
      }
    }
    AtMostElevenLines(updates);
    PrintedAppend(-1, [Update(file, 0)], rest);
    FirstUpdatePrints(file, 0);
  }
}
