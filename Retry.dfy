/** The retry loop shared by every runner revision: up to three calls of
    `SaveImage`, stopping at the first call that does not throw
    (src/Avalanche/Runner/IAvalancheRunner.cs:121-135,
    core/src/Avalanche/Runner/IAvalancheRunner.cs:60-74,
    Avalanche/Program.cs:65-79). */
module Retry {
  import opened Models

  /** What one call of `SaveImage` does, as the runner sees it through the
      gateway interface: it hands back the record of the upload (which
      `SaveImage` pairs with the very picture it was given), hands back
      null, or throws. */
  datatype SaveOutcome = Saved(archive: ArchiveModel) | ReturnedNull | Threw

  /** The gateway as the runner sees it: the k-th `SaveImage` call of a run
      (counting from 0) answers `oracle(k)`. Transient transport failures,
      the network and the files behind the call all hide in it. */
  type SaveOracle = nat -> SaveOutcome

  const RetryCount: nat := 3

  /** The calls one picture used, and the archive it got (None for null). */
  datatype Attempt = Attempt(calls: nat, archive: Option<ArchiveModel>)

  /** The retry loop from call number `k` with `left` tries remaining:
      a throw moves on to the next try; anything else ends the loop. */
  function RetryFrom(oracle: SaveOracle, k: nat, left: nat): (a: Attempt)
    ensures a.calls <= left
    decreases left
  {
    if left == 0 then Attempt(0, None)
    else
      match oracle(k)
      case Saved(m) => Attempt(1, Some(m))
      case ReturnedNull => Attempt(1, None)
      case Threw =>
        var rest := RetryFrom(oracle, k + 1, left - 1);
        Attempt(rest.calls + 1, rest.archive)
  }

  /** What the loop did: at least one call when a try was left; every
      call but the last threw; the last one did not throw unless the tries
      ran out; and the picture got an archive exactly when the last call
      saved it, and then that archive. */
  lemma {:induction false} RetryFromSpec(oracle: SaveOracle, k: nat, left: nat)
    ensures var a := RetryFrom(oracle, k, left);
      && (left > 0 ==> a.calls >= 1)
      && (forall i :: k <= i < k + a.calls - 1 ==> oracle(i).Threw?)
      && (0 < a.calls < left ==> !oracle(k + a.calls - 1).Threw?)
      && (a.calls == 0 ==> a.archive.None?)
      && (a.calls > 0 ==> (a.archive.Some? <==> oracle(k + a.calls - 1).Saved?))
      && (a.archive.Some? ==> a.calls > 0 && a.archive.value == oracle(k + a.calls - 1).archive)
    decreases left
  {
    if left > 0 && oracle(k).Threw? {
      RetryFromSpec(oracle, k + 1, left - 1);
    }
  }

  /** The three tries for one picture, starting at call number `first`. */
  function Retry(oracle: SaveOracle, first: nat): Attempt {
    RetryFrom(oracle, first, RetryCount)
  }

  /** Every call numbered from `first` up to, not including, `last` threw. */
  predicate ThrewBetween(oracle: SaveOracle, first: nat, last: nat) {
    forall i :: first <= i < last ==> oracle(i).Threw?
  }

  /** A picture is archived exactly when one of its three tries saves it
      and every try before that one threw. */
  lemma RetrySucceedsIff(oracle: SaveOracle, first: nat)
    ensures Retry(oracle, first).archive.Some? <==>
      exists j :: first <= j < first + RetryCount && oracle(j).Saved? && ThrewBetween(oracle, first, j)
  {
    var a := Retry(oracle, first);
    RetryFromSpec(oracle, first, RetryCount);
    if a.archive.Some? {
      var j := first + a.calls - 1;
      assert oracle(j).Saved? && ThrewBetween(oracle, first, j);
    }
    if exists j :: first <= j < first + RetryCount && oracle(j).Saved? && ThrewBetween(oracle, first, j) {
      var j :| first <= j < first + RetryCount && oracle(j).Saved? && ThrewBetween(oracle, first, j);
      var last := first + a.calls - 1;
      // the loop stops neither before call j (those threw) nor after it (it did not throw)
      assert !(first <= j < last);
    }
  }

  /** Two transport failures and then a success archive the picture, in
      three calls. */
  lemma FailFailSucceed(oracle: SaveOracle, first: nat)
    requires oracle(first).Threw? && oracle(first + 1).Threw? && oracle(first + 2).Saved?
    ensures Retry(oracle, first) == Attempt(3, Some(oracle(first + 2).archive))
  {
    assert RetryFrom(oracle, first + 2, 1) == Attempt(1, Some(oracle(first + 2).archive));
  }

  /** Three transport failures give up after exactly three calls. */
  lemma GivesUpAfterThree(oracle: SaveOracle, first: nat)
    requires forall i :: first <= i < first + RetryCount ==> oracle(i).Threw?
    ensures Retry(oracle, first) == Attempt(3, None)
  {
    assert oracle(first).Threw? && oracle(first + 1).Threw? && oracle(first + 2).Threw?;
    assert RetryFrom(oracle, first + 3, 0) == Attempt(0, None);
  }

  /** A first try that saves the picture is the only call it needs. */
  lemma FirstTrySaves(oracle: SaveOracle, first: nat)
    requires oracle(first).Saved?
    ensures Retry(oracle, first) == Attempt(1, Some(oracle(first).archive))
  {
  }

  /** A null answer is not retried: it ends the loop as a failure. */
  lemma NullIsNotRetried(oracle: SaveOracle, first: nat)
    requires oracle(first).ReturnedNull?
    ensures Retry(oracle, first) == Attempt(1, None)
  {
  }

  /** The loop as the runners run it: `for (i = 0; i < RetryCount; ++i)`,
      leaving at the first call that does not throw. */
  method SaveWithRetry(oracle: SaveOracle, first: nat) returns (archive: Option<ArchiveModel>, calls: nat)
    ensures Attempt(calls, archive) == Retry(oracle, first)
  {
    archive := None;
    calls := 0;
    var i := 0;
    while i < RetryCount
      invariant 0 <= i <= RetryCount && calls == i && archive.None?
      invariant Retry(oracle, first) == Attempt(i + RetryFrom(oracle, first + i, RetryCount - i).calls, RetryFrom(oracle, first + i, RetryCount - i).archive)
    {
      var outcome := oracle(first + i);
      calls := calls + 1;
      if !outcome.Threw? {
        archive := if outcome.Saved? then Some(outcome.archive) else None;
        return;
      }
      ghost var next := RetryFrom(oracle, first + i + 1, RetryCount - i - 1);
      assert RetryFrom(oracle, first + i, RetryCount - i) == Attempt(next.calls + 1, next.archive);
      i := i + 1;
    }
  }
}
