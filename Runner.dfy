/** The archival orchestrator of the two newer revisions: choose the
    pictures to upload, upload each with up to three tries, record each
    success in the ledger and sort the pictures into successes and
    failures. core/src/Avalanche/Runner/IAvalancheRunner.cs does this one
    picture at a time; src/Avalanche/Runner/IAvalancheRunner.cs first
    makes sure the vault exists, then lets three workers drain a shared
    queue. The gateway is the `SaveOracle` of the retry loop, the catalog
    is the list of its pictures, and the ledger is the `Ledger` class. */
module Runner {
  import opened Models
  import opened Eligibility
  import opened Retry
  import opened State

  const UploadParallelism: nat := 3

  /** The settings the runner hands to the ledger with every record. */
  datatype RunSettings = RunSettings(vaultName: string, region: string, catalogFilePath: string, catalogId: string)

  /** Why a run ends in an exception: the vault assertion threw, or the
      ledger could not be read while building the to-do list. */
  datatype RunFault = VaultAssertionFailed | LedgerUnreadable(error: DbError)

  // ---------------------------------------------------------------------
  // The to-do list

  /** Some picture is in at least one library; only for those does the
      filter ask the ledger. */
  predicate HasLibraryPicture(pics: seq<PictureModel>) {
    exists i :: 0 <= i < |pics| && pics[i].libraryCount > 0
  }

  lemma {:induction false} KeepEligibleSnoc(pics: seq<PictureModel>, p: PictureModel, archived: set<Guid>)
    ensures KeepEligible(pics + [p], archived) == KeepEligible(pics, archived) + (if Eligible(p, archived) then [p] else [])
    decreases |pics|
  {
    if pics == [] {
      assert [] + [p] == [p];
      assert [p][1..] == [];
    } else {
      assert (pics + [p])[1..] == pics[1..] + [p];
      KeepEligibleSnoc(pics[1..], p, archived);
    }
  }

  /** The filter as a loop computes it: from the end of the list. */
  function KeptSoFar(pics: seq<PictureModel>, archived: set<Guid>): seq<PictureModel> {
    if pics == [] then []
    else
      var p := pics[|pics| - 1];
      KeptSoFar(pics[..|pics| - 1], archived) + (if Eligible(p, archived) then [p] else [])
  }

  /** Filtering from the end gives the same list as filtering from the
      front. */
  lemma {:induction false} KeptSoFarIsKeepEligible(pics: seq<PictureModel>, archived: set<Guid>)
    ensures KeptSoFar(pics, archived) == KeepEligible(pics, archived)
    decreases |pics|
  {
    if pics != [] {
      var init, p := pics[..|pics| - 1], pics[|pics| - 1];
      assert init + [p] == pics;
      KeptSoFarIsKeepEligible(init, archived);
      KeepEligibleSnoc(init, p, archived);
    }
  }

  /** Everything the filter keeps is a picture of the list in a
      library. */
  lemma KeptAreLibraryPictures(pics: seq<PictureModel>, archived: set<Guid>)
    ensures KeepEligible(pics, archived) != [] ==> HasLibraryPicture(pics)
  {
    var kept := KeepEligible(pics, archived);
    if kept != [] {
      var p := kept[0];
      assert multiset(kept)[p] > 0;
      assert p in multiset(pics);
      var i :| 0 <= i < |pics| && pics[i] == p;
    }
  }

  /** `Where(a => a.LibraryCount > 0 && !FileIsArchived(a.FileId))`,
      enumerated in full: the ledger is asked only about pictures in a
      library, and when it has no tables the first such question throws. */
  method KeepUnarchived(candidates: seq<PictureModel>, ledger: Ledger) returns (r: Result<seq<PictureModel>, DbError>)
    requires ledger.Consistent()
    ensures r.Failure? <==> !ledger.hasSchema && HasLibraryPicture(candidates)
    ensures r.Failure? ==> r.error == NoSuchTable
    ensures r.Success? ==> r.value == KeepEligible(candidates, ledger.ArchivedFileIds())
  {
    ghost var archivedIds := ledger.ArchivedFileIds();
    var kept: seq<PictureModel> := [];
    var i := 0;
    while i < |candidates|
      invariant 0 <= i <= |candidates|
      invariant kept == KeptSoFar(candidates[..i], archivedIds)
      invariant !ledger.hasSchema ==> forall j :: 0 <= j < i ==> candidates[j].libraryCount <= 0
    {
      var p := candidates[i];
      assert candidates[..i + 1][..i] == candidates[..i];
      if p.libraryCount > 0 {
        var archived := ledger.FileIsArchived(p.fileId);
        if archived.Failure? {
          assert candidates[i].libraryCount > 0;
          return Failure(archived.error);
        }
        if !archived.value {
          kept := kept + [p];
        }
      }
      i := i + 1;
    }
    assert candidates[..i] == candidates;
    KeptSoFarIsKeepEligible(candidates, archivedIds);
    return Success(kept);
  }

  /** The newer runners' LINQ pipeline, enumerated once before any
      upload: group by FileId keeping the first picture, then the filter. */
  method BuildToDo(pics: seq<PictureModel>, ledger: Ledger) returns (r: Result<seq<PictureModel>, DbError>)
    requires ledger.Consistent()
    ensures r.Failure? <==> !ledger.hasSchema && HasLibraryPicture(FirstPerFileId(pics))
    ensures r.Failure? ==> r.error == NoSuchTable
    ensures r.Success? ==> r.value == ToArchive(pics, ledger.ArchivedFileIds())
  {
    r := KeepUnarchived(FirstPerFileId(pics), ledger);
  }

  // ---------------------------------------------------------------------
  // One picture

  /** What `SaveImage(picture, ...)` hands back for an upload record: the
      record paired with that picture. */
  function PairWith(archive: Option<ArchiveModel>, picture: PictureModel): (r: Option<ArchivedPictureModel>)
    ensures r.Some? <==> archive.Some?
    ensures r.Some? ==> r.value.archive == archive.value && r.value.picture == picture
  {
    if archive.Some? then Some(ArchivedPictureModel(archive.value, picture)) else None
  }

  /** `ArchivePicture` without the console output: the retry loop from
      call number `first`, then, when an archive came back, one ledger
      record of it and the picture. */
  method ArchivePicture(picture: PictureModel, oracle: SaveOracle, first: nat, ledger: Ledger, settings: RunSettings)
    returns (archived: Option<ArchivedPictureModel>, calls: nat)
    requires ledger.Valid()
    modifies ledger
    ensures ledger.Valid()
    ensures calls == Retry.Retry(oracle, first).calls
    ensures archived == PairWith(Retry.Retry(oracle, first).archive, picture)
    ensures Extends(ledger.testMode, old(Snap(ledger)), Snap(ledger), if archived.Some? then [archived.value] else [])
  {
    var archive;
    archive, calls := SaveWithRetry(oracle, first);
    archived := PairWith(archive, picture);
    if archived.None? {
      ExtendsReflexive(ledger.testMode, Snap(ledger));
      return;
    }
    ledger.MarkFileAsArchived(archived.value, settings.vaultName, settings.region, settings.catalogFilePath, settings.catalogId);
    if !ledger.testMode {
      assert Snap(ledger).pictures[|old(ledger.pictures)|..] == [ledger.pictures[|ledger.pictures| - 1]];
    }
  }

  // ---------------------------------------------------------------------
  // The sequential runner

  /** The bookkeeping of a run: the result lists, the archives recorded
      (one per success, in order) and the SaveImage calls used. */
  datatype Tally = Tally(result: AvalancheRunResult, archived: seq<ArchivedPictureModel>, calls: nat)

  /** One picture's turn, its tries starting at call `t.calls`. */
  function Step(t: Tally, oracle: SaveOracle, p: PictureModel): (u: Tally)
    ensures u.calls <= t.calls + RetryCount
  {
    var a := Retry.Retry(oracle, t.calls);
    var record := PairWith(a.archive, p);
    if record.Some? then
      Tally(AvalancheRunResult(t.result.successes + [p], t.result.failures), t.archived + [record.value], t.calls + a.calls)
    else
      Tally(AvalancheRunResult(t.result.successes, t.result.failures + [p]), t.archived, t.calls + a.calls)
  }

  /** The pictures of `todo` taken in order, one at a time. */
  function Sequential(todo: seq<PictureModel>, oracle: SaveOracle): (t: Tally)
    decreases |todo|
  {
    if todo == [] then Tally(NewRunResult(), [], 0)
    else Step(Sequential(todo[..|todo| - 1], oracle), oracle, todo[|todo| - 1])
  }

  lemma SequentialSnoc(todo: seq<PictureModel>, p: PictureModel, oracle: SaveOracle)
    ensures Sequential(todo + [p], oracle) == Step(Sequential(todo, oracle), oracle, p)
  {
    assert (todo + [p])[..|todo|] == todo;
  }

  lemma {:induction false} SubsequenceSingleton<T>(x: T, b: seq<T>)
    ensures IsSubsequence([x], b + [x])
    decreases |b|
  {
    if b != [] {
      assert (b + [x])[1..] == b[1..] + [x];
      SubsequenceSingleton(x, b[1..]);
    }
  }

  lemma {:induction false} SubsequenceExtend<T>(a: seq<T>, b: seq<T>, x: T)
    requires IsSubsequence(a, b)
    ensures IsSubsequence(a, b + [x]) && IsSubsequence(a + [x], b + [x])
    decreases |b|
  {
    if a == [] {
      SubsequenceSingleton(x, b);
      assert a + [x] == [x];
    } else {
      assert (b + [x])[1..] == b[1..] + [x];
      assert (a + [x])[1..] == a[1..] + [x];
      if a[0] == b[0] {
        SubsequenceExtend(a[1..], b[1..], x);
      } else {
        SubsequenceExtend(a, b[1..], x);
      }
    }
  }

  /** The pictures of a list of records, in order. */
  function PicturesOf(archived: seq<ArchivedPictureModel>): (pictures: seq<PictureModel>)
    ensures |pictures| == |archived|
  {
    if archived == [] then []
    else PicturesOf(archived[..|archived| - 1]) + [archived[|archived| - 1].picture]
  }

  /** A picture of the records has its FileId among theirs. */
  lemma {:induction false} InPicturesOf(archived: seq<ArchivedPictureModel>, p: PictureModel)
    requires p in PicturesOf(archived)
    ensures p.fileId in StoredIds(archived)
    decreases |archived|
  {
    var init, last := archived[..|archived| - 1], archived[|archived| - 1];
    assert archived == init + [last];
    if p != last.picture {
      InPicturesOf(init, p);
      assert forall a :: a in init ==> a in archived;
    }
  }

  /** The i-th record is the i-th success's: one record per success, in
      the same order. */
  predicate RecordsOf(archived: seq<ArchivedPictureModel>, successes: seq<PictureModel>) {
    PicturesOf(archived) == successes
  }

  /** A success recorded with its own archive keeps the pairing. */
  lemma RecordsOfSnoc(archived: seq<ArchivedPictureModel>, successes: seq<PictureModel>, r: ArchivedPictureModel, p: PictureModel)
    requires RecordsOf(archived, successes) && r.picture == p
    ensures RecordsOf(archived + [r], successes + [p])
  {
    assert (archived + [r])[..|archived|] == archived;
  }

  /** Every picture of the to-do list ends up in exactly one of the two
      lists, every success has exactly one archive, its own, and no picture
      uses more than three calls. */
  lemma {:induction false} SequentialAccounts(todo: seq<PictureModel>, oracle: SaveOracle)
    ensures var t := Sequential(todo, oracle);
      && multiset(t.result.successes) + multiset(t.result.failures) == multiset(todo)
      && RecordsOf(t.archived, t.result.successes)
      && t.calls <= RetryCount * |todo|
    decreases |todo|
  {
    if todo != [] {
      var init, p := todo[..|todo| - 1], todo[|todo| - 1];
      assert todo == init + [p];
      SequentialAccounts(init, oracle);
      var t := Sequential(init, oracle);
      var record := PairWith(Retry.Retry(oracle, t.calls).archive, p);
      if record.Some? {
        RecordsOfSnoc(t.archived, t.result.successes, record.value, p);
      }
    }
  }

  /** Both lists keep the to-do order. */
  lemma {:induction false} SequentialKeepsOrder(todo: seq<PictureModel>, oracle: SaveOracle)
    ensures IsSubsequence(Sequential(todo, oracle).result.successes, todo)
    ensures IsSubsequence(Sequential(todo, oracle).result.failures, todo)
    decreases |todo|
  {
    if todo != [] {
      var init, p := todo[..|todo| - 1], todo[|todo| - 1];
      assert todo == init + [p];
      SequentialKeepsOrder(init, oracle);
      var t := Sequential(init, oracle);
      SubsequenceExtend(t.result.successes, init, p);
      SubsequenceExtend(t.result.failures, init, p);
    }
  }

  /** When every call throws, every picture fails after exactly three
      calls. */
  lemma {:induction false} EveryCallThrows(todo: seq<PictureModel>, oracle: SaveOracle)
    requires forall k :: oracle(k).Threw?
    ensures Sequential(todo, oracle) == Tally(AvalancheRunResult([], todo), [], RetryCount * |todo|)
    decreases |todo|
  {
    if todo != [] {
      var init := todo[..|todo| - 1];
      EveryCallThrows(init, oracle);
      GivesUpAfterThree(oracle, RetryCount * |init|);
      assert init + [todo[|todo| - 1]] == todo;
    }
  }

  /** The answers of calls 0 to |todo| - 1, in call order, when each one
      saves, each paired with the picture of the same position. */
  function SavedArchives(oracle: SaveOracle, todo: seq<PictureModel>): (archives: seq<ArchivedPictureModel>)
    requires forall k :: oracle(k).Saved?
    ensures |archives| == |todo|
    ensures forall i :: 0 <= i < |todo| ==> archives[i] == ArchivedPictureModel(oracle(i).archive, todo[i])
    decreases |todo|
  {
    if todo == [] then []
    else SavedArchives(oracle, todo[..|todo| - 1]) + [ArchivedPictureModel(oracle(|todo| - 1).archive, todo[|todo| - 1])]
  }

  /** When every call saves, every picture succeeds with one call, and
      the archives recorded are the oracle's answers in order, the i-th
      paired with the i-th picture. */
  lemma {:induction false} EveryCallSaves(todo: seq<PictureModel>, oracle: SaveOracle)
    requires forall k :: oracle(k).Saved?
    ensures Sequential(todo, oracle) == Tally(AvalancheRunResult(todo, []), SavedArchives(oracle, todo), |todo|)
    decreases |todo|
  {
    if todo != [] {
      var init, p := todo[..|todo| - 1], todo[|todo| - 1];
      EveryCallSaves(init, oracle);
      FirstTrySaves(oracle, |init|);
      assert init + [p] == todo;
    }
  }

  /** Outside test mode, a run that recorded one archive per success, its
      own, leaves the ledger reporting every success as archived, so the
      next run's to-do list skips them; nothing reported before is lost. */
  lemma SuccessesArchived(before: Snapshot, after: Snapshot, archived: seq<ArchivedPictureModel>, successes: seq<PictureModel>)
    requires Extends(false, before, after, archived) && RecordsOf(archived, successes)
    ensures ArchivedIds(before.pictures) <= ArchivedIds(after.pictures)
    ensures forall p :: p in successes ==> p.fileId in ArchivedIds(after.pictures)
  {
    ExtendsArchivedIds(before, after, archived);
    forall p | p in successes ensures p.fileId in StoredIds(archived) {
      InPicturesOf(archived, p);
    }
  }

  /** One turn of the `foreach` of the sequential `Run`: the picture's
      tries continue the call numbering of the tally, and its archive, if
      any, is recorded before it is counted a success. */
  method ArchiveNext(items: seq<PictureModel>, index: nat, t: Tally, oracle: SaveOracle, ledger: Ledger,
                     settings: RunSettings, ghost before: Snapshot)
    returns (u: Tally)
    requires index < |items| && t == Sequential(items[..index], oracle)
    requires ledger.Valid() && Extends(ledger.testMode, before, Snap(ledger), t.archived)
    modifies ledger
    ensures ledger.Valid()
    ensures u == Sequential(items[..index + 1], oracle)
    ensures Extends(ledger.testMode, before, Snap(ledger), u.archived)
  {
    var picture := items[index];
    assert items[..index + 1] == items[..index] + [picture];
    SequentialSnoc(items[..index], picture, oracle);
    ghost var mid := Snap(ledger);
    var archive, used := ArchivePicture(picture, oracle, t.calls, ledger, settings);
    ghost var added := if archive.Some? then [archive.value] else [];
    ExtendsTransitive(ledger.testMode, before, mid, Snap(ledger), t.archived, added);
    if archive.None? {
      u := Tally(AvalancheRunResult(t.result.successes, t.result.failures + [picture]), t.archived, t.calls + used);
    } else {
      u := Tally(AvalancheRunResult(t.result.successes + [picture], t.result.failures), t.archived + [archive.value], t.calls + used);
    }
  }

  /** The `foreach` of the sequential `Run`: each picture in order. */
  method ArchiveInOrder(items: seq<PictureModel>, oracle: SaveOracle, ledger: Ledger, settings: RunSettings)
    returns (t: Tally)
    requires ledger.Valid()
    modifies ledger
    ensures ledger.Valid()
    ensures t == Sequential(items, oracle)
    ensures Extends(ledger.testMode, old(Snap(ledger)), Snap(ledger), t.archived)
  {
    t := Tally(NewRunResult(), [], 0);
    ghost var before := Snap(ledger);
    ExtendsReflexive(ledger.testMode, before);
    var index := 0;
    while index < |items|
      invariant 0 <= index <= |items|
      invariant ledger.Valid()
      invariant t == Sequential(items[..index], oracle)
      invariant Extends(ledger.testMode, before, Snap(ledger), t.archived)
    {
      t := ArchiveNext(items, index, t, oracle, ledger, settings, before);
      index := index + 1;
    }
    assert items[..index] == items;
  }

  /** The sequential `Run`: the to-do list is built in full, then worked
      through in order. A ledger without tables makes the run throw while
      the list is built, before any upload. */
  method RunSequential(pics: seq<PictureModel>, oracle: SaveOracle, ledger: Ledger, settings: RunSettings)
    returns (r: Result<AvalancheRunResult, RunFault>, calls: nat, ghost archived: seq<ArchivedPictureModel>)
    requires ledger.Valid()
    modifies ledger
    ensures ledger.Valid()
    ensures r.Failure? <==> !old(ledger.hasSchema) && HasLibraryPicture(FirstPerFileId(pics))
    ensures r.Failure? ==> r.error == LedgerUnreadable(NoSuchTable) && calls == 0 && Snap(ledger) == old(Snap(ledger))
    ensures r.Success? ==>
              && Tally(r.value, archived, calls) == Sequential(ToArchive(pics, old(ledger.ArchivedFileIds())), oracle)
              && Extends(ledger.testMode, old(Snap(ledger)), Snap(ledger), archived)
    ensures r.Success? && !ledger.testMode ==>
              && old(ledger.ArchivedFileIds()) <= ledger.ArchivedFileIds()
              && forall p :: p in r.value.successes ==> p.fileId in ledger.ArchivedFileIds()
  {
    var todo := BuildToDo(pics, ledger);
    if todo.Failure? {
      return Failure(LedgerUnreadable(todo.error)), 0, [];
    }
    ghost var before := Snap(ledger);
    var t := ArchiveInOrder(todo.value, oracle, ledger, settings);
    r, calls, archived := Success(t.result), t.calls, t.archived;
    SequentialAccounts(todo.value, oracle);
    if !ledger.testMode {
      SuccessesArchived(before, Snap(ledger), archived, r.value.successes);
    }
  }

  // ---------------------------------------------------------------------
  // The queue runner

  /** Where one worker is: about to test `WorkQueue.Any()`, past that test
      and about to `TryDequeue`, holding a picture, or returned. */
  datatype Phase = Idle | Checked | Holding(picture: PictureModel) | Done

  /** The picture a worker holds, if any. */
  function HeldBy(ph: Phase): multiset<PictureModel> {
    if ph.Holding? then multiset{ph.picture} else multiset{}
  }

  /** The pictures the workers hold. */
  function Held(phases: seq<Phase>): multiset<PictureModel> {
    if phases == [] then multiset{} else HeldBy(phases[0]) + Held(phases[1..])
  }

  lemma {:induction false} HeldUpdate(phases: seq<Phase>, w: nat, ph: Phase)
    requires w < |phases|
    ensures Held(phases[w := ph]) + HeldBy(phases[w]) == Held(phases) + HeldBy(ph)
    decreases |phases|
  {
    var updated := phases[w := ph];
    if w == 0 {
      assert updated[1..] == phases[1..];
      assert Held(updated) == HeldBy(ph) + Held(phases[1..]);
    } else {
      assert updated[0] == phases[0];
      assert updated[1..] == phases[1..][w - 1 := ph];
      assert phases[1..][w - 1] == phases[w];
      HeldUpdate(phases[1..], w - 1, ph);
      assert Held(updated) == HeldBy(phases[0]) + Held(phases[1..][w - 1 := ph]);
      assert Held(phases) == HeldBy(phases[0]) + Held(phases[1..]);
      forall x ensures (Held(updated) + HeldBy(phases[w]))[x] == (Held(phases) + HeldBy(ph))[x] {
        assert (Held(phases[1..][w - 1 := ph]) + HeldBy(phases[w]))[x] == (Held(phases[1..]) + HeldBy(ph))[x];
      }
    }
  }

  /** Moving a picture between the lists, the queue and the workers
      keeps their multiset together. */
  lemma MultisetExchange<T>(before: multiset<T>, after: multiset<T>, heldBefore: multiset<T>, heldAfter: multiset<T>,
                            out: multiset<T>, into: multiset<T>)
    requires after + into == before + out
    requires heldAfter + out == heldBefore + into
    ensures after + heldAfter == before + heldBefore
  {
    forall x ensures (after + heldAfter)[x] == (before + heldBefore)[x] {
      assert (after + into)[x] == (before + out)[x];
      assert (heldAfter + out)[x] == (heldBefore + into)[x];
    }
  }

  /** Each worker holds at most one picture, so at most
      `UploadParallelism` pictures are in flight at once. */
  lemma {:induction false} InFlightBound(phases: seq<Phase>)
    ensures |Held(phases)| <= |phases|
    decreases |phases|
  {
    if phases != [] {
      InFlightBound(phases[1..]);
    }
  }

  lemma {:induction false} NoneHeld(phases: seq<Phase>)
    requires forall w :: 0 <= w < |phases| ==> !phases[w].Holding?
    ensures Held(phases) == multiset{}
    decreases |phases|
  {
    if phases != [] {
      NoneHeld(phases[1..]);
    }
  }

  /** A worker's weight in the termination measure: every step either
      lowers it or takes a picture off the queue. */
  function PhaseWeight(ph: Phase): nat {
    match ph
    case Done => 0
    case Checked => 1
    case Idle => 2
    case Holding(_) => 3
  }

  function Weight(phases: seq<Phase>): nat {
    if phases == [] then 0 else PhaseWeight(phases[0]) + Weight(phases[1..])
  }

  lemma {:induction false} WeightUpdate(phases: seq<Phase>, w: nat, ph: Phase)
    requires w < |phases|
    ensures Weight(phases[w := ph]) + PhaseWeight(phases[w]) == Weight(phases) + PhaseWeight(ph)
    decreases |phases|
  {
    if w > 0 {
      assert phases[w := ph][1..] == phases[1..][w - 1 := ph];
      WeightUpdate(phases[1..], w - 1, ph);
    }
  }

  /** The runner's shared state (`RunState`): the work queue, the running
      index and the result lists. */
  class RunState {
    var workQueue: seq<PictureModel>
    var index: int
    const filteredPictureCount: int
    const catalogId: string
    var result: AvalancheRunResult
    /** SaveImage calls made so far by all workers together. */
    var saveCalls: nat
    /** The archives recorded in the ledger so far, in the order recorded. */
    ghost var archived: seq<ArchivedPictureModel>

    /** Every picture of the run is queued or in a result list. */
    ghost function Pool(): multiset<PictureModel>
      reads this
    {
      multiset(result.successes) + multiset(result.failures) + multiset(workQueue)
    }

    /** The index counts the pictures taken, each took at most three
        calls, and each success recorded one archive. */
    ghost predicate Counts()
      reads this
    {
      && index == |result.successes| + |result.failures|
      && saveCalls <= RetryCount * index
      && RecordsOf(archived, result.successes)
    }

    constructor (workQueue: seq<PictureModel>, catalogId: string)
      ensures this.workQueue == workQueue && index == 0 && filteredPictureCount == |workQueue|
      ensures this.catalogId == catalogId && result == NewRunResult() && saveCalls == 0 && archived == []
      ensures Counts() && Pool() == multiset(workQueue)
    {
      this.workQueue := workQueue;
      index := 0;
      filteredPictureCount := |workQueue|;
      this.catalogId := catalogId;
      result := NewRunResult();
      saveCalls := 0;
      archived := [];
    }

    /** `TryDequeue`: the head of the queue, when there is one. */
    method TryDequeue() returns (picture: Option<PictureModel>)
      requires Counts()
      modifies this
      ensures Counts()
      ensures old(workQueue) == [] ==> picture.None? && workQueue == []
      ensures old(workQueue) != [] ==> picture == Some(old(workQueue)[0]) && workQueue == old(workQueue)[1..]
      ensures index == old(index) && result == old(result) && saveCalls == old(saveCalls) && archived == old(archived)
    {
      if workQueue == [] {
        return None;
      }
      picture := Some(workQueue[0]);
      workQueue := workQueue[1..];
    }

    /** `ArchivePicture(picture, state)`: count the picture, try it, and
        put it in one of the result lists. */
    method ArchiveDequeued(picture: PictureModel, oracle: SaveOracle, ledger: Ledger, settings: RunSettings)
      returns (ghost got: Option<ArchivedPictureModel>)
      requires ledger.Valid() && Counts()
      modifies this, ledger
      ensures ledger.Valid() && Counts() && workQueue == old(workQueue)
      ensures index == old(index) + 1 && saveCalls >= old(saveCalls)
      ensures saveCalls - old(saveCalls) == Retry.Retry(oracle, old(saveCalls)).calls
      ensures got == PairWith(Retry.Retry(oracle, old(saveCalls)).archive, picture)
      ensures got.Some? ==> result == AvalancheRunResult(old(result).successes + [picture], old(result).failures)
                            && archived == old(archived) + [got.value]
      ensures got.None? ==> result == AvalancheRunResult(old(result).successes, old(result).failures + [picture])
                            && archived == old(archived)
      ensures Extends(ledger.testMode, old(Snap(ledger)), Snap(ledger), if got.Some? then [got.value] else [])
    {
      index := index + 1;
      var archive, used := ArchivePicture(picture, oracle, saveCalls, ledger, settings);
      saveCalls := saveCalls + used;
      got := archive;
      if archive.None? {
        result := AvalancheRunResult(result.successes, result.failures + [picture]);
      } else {
        RecordsOfSnoc(archived, result.successes, archive.value, picture);
        result := AvalancheRunResult(result.successes + [picture], result.failures);
        archived := archived + [archive.value];
      }
    }
  }

  /** Some worker has not returned yet. */
  predicate Working(phases: seq<Phase>) {
    exists w :: 0 <= w < |phases| && !phases[w].Done?
  }

  /** One worker archives the picture it holds: the picture moves into a
      result list and the ledger records its archive, if any. */
  method ArchiveHeld(state: RunState, picture: PictureModel, oracle: SaveOracle, ledger: Ledger, settings: RunSettings,
                     ghost before: Snapshot)
    requires ledger.Valid() && state.Counts() && Extends(ledger.testMode, before, Snap(ledger), state.archived)
    modifies state, ledger
    ensures ledger.Valid() && state.Counts() && Extends(ledger.testMode, before, Snap(ledger), state.archived)
    ensures state.Pool() + HeldBy(Idle) == old(state.Pool()) + HeldBy(Holding(picture))
    ensures state.workQueue == old(state.workQueue)
  {
    ghost var mid := Snap(ledger);
    ghost var archived := state.archived;
    var got := state.ArchiveDequeued(picture, oracle, ledger, settings);
    ExtendsTransitive(ledger.testMode, before, mid, Snap(ledger), archived, if got.Some? then [got.value] else []);
  }

  /** `TryDequeue` after the queue tested non-empty: another worker may
      have emptied it since, and then this worker returns. */
  method TakeNext(state: RunState) returns (next: Phase)
    requires state.Counts()
    modifies state
    ensures state.Counts() && state.archived == old(state.archived)
    ensures state.Pool() + HeldBy(next) == old(state.Pool()) + HeldBy(Checked)
    ensures next.Done? <==> old(state.workQueue) == []
    ensures next.Done? ==> state.workQueue == []
    ensures old(state.workQueue) == [] ==> state.workQueue == []
    ensures 3 * |state.workQueue| + PhaseWeight(next) < 3 * old(|state.workQueue|) + PhaseWeight(Checked)
  {
    ghost var queue := state.workQueue;
    var picture := state.TryDequeue();
    if picture.None? {
      next := Done;
    } else {
      next := Holding(picture.value);
      assert queue == [picture.value] + state.workQueue;
    }
  }

  /** One step of one worker of the queue `Run`: test the queue, dequeue
      from it, or archive the picture held. */
  method Advance(state: RunState, current: Phase, oracle: SaveOracle, ledger: Ledger, settings: RunSettings,
                 ghost before: Snapshot)
    returns (next: Phase)
    requires !current.Done?
    requires ledger.Valid() && state.Counts() && Extends(ledger.testMode, before, Snap(ledger), state.archived)
    modifies state, ledger
    ensures ledger.Valid() && state.Counts() && Extends(ledger.testMode, before, Snap(ledger), state.archived)
    ensures state.Pool() + HeldBy(next) == old(state.Pool()) + HeldBy(current)
    ensures next.Done? ==> state.workQueue == []
    ensures old(state.workQueue) == [] ==> state.workQueue == []
    ensures 3 * |state.workQueue| + PhaseWeight(next) < 3 * old(|state.workQueue|) + PhaseWeight(current)
  {
    match current {
      case Idle =>
        // while (state.WorkQueue.Any())
        next := if state.workQueue == [] then Done else Checked;
      case Checked =>
        next := TakeNext(state);
      case Holding(picture) =>
        ArchiveHeld(state, picture, oracle, ledger, settings, before);
        next := Idle;
    }
  }

  /** A worker that has returned saw the queue empty, and nothing is
      queued again, so the queue stays empty. */
  predicate DoneMeansEmpty(phases: seq<Phase>, queue: seq<PictureModel>) {
    forall w :: 0 <= w < |phases| && phases[w].Done? ==> queue == []
  }

  /** One worker's step keeps every picture accounted for, keeps the
      queue empty once a worker returned, and lowers the measure. */
  lemma StepKeepsAccounts(phases: seq<Phase>, w: nat, next: Phase, total: multiset<PictureModel>,
                          poolBefore: multiset<PictureModel>, poolAfter: multiset<PictureModel>,
                          queueBefore: seq<PictureModel>, queueAfter: seq<PictureModel>)
    requires w < |phases|
    requires poolBefore + Held(phases) == total && DoneMeansEmpty(phases, queueBefore)
    requires poolAfter + HeldBy(next) == poolBefore + HeldBy(phases[w])
    requires next.Done? ==> queueAfter == []
    requires queueBefore == [] ==> queueAfter == []
    requires 3 * |queueAfter| + PhaseWeight(next) < 3 * |queueBefore| + PhaseWeight(phases[w])
    ensures poolAfter + Held(phases[w := next]) == total && DoneMeansEmpty(phases[w := next], queueAfter)
    ensures 3 * |queueAfter| + Weight(phases[w := next]) < 3 * |queueBefore| + Weight(phases)
  {
    HeldUpdate(phases, w, next);
    MultisetExchange(poolBefore, poolAfter, Held(phases), Held(phases[w := next]), HeldBy(phases[w]), HeldBy(next));
    WeightUpdate(phases, w, next);
    var updated := phases[w := next];
    forall v | 0 <= v < |updated| && updated[v].Done? ensures queueAfter == [] {
      if v != w {
        assert phases[v].Done?;
      }
    }
  }

  /** The three workers of the queue `Run`, started together and
      awaited together. */
  method DrainQueue(state: RunState, oracle: SaveOracle, ledger: Ledger, settings: RunSettings, ghost before: Snapshot)
    requires ledger.Valid() && state.Counts() && Extends(ledger.testMode, before, Snap(ledger), state.archived)
    modifies state, ledger
    ensures ledger.Valid() && state.Counts() && Extends(ledger.testMode, before, Snap(ledger), state.archived)
    ensures state.workQueue == [] && state.Pool() == old(state.Pool())
  {
    var phases := seq(UploadParallelism, _ => Idle);
    NoneHeld(phases);
    while Working(phases)
      invariant |phases| == UploadParallelism
      invariant ledger.Valid() && state.Counts() && Extends(ledger.testMode, before, Snap(ledger), state.archived)
      invariant state.Pool() + Held(phases) == old(state.Pool()) && DoneMeansEmpty(phases, state.workQueue)
      decreases 3 * |state.workQueue| + Weight(phases)
    {
      var w :| 0 <= w < |phases| && !phases[w].Done?;
      ghost var pool := state.Pool();
      ghost var queued := state.workQueue;
      var next := Advance(state, phases[w], oracle, ledger, settings, before);
      StepKeepsAccounts(phases, w, next, old(state.Pool()), pool, state.Pool(), queued, state.workQueue);
      phases := phases[w := next];
    }
    NoneHeld(phases);
  }

  /** The queue `Run`: assert the vault, build the to-do list, queue it,
      and let three workers drain the queue. Every interleaving of the
      workers' steps is allowed: the scheduler picks any worker that has
      not returned. */
  method Run(pics: seq<PictureModel>, oracle: SaveOracle, vaultAsserted: bool, ledger: Ledger, settings: RunSettings)
    returns (r: Result<AvalancheRunResult, RunFault>, calls: nat, ghost archived: seq<ArchivedPictureModel>)
    requires ledger.Valid()
    modifies ledger
    ensures ledger.Valid()
    ensures !vaultAsserted ==> r == Failure(VaultAssertionFailed)
    ensures vaultAsserted ==> (r.Failure? <==> !old(ledger.hasSchema) && HasLibraryPicture(FirstPerFileId(pics)))
    ensures r.Failure? ==> calls == 0 && Snap(ledger) == old(Snap(ledger))
    ensures r.Success? ==>
              && multiset(r.value.successes) + multiset(r.value.failures) == multiset(ToArchive(pics, old(ledger.ArchivedFileIds())))
              && calls <= RetryCount * |ToArchive(pics, old(ledger.ArchivedFileIds()))|
              && RecordsOf(archived, r.value.successes)
              && Extends(ledger.testMode, old(Snap(ledger)), Snap(ledger), archived)
    ensures r.Success? && !ledger.testMode ==>
              && old(ledger.ArchivedFileIds()) <= ledger.ArchivedFileIds()
              && forall p :: p in r.value.successes ==> p.fileId in ledger.ArchivedFileIds()
  {
    if !vaultAsserted {
      return Failure(VaultAssertionFailed), 0, [];
    }
    var todo := BuildToDo(pics, ledger);
    if todo.Failure? {
      return Failure(LedgerUnreadable(todo.error)), 0, [];
    }
    var state := new RunState(todo.value, settings.catalogId);
    ghost var before := Snap(ledger);
    ExtendsReflexive(ledger.testMode, before);
    DrainQueue(state, oracle, ledger, settings, before);
    r, calls, archived := Success(state.result), state.saveCalls, state.archived;
    assert multiset(state.result.successes) + multiset(state.result.failures) == state.Pool();
    if !ledger.testMode {
      SuccessesArchived(before, Snap(ledger), archived, r.value.successes);
    }
  }
}
