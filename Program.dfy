/** The first revision's command-line backup (Avalanche/Program.cs): after
    the configuration is validated, every picture in a library that the
    ledger does not list is uploaded with up to three tries, and each
    archive is recorded in the ledger. There is no grouping by FileId and
    no result list: a picture that fails three times is skipped. */
module LegacyProgram {
  import opened Models
  import opened Eligibility
  import opened Retry
  import opened State
  import opened Config
  import opened Runner

  /** How the legacy back-up ends: it logs the configuration errors and exits, a
      ledger file without tables throws while the list is built, or it
      logs "Done" and returns. */
  datatype Exit = ConfigurationRejected(errors: seq<string>) | StateUnreadable | Finished

  /** The pictures the first revision backs up: the filter alone, so a
      FileId listed twice is kept twice. */
  function LegacyToDo(pics: seq<PictureModel>, archived: set<Guid>): (todo: seq<PictureModel>)
    ensures forall p :: p in todo ==> p in pics && Eligible(p, archived)
  {
    var todo := KeepEligible(pics, archived);
    assert forall p :: p in todo ==> multiset(todo)[p] > 0;
    todo
  }

  /** `avalancheRepo.MarkFileAsArchived(...)` on the first revision's
      ledger: its tables exist, and System.Data.SQLite binds `$vaultid` to
      `$vaultId` ignoring case, so the row is added. */
  method RecordArchive(model: ArchivedPictureModel, ledger: Ledger, settings: RunSettings)
    requires ledger.Consistent() && !ledger.testMode && ledger.hasSchema
    modifies ledger
    ensures ledger.Consistent() && ledger.hasSchema
    ensures Extends(false, old(Snap(ledger)), Snap(ledger), [model])
  {
    var _ := ledger.MarkFileAsArchivedUnboundVault(model, settings.vaultName, settings.region,
                                                   settings.catalogFilePath, settings.catalogId, true);
    assert Snap(ledger).pictures[|old(ledger.pictures)|..] == [ledger.pictures[|ledger.pictures| - 1]];
  }

  /** One turn of the `foreach`: the tries, then, for an archive, one
      ledger record of it; a picture without an archive is skipped. */
  method BackUpNext(items: seq<PictureModel>, index: nat, t: Tally, oracle: SaveOracle, ledger: Ledger,
                    settings: RunSettings, ghost before: Snapshot)
    returns (u: Tally)
    requires index < |items| && t == Sequential(items[..index], oracle)
    requires ledger.Consistent() && !ledger.testMode && ledger.hasSchema
    requires Extends(false, before, Snap(ledger), t.archived)
    modifies ledger
    ensures ledger.Consistent() && ledger.hasSchema
    ensures u == Sequential(items[..index + 1], oracle)
    ensures Extends(false, before, Snap(ledger), u.archived)
  {
    var f := items[index];
    assert items[..index + 1] == items[..index] + [f];
    SequentialSnoc(items[..index], f, oracle);
    var archive, used := SaveWithRetry(oracle, t.calls);
    var record := PairWith(archive, f);
    if record.None? {
      u := Tally(AvalancheRunResult(t.result.successes, t.result.failures + [f]), t.archived, t.calls + used);
    } else {
      ghost var mid := Snap(ledger);
      RecordArchive(record.value, ledger, settings);
      ExtendsTransitive(false, before, mid, Snap(ledger), t.archived, [record.value]);
      u := Tally(AvalancheRunResult(t.result.successes + [f], t.result.failures), t.archived + [record.value], t.calls + used);
    }
  }

  /** The `foreach` over the filtered pictures, in order. */
  method BackUpAll(items: seq<PictureModel>, oracle: SaveOracle, ledger: Ledger, settings: RunSettings)
    returns (t: Tally)
    requires ledger.Consistent() && !ledger.testMode && (items != [] ==> ledger.hasSchema)
    modifies ledger
    ensures ledger.Consistent()
    ensures t == Sequential(items, oracle)
    ensures Extends(false, old(Snap(ledger)), Snap(ledger), t.archived)
  {
    t := Tally(NewRunResult(), [], 0);
    ghost var before := Snap(ledger);
    ExtendsReflexive(false, before);
    var index := 0;
    while index < |items|
      invariant 0 <= index <= |items|
      invariant ledger.Consistent() && !ledger.testMode && (items != [] ==> ledger.hasSchema)
      invariant t == Sequential(items[..index], oracle)
      invariant Extends(false, before, Snap(ledger), t.archived)
    {
      t := BackUpNext(items, index, t, oracle, ledger, settings, before);
      index := index + 1;
    }
    assert items[..index] == items;
  }

  /** The legacy `Main` entry point, from the validation on. `fileExists` answers for the
      catalog path, `regions` lists the known regions, `pics` is the
      catalog, `oracle` answers the SaveImage calls in order and the
      ledger is the first revision's. */
  method BackUp(parameters: ExecutionParameters, regions: seq<RegionEndpoint>, fileExists: string -> bool,
              pics: seq<PictureModel>, catalogId: string, oracle: SaveOracle, ledger: Ledger)
    returns (exit: Exit, calls: nat, ghost archived: seq<ArchivedPictureModel>)
    requires ledger.Consistent() && !ledger.testMode
    modifies ledger
    ensures ledger.Consistent()
    ensures ValidationErrors(parameters, regions, fileExists) != [] ==>
              exit == ConfigurationRejected(ValidationErrors(parameters, regions, fileExists))
    ensures ValidationErrors(parameters, regions, fileExists) == [] ==>
              (exit == StateUnreadable <==> !old(ledger.hasSchema) && HasLibraryPicture(pics))
    ensures !exit.Finished? ==> calls == 0 && Snap(ledger) == old(Snap(ledger))
    ensures exit.Finished? ==>
              && ValidationErrors(parameters, regions, fileExists) == []
              && calls == Sequential(LegacyToDo(pics, old(ledger.ArchivedFileIds())), oracle).calls
              && archived == Sequential(LegacyToDo(pics, old(ledger.ArchivedFileIds())), oracle).archived
              && Extends(false, old(Snap(ledger)), Snap(ledger), archived)
    ensures exit.Finished? ==>
              && old(ledger.ArchivedFileIds()) <= ledger.ArchivedFileIds()
              && forall p :: p in Sequential(LegacyToDo(pics, old(ledger.ArchivedFileIds())), oracle).result.successes ==>
                   p.fileId in ledger.ArchivedFileIds()
  {
    var errors := ValidationErrors(parameters, regions, fileExists);
    if errors != [] {
      return ConfigurationRejected(errors), 0, [];
    }
    var settings := RunSettings(parameters.glacier.vaultName.value, parameters.glacier.region.value,
                                parameters.avalanche.catalogFilePath.value, catalogId);
    var filtered := KeepUnarchived(pics, ledger);
    if filtered.Failure? {
      return StateUnreadable, 0, [];
    }
    KeptAreLibraryPictures(pics, ledger.ArchivedFileIds());
    ghost var before := Snap(ledger);
    var t := BackUpAll(filtered.value, oracle, ledger, settings);
    SequentialAccounts(filtered.value, oracle);
    SuccessesArchived(before, Snap(ledger), t.archived, t.result.successes);
    return Finished, t.calls, t.archived;
  }

  /** Without grouping, both pictures of a FileId listed twice are kept. */
  lemma FilterKeepsBoth(p: PictureModel, q: PictureModel, archived: set<Guid>)
    requires Eligible(p, archived) && Eligible(q, archived)
    ensures LegacyToDo([p, q], archived) == [p, q]
  {
    assert [p, q][1..] == [q];
    assert KeepEligible([q], archived) == [q] by {
      assert [q][1..] == [];
    }
  }

  /** Grouping by FileId keeps the first of two pictures sharing one. */
  lemma GroupingKeepsFirst(p: PictureModel, q: PictureModel)
    requires p.fileId == q.fileId
    ensures FirstPerFileId([p, q]) == [p]
  {
    assert [p, q][1..] == [q];
    assert FirstPerFileIdAfter([q], {} + {p.fileId}) == [] by {
      assert [q][1..] == [];
      assert q.fileId in {} + {p.fileId};
    }
    assert FirstPerFileIdAfter([p, q], {}) == [p] + FirstPerFileIdAfter([q], {} + {p.fileId});
  }

  /** A picture listed twice under one FileId is uploaded and recorded
      twice when every call saves, where the newer runners upload it
      once. */
  lemma DuplicateUploadedTwice(p: PictureModel, q: PictureModel, archived: set<Guid>, oracle: SaveOracle)
    requires p.fileId == q.fileId && p.libraryCount > 0 && q.libraryCount > 0 && p.fileId !in archived
    requires forall k :: oracle(k).Saved?
    ensures Sequential(LegacyToDo([p, q], archived), oracle).archived
            == [ArchivedPictureModel(oracle(0).archive, p), ArchivedPictureModel(oracle(1).archive, q)]
    ensures Sequential(ToArchive([p, q], archived), oracle).archived == [ArchivedPictureModel(oracle(0).archive, p)]
  {
    FilterKeepsBoth(p, q, archived);
    GroupingKeepsFirst(p, q);
    assert KeepEligible([p], archived) == [p] by {
      assert [p][1..] == [];
    }
    EveryCallSaves(LegacyToDo([p, q], archived), oracle);
    EveryCallSaves(ToArchive([p, q], archived), oracle);
  }
}
