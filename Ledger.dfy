/** The ledger: the SQLite state file that records which pictures have
    been archived, in which vault, from which catalog. Three tables:
    Vaults (Name unique), Catalogs (UniqueId unique) and Pictures, whose
    rows point at one vault and one catalog. The newest revision
    (core/src/Avalanche/State/IAvalancheRepository.cs) creates the tables
    with IF NOT EXISTS and has a test mode that persists nothing; the two
    older revisions (core/src/Avalanche/Repository/AvalancheRepository.cs
    and Avalanche/Avalanche/Repository/AvalancheRepository.cs) create the
    tables only when the file is missing. */
module State {
  import opened Models

  datatype VaultRow = VaultRow(id: int, region: string)
  datatype CatalogRow = CatalogRow(id: int, fileName: string)
  /** One archived picture: the catalog and vault it belongs to, the
      picture's own columns and the Glacier confirmation. */
  datatype PictureRow = PictureRow(catalogId: int, vaultId: int, picture: PictureModel, archive: ArchiveModel)

  /** Why a statement fails: a table that was never created, or an INSERT
      the database rejects. */
  datatype DbError = NoSuchTable | InsertRejected

  /** `SELECT COUNT(*) FROM Pictures p WHERE p.FileId = $fileId`. */
  function CountWithFileId(rows: seq<PictureRow>, f: Guid): nat {
    if rows == [] then 0
    else (if rows[0].picture.fileId == f then 1 else 0) + CountWithFileId(rows[1..], f)
  }

  function ArchivedIds(rows: seq<PictureRow>): set<Guid> {
    set r | r in rows :: r.picture.fileId
  }

  /** The count is positive exactly when some row records the file. */
  lemma {:induction false} CountPositiveIff(rows: seq<PictureRow>, f: Guid)
    ensures CountWithFileId(rows, f) > 0 <==> f in ArchivedIds(rows)
  {
    if rows != [] {
      CountPositiveIff(rows[1..], f);
      assert rows == [rows[0]] + rows[1..];
      assert ArchivedIds(rows) == {rows[0].picture.fileId} + ArchivedIds(rows[1..]);
    }
  }

  /** The identities of a Vaults table. */
  function VaultIdsOf(m: map<string, VaultRow>): set<int> {
    set n | n in m :: m[n].id
  }

  /** The identities of a Catalogs table. */
  function CatalogIdsOf(m: map<string, CatalogRow>): set<int> {
    set n | n in m :: m[n].id
  }

  /** Every vault identity is positive, at most the AUTOINCREMENT
      counter, and used by one vault only. */
  predicate VaultIdsWithin(m: map<string, VaultRow>, counter: int) {
    && (forall n :: n in m ==> 0 < m[n].id <= counter)
    && (forall n, k :: n in m && k in m && n != k ==> m[n].id != m[k].id)
  }

  predicate CatalogIdsWithin(m: map<string, CatalogRow>, counter: int) {
    && (forall n :: n in m ==> 0 < m[n].id <= counter)
    && (forall n, k :: n in m && k in m && n != k ==> m[n].id != m[k].id)
  }

  /** A new vault under the next counter value takes an identity no vault
      has, and every identity stays in use. */
  lemma AddVaultRow(m: map<string, VaultRow>, counter: nat, name: string, row: VaultRow)
    requires VaultIdsWithin(m, counter) && name !in m && row.id == counter + 1
    ensures VaultIdsWithin(m[name := row], counter + 1)
    ensures row.id !in VaultIdsOf(m) && VaultIdsOf(m) <= VaultIdsOf(m[name := row])
  {
    var m' := m[name := row];
    forall n | n in m' ensures 0 < m'[n].id <= counter + 1 {
      if n != name {
        assert m'[n] == m[n];
      }
    }
    forall n, k | n in m' && k in m' && n != k ensures m'[n].id != m'[k].id {
      if n != name && k != name {
        assert m'[n] == m[n] && m'[k] == m[k];
      } else if n == name {
        assert m'[k] == m[k];
      } else {
        assert m'[n] == m[n];
      }
    }
    forall v | v in VaultIdsOf(m) ensures v in VaultIdsOf(m[name := row]) && v != row.id {
      var n :| n in m && m[n].id == v;
      assert n in m[name := row] && m[name := row][n].id == v;
    }
  }

  lemma AddCatalogRow(m: map<string, CatalogRow>, counter: nat, uniqueId: string, row: CatalogRow)
    requires CatalogIdsWithin(m, counter) && uniqueId !in m && row.id == counter + 1
    ensures CatalogIdsWithin(m[uniqueId := row], counter + 1)
    ensures row.id !in CatalogIdsOf(m) && CatalogIdsOf(m) <= CatalogIdsOf(m[uniqueId := row])
  {
    var m' := m[uniqueId := row];
    forall n | n in m' ensures 0 < m'[n].id <= counter + 1 {
      if n != uniqueId {
        assert m'[n] == m[n];
      }
    }
    forall n, k | n in m' && k in m' && n != k ensures m'[n].id != m'[k].id {
      if n != uniqueId && k != uniqueId {
        assert m'[n] == m[n] && m'[k] == m[k];
      } else if n == uniqueId {
        assert m'[k] == m[k];
      } else {
        assert m'[n] == m[n];
      }
    }
    forall c | c in CatalogIdsOf(m) ensures c in CatalogIdsOf(m[uniqueId := row]) && c != row.id {
      var n :| n in m && m[n].id == c;
      assert n in m[uniqueId := row] && m[uniqueId := row][n].id == c;
    }
  }

  /** A table that is either unchanged or has gained one new key has the
      old keys plus that key, with their old rows. */
  lemma KeptKeys<R>(before: map<string, R>, after: map<string, R>, key: string)
    requires key in after
    requires after == before || (key !in before && after == before[key := after[key]])
    ensures after.Keys == before.Keys + {key}
    ensures forall n :: n in before ==> after[n] == before[n]
  {
  }

  class Ledger {
    /** Newest revision only: nothing is persisted in test mode. */
    const testMode: bool
    /** Whether the state file is on disk. */
    var fileExists: bool
    /** Whether the three tables exist. */
    var hasSchema: bool
    /** The Vaults table, keyed by its unique Name. */
    var vaults: map<string, VaultRow>
    /** The Catalogs table, keyed by its unique UniqueId. */
    var catalogs: map<string, CatalogRow>
    /** The Pictures table in insertion order. */
    var pictures: seq<PictureRow>
    /** The AUTOINCREMENT counters of Vaults and Catalogs. */
    var vaultSeq: nat
    var catalogSeq: nat

    function VaultIds(): set<int>
      reads this
    {
      VaultIdsOf(vaults)
    }

    function CatalogIds(): set<int>
      reads this
    {
      CatalogIdsOf(catalogs)
    }

    function ArchivedFileIds(): set<Guid>
      reads this
    {
      ArchivedIds(pictures)
    }

    /** What every database this code writes satisfies: no tables without
        a file, no rows without tables, positive and distinct identities
        below the AUTOINCREMENT counters, and every picture row pointing
        at an existing vault and catalog. */
    ghost predicate Consistent()
      reads this
    {
      && (!fileExists ==> !hasSchema)
      && (!hasSchema ==> vaults == map[] && catalogs == map[] && pictures == [])
      && VaultIdsWithin(vaults, vaultSeq)
      && CatalogIdsWithin(catalogs, catalogSeq)
      && (forall r :: r in pictures ==> r.vaultId in VaultIds() && r.catalogId in CatalogIds())
    }

    /** The newest revision's object invariant: outside test mode the
        tables exist, since its constructor creates them. */
    ghost predicate Valid()
      reads this
    {
      Consistent() && (testMode || hasSchema)
    }

    /** The newest revision opened on a new state file: the constructor
        runs AssertDatabaseExists, which creates the tables unless in
        test mode. */
    constructor (testMode: bool)
      ensures this.testMode == testMode && fileExists && hasSchema == !testMode
      ensures vaults == map[] && catalogs == map[] && pictures == []
      ensures Valid()
    {
      this.testMode := testMode;
      fileExists := true;
      hasSchema := false;
      vaults := map[];
      catalogs := map[];
      pictures := [];
      vaultSeq := 0;
      catalogSeq := 0;
      new;
      AssertDatabaseExists();
    }

    /** The newest revision opened on the state file an earlier run left
        behind, for instance a test-mode run over the real ledger. */
    constructor Reopen(testMode: bool, previous: Ledger)
      requires previous.Consistent() && previous.fileExists
      ensures this.testMode == testMode && fileExists
      ensures hasSchema == (previous.hasSchema || !testMode)
      ensures vaults == previous.vaults && catalogs == previous.catalogs && pictures == previous.pictures
      ensures Valid()
    {
      this.testMode := testMode;
      fileExists := true;
      hasSchema := previous.hasSchema;
      vaults := previous.vaults;
      catalogs := previous.catalogs;
      pictures := previous.pictures;
      vaultSeq := previous.vaultSeq;
      catalogSeq := previous.catalogSeq;
      new;
      AssertDatabaseExists();
    }

    /** An older revision opened at a path: with no file there it creates
        one holding the three empty tables; an existing file is used as
        it is, even one without tables. */
    constructor Legacy(previous: Ledger?)
      requires previous != null ==> previous.Consistent() && previous.fileExists
      ensures !testMode && fileExists && Consistent()
      ensures previous == null ==> hasSchema && vaults == map[] && catalogs == map[] && pictures == []
      ensures previous != null ==>
                && hasSchema == previous.hasSchema && vaults == previous.vaults
                && catalogs == previous.catalogs && pictures == previous.pictures
    {
      testMode := false;
      if previous == null {
        fileExists := false;
        hasSchema := false;
        vaults := map[];
        catalogs := map[];
        pictures := [];
        vaultSeq := 0;
        catalogSeq := 0;
      } else {
        fileExists := true;
        hasSchema := previous.hasSchema;
        vaults := previous.vaults;
        catalogs := previous.catalogs;
        pictures := previous.pictures;
        vaultSeq := previous.vaultSeq;
        catalogSeq := previous.catalogSeq;
      }
      new;
      CreateDatabaseIfMissing();
    }

    /** Newest revision: CREATE TABLE IF NOT EXISTS for the three tables,
        skipped in test mode. Existing rows are kept, so running it again
        changes nothing. */
    method AssertDatabaseExists()
      requires Consistent() && fileExists
      modifies this
      ensures Consistent() && fileExists
      ensures hasSchema == (old(hasSchema) || !testMode)
      ensures vaults == old(vaults) && catalogs == old(catalogs) && pictures == old(pictures)
      ensures vaultSeq == old(vaultSeq) && catalogSeq == old(catalogSeq)
    {
      if testMode {
        return;
      }
      hasSchema := true;
    }

    /** Older revisions: the tables are created only when the file does not
        exist yet. */
    method CreateDatabaseIfMissing()
      requires Consistent()
      modifies this
      ensures Consistent() && fileExists
      ensures old(fileExists) ==> hasSchema == old(hasSchema)
      ensures !old(fileExists) ==> hasSchema
      ensures vaults == old(vaults) && catalogs == old(catalogs) && pictures == old(pictures)
      ensures vaultSeq == old(vaultSeq) && catalogSeq == old(catalogSeq)
    {
      if fileExists {
        return;
      }
      fileExists := true;
      hasSchema := true;
    }

    /** Whether some Pictures row records the file; every revision asks
        the same COUNT query, which fails when the table is missing. */
    method FileIsArchived(fileId: Guid) returns (r: Result<bool, DbError>)
      requires Consistent()
      ensures !hasSchema ==> r == Failure(NoSuchTable)
      ensures hasSchema ==> r == Success(fileId in ArchivedFileIds())
    {
      if !hasSchema {
        return Failure(NoSuchTable);
      }
      var count := CountWithFileId(pictures, fileId);
      CountPositiveIff(pictures, fileId);
      return Success(count > 0);
    }

    /** The identity of the vault with this name, inserting the vault when
        there is none. In test mode nothing is inserted and -1 stands for
        the missing vault. */
    method GetOrCreateVaultId(name: string, region: string) returns (r: Result<int, DbError>)
      requires Consistent()
      modifies this
      ensures Consistent()
      ensures fileExists == old(fileExists) && hasSchema == old(hasSchema)
      ensures catalogs == old(catalogs) && catalogSeq == old(catalogSeq) && pictures == old(pictures)
      ensures !hasSchema ==> r == Failure(NoSuchTable) && vaults == old(vaults) && vaultSeq == old(vaultSeq)
      ensures hasSchema && name in old(vaults) ==>
                r == Success(old(vaults)[name].id) && vaults == old(vaults) && vaultSeq == old(vaultSeq)
      ensures hasSchema && name !in old(vaults) && testMode ==>
                r == Success(-1) && vaults == old(vaults) && vaultSeq == old(vaultSeq)
      ensures hasSchema && name !in old(vaults) && !testMode ==>
                && r.Success? && r.value > 0 && r.value !in old(VaultIds())
                && vaults == old(vaults)[name := VaultRow(r.value, region)]
                && vaultSeq == old(vaultSeq) + 1
      ensures hasSchema && !testMode ==> name in vaults && r == Success(vaults[name].id)
    {
      if !hasSchema {
        return Failure(NoSuchTable);
      }
      if name in vaults {
        return Success(vaults[name].id);
      }
      r := CreateVault(name, region);
    }

    method CreateVault(name: string, region: string) returns (r: Result<int, DbError>)
      requires Consistent() && hasSchema && name !in vaults
      modifies this
      ensures Consistent()
      ensures fileExists == old(fileExists) && hasSchema == old(hasSchema)
      ensures catalogs == old(catalogs) && catalogSeq == old(catalogSeq) && pictures == old(pictures)
      ensures testMode ==> r == Success(-1) && vaults == old(vaults) && vaultSeq == old(vaultSeq)
      ensures !testMode ==>
                && r.Success? && r.value > 0 && r.value !in old(VaultIds())
                && vaults == old(vaults)[name := VaultRow(r.value, region)]
                && vaultSeq == old(vaultSeq) + 1
    {
      if testMode {
        return Success(-1);
      }
      AddVaultRow(vaults, vaultSeq, name, VaultRow(vaultSeq + 1, region));
      vaultSeq := vaultSeq + 1;
      var id := vaultSeq;
      vaults := vaults[name := VaultRow(id, region)];
      return Success(id);
    }

    /** The identity of the catalog with this unique id, inserting the
        catalog when there is none; -1 in test mode for a missing one. */
    method GetOrCreateCatalogId(fileName: string, uniqueId: string) returns (r: Result<int, DbError>)
      requires Consistent()
      modifies this
      ensures Consistent()
      ensures fileExists == old(fileExists) && hasSchema == old(hasSchema)
      ensures vaults == old(vaults) && vaultSeq == old(vaultSeq) && pictures == old(pictures)
      ensures !hasSchema ==> r == Failure(NoSuchTable) && catalogs == old(catalogs) && catalogSeq == old(catalogSeq)
      ensures hasSchema && uniqueId in old(catalogs) ==>
                r == Success(old(catalogs)[uniqueId].id) && catalogs == old(catalogs) && catalogSeq == old(catalogSeq)
      ensures hasSchema && uniqueId !in old(catalogs) && testMode ==>
                r == Success(-1) && catalogs == old(catalogs) && catalogSeq == old(catalogSeq)
      ensures hasSchema && uniqueId !in old(catalogs) && !testMode ==>
                && r.Success? && r.value > 0 && r.value !in old(CatalogIds())
                && catalogs == old(catalogs)[uniqueId := CatalogRow(r.value, fileName)]
                && catalogSeq == old(catalogSeq) + 1
      ensures hasSchema && !testMode ==> uniqueId in catalogs && r == Success(catalogs[uniqueId].id)
    {
      if !hasSchema {
        return Failure(NoSuchTable);
      }
      if uniqueId in catalogs {
        return Success(catalogs[uniqueId].id);
      }
      r := CreateCatalog(fileName, uniqueId);
    }

    method CreateCatalog(fileName: string, uniqueId: string) returns (r: Result<int, DbError>)
      requires Consistent() && hasSchema && uniqueId !in catalogs
      modifies this
      ensures Consistent()
      ensures fileExists == old(fileExists) && hasSchema == old(hasSchema)
      ensures vaults == old(vaults) && vaultSeq == old(vaultSeq) && pictures == old(pictures)
      ensures testMode ==> r == Success(-1) && catalogs == old(catalogs) && catalogSeq == old(catalogSeq)
      ensures !testMode ==>
                && r.Success? && r.value > 0 && r.value !in old(CatalogIds())
                && catalogs == old(catalogs)[uniqueId := CatalogRow(r.value, fileName)]
                && catalogSeq == old(catalogSeq) + 1
    {
      if testMode {
        return Success(-1);
      }
      AddCatalogRow(catalogs, catalogSeq, uniqueId, CatalogRow(catalogSeq + 1, fileName));
      catalogSeq := catalogSeq + 1;
      var id := catalogSeq;
      catalogs := catalogs[uniqueId := CatalogRow(id, fileName)];
      return Success(id);
    }

    /** Newest revision: records one archived picture under its vault and
        catalog, creating those when new; does nothing in test mode. A
        picture recorded before is recorded again (the table has no
        uniqueness on FileId). */
    method MarkFileAsArchived(model: ArchivedPictureModel, vaultName: string, vaultRegion: string,
                              catalogFileName: string, catalogUniqueId: string)
      requires Valid()
      modifies this
      ensures Valid() && fileExists == old(fileExists) && hasSchema == old(hasSchema)
      ensures testMode ==> vaults == old(vaults) && catalogs == old(catalogs) && pictures == old(pictures)
                           && vaultSeq == old(vaultSeq) && catalogSeq == old(catalogSeq)
      ensures !testMode ==>
                && vaultName in vaults && catalogUniqueId in catalogs
                && vaults.Keys == old(vaults).Keys + {vaultName}
                && (forall n :: n in old(vaults) ==> vaults[n] == old(vaults)[n])
                && catalogs.Keys == old(catalogs).Keys + {catalogUniqueId}
                && (forall n :: n in old(catalogs) ==> catalogs[n] == old(catalogs)[n])
                && pictures == old(pictures) + [PictureRow(catalogs[catalogUniqueId].id, vaults[vaultName].id,
                                                           model.picture, model.archive)]
      ensures !testMode ==> ArchivedFileIds() == old(ArchivedFileIds()) + {model.picture.fileId}
    {
      if testMode {
        return;
      }
      var vaultId := GetOrCreateVaultId(vaultName, vaultRegion);
      KeptKeys(old(vaults), vaults, vaultName);
      var catalogId := GetOrCreateCatalogId(catalogFileName, catalogUniqueId);
      KeptKeys(old(catalogs), catalogs, catalogUniqueId);
      assert vaultId.value in VaultIds();
      InsertPicture(catalogId.value, vaultId.value, model);
    }

    /** `INSERT INTO Pictures` with every parameter bound. */
    method InsertPicture(catalogId: int, vaultId: int, model: ArchivedPictureModel)
      requires Consistent() && hasSchema && vaultId in VaultIds() && catalogId in CatalogIds()
      modifies this
      ensures Consistent()
      ensures fileExists == old(fileExists) && hasSchema == old(hasSchema)
      ensures vaults == old(vaults) && catalogs == old(catalogs)
      ensures vaultSeq == old(vaultSeq) && catalogSeq == old(catalogSeq)
      ensures pictures == old(pictures) + [PictureRow(catalogId, vaultId, model.picture, model.archive)]
      ensures ArchivedFileIds() == old(ArchivedFileIds()) + {model.picture.fileId}
    {
      pictures := pictures + [PictureRow(catalogId, vaultId, model.picture, model.archive)];
      assert ArchivedFileIds() == old(ArchivedFileIds()) + {model.picture.fileId} by {
        assert forall r :: r in pictures <==> r in old(pictures) || r == PictureRow(catalogId, vaultId, model.picture, model.archive);
      }
    }

    /** The older repository classes as written: the INSERT names
        `$vaultId` but the value is bound as `$vaultid`. Whether that binds
        depends on the driver. System.Data.SQLite, which the first program's
        class uses, matches parameter names ignoring case, so the row is
        written. Microsoft.Data.Sqlite, which the class in
        core/src/Avalanche/Repository uses, keeps SQLite's exact lookup:
        `$vaultId` is left without a value, and the insert throws after the
        vault and the catalog were created. */
    method MarkFileAsArchivedUnboundVault(model: ArchivedPictureModel, vaultName: string, vaultRegion: string,
                                          catalogFileName: string, catalogUniqueId: string,
                                          namesIgnoreCase: bool) returns (r: Result<(), DbError>)
      requires Consistent() && !testMode
      modifies this
      ensures Consistent() && fileExists == old(fileExists) && hasSchema == old(hasSchema)
      ensures !hasSchema ==> r == Failure(NoSuchTable) && pictures == old(pictures)
      ensures hasSchema ==> vaultName in vaults && catalogUniqueId in catalogs
      ensures hasSchema && !namesIgnoreCase ==> r == Failure(InsertRejected) && pictures == old(pictures)
      ensures hasSchema && namesIgnoreCase ==>
                && r == Success(())
                && pictures == old(pictures) + [PictureRow(catalogs[catalogUniqueId].id, vaults[vaultName].id,
                                                           model.picture, model.archive)]
    {
      var vaultId := GetOrCreateVaultId(vaultName, vaultRegion);
      if vaultId.Failure? {
        return Failure(vaultId.error);
      }
      var catalogId := GetOrCreateCatalogId(catalogFileName, catalogUniqueId);
      if !namesIgnoreCase {
        return Failure(InsertRejected);
      }
      InsertPicture(catalogId.value, vaultId.value, model);
      return Success(());
    }
  }

  /** The discrepancy in the Microsoft.Data.Sqlite repository class of
      core/src/Avalanche/Repository: recording a picture on a fresh ledger
      throws at the insert, after the vault row was written, and the
      ledger still does not know the picture. */
  method UnboundVaultIdRejectsInsert(model: ArchivedPictureModel)
    returns (insert: Result<(), DbError>, vaultKnown: bool, archivedAfter: Result<bool, DbError>)
    ensures insert == Failure(InsertRejected)
    ensures vaultKnown
    ensures archivedAfter == Success(false)
  {
    var ledger := new Ledger.Legacy(null);
    insert := ledger.MarkFileAsArchivedUnboundVault(model, "Pictures", "us-east-1", "catalog.lrcat", "catalog", false);
    vaultKnown := "Pictures" in ledger.vaults;
    archivedAfter := ledger.FileIsArchived(model.picture.fileId);
  }

  /** The same request on the newest revision, which binds `$vaultId`:
      the picture is known afterwards. */
  method BoundVaultIdKeepsRecord(model: ArchivedPictureModel) returns (archivedAfter: Result<bool, DbError>)
    ensures archivedAfter == Success(true)
  {
    var ledger := new Ledger(false);
    ledger.MarkFileAsArchived(model, "Pictures", "us-east-1", "catalog.lrcat", "catalog");
    archivedAfter := ledger.FileIsArchived(model.picture.fileId);
  }

  /** Repeated lookups of one vault or catalog give one identity, distinct
      names give distinct positive identities, and the second lookup
      inserts nothing. */
  method LookupsAreStable(name: string, other: string, region: string) returns (first: int, again: int, second: int)
    requires name != other
    ensures first == again && first > 0 && second > 0 && first != second
  {
    var ledger := new Ledger(false);
    var a := ledger.GetOrCreateVaultId(name, region);
    var b := ledger.GetOrCreateVaultId(name, region);
    var c := ledger.GetOrCreateVaultId(other, region);
    first, again, second := a.value, b.value, c.value;
  }

  /** In test mode the newest revision writes nothing: vaults and catalogs
      it does not know come back as -1 and marking leaves no row. */
  method TestModeWritesNothing(model: ArchivedPictureModel) returns (vaultId: int, catalogId: int, archivedAfter: Result<bool, DbError>)
    ensures vaultId == -1 && catalogId == -1 && archivedAfter == Success(false)
  {
    var onDisk := new Ledger(false);
    var ledger := new Ledger.Reopen(true, onDisk);
    var v := ledger.GetOrCreateVaultId("Pictures", "us-east-1");
    var c := ledger.GetOrCreateCatalogId("catalog.lrcat", "catalog");
    ledger.MarkFileAsArchived(model, "Pictures", "us-east-1", "catalog.lrcat", "catalog");
    vaultId, catalogId := v.value, c.value;
    archivedAfter := ledger.FileIsArchived(model.picture.fileId);
  }

  // ---------------------------------------------------------------------
  // What the ledger gains

  /** The ledger's tables, as values. */
  datatype Snapshot = Snapshot(hasSchema: bool, vaults: map<string, VaultRow>, catalogs: map<string, CatalogRow>, pictures: seq<PictureRow>)

  function Snap(ledger: Ledger): (s: Snapshot)
    reads ledger
    ensures s.pictures == ledger.pictures && s.hasSchema == ledger.hasSchema
  {
    Snapshot(ledger.hasSchema, ledger.vaults, ledger.catalogs, ledger.pictures)
  }

  /** The archive and picture a row records. */
  function RowModels(rows: seq<PictureRow>): (m: seq<ArchivedPictureModel>)
    ensures |m| == |rows|
    ensures forall i :: 0 <= i < |rows| ==> m[i] == ArchivedPictureModel(rows[i].archive, rows[i].picture)
  {
    seq(|rows|, i requires 0 <= i < |rows| => ArchivedPictureModel(rows[i].archive, rows[i].picture))
  }

  /** The FileIds of a list of archives. */
  function StoredIds(archived: seq<ArchivedPictureModel>): (ids: set<Guid>)
    ensures forall a :: a in archived ==> a.picture.fileId in ids
  {
    set a | a in archived :: a.picture.fileId
  }

  /** `after` is `before` with one new Pictures row per archive in
      `archived`, in order, and nothing else removed; in test mode nothing
      changed at all. */
  predicate Extends(testMode: bool, before: Snapshot, after: Snapshot, archived: seq<ArchivedPictureModel>) {
    && after.hasSchema == before.hasSchema
    && (testMode ==> after == before)
    && (!testMode ==>
          && |after.pictures| == |before.pictures| + |archived|
          && after.pictures[..|before.pictures|] == before.pictures
          && RowModels(after.pictures[|before.pictures|..]) == archived)
  }

  lemma ExtendsReflexive(testMode: bool, s: Snapshot)
    ensures Extends(testMode, s, s, [])
  {
    assert s.pictures[|s.pictures|..] == [];
  }

  /** Two runs of recording, one after the other, record both lists. */
  lemma ExtendsTransitive(testMode: bool, a: Snapshot, b: Snapshot, c: Snapshot,
                          x: seq<ArchivedPictureModel>, y: seq<ArchivedPictureModel>)
    requires Extends(testMode, a, b, x) && Extends(testMode, b, c, y)
    ensures Extends(testMode, a, c, x + y)
  {
    if !testMode {
      var na, nb := |a.pictures|, |b.pictures|;
      assert c.pictures[..na] == b.pictures[..nb][..na];
      assert c.pictures[na..] == b.pictures[na..] + c.pictures[nb..];
      var l, r := b.pictures[na..], c.pictures[nb..];
      assert RowModels(l + r) == RowModels(l) + RowModels(r);
    }
  }

  /** Outside test mode the ledger then reports exactly the files it
      reported before and those of the new archives as archived. */
  lemma ExtendsArchivedIds(before: Snapshot, after: Snapshot, archived: seq<ArchivedPictureModel>)
    requires Extends(false, before, after, archived)
    ensures ArchivedIds(after.pictures) == ArchivedIds(before.pictures) + StoredIds(archived)
  {
    var n := |before.pictures|;
    var added := after.pictures[n..];
    assert after.pictures == before.pictures + added;
    forall f | f in StoredIds(archived) ensures f in ArchivedIds(after.pictures) {
      var a :| a in archived && a.picture.fileId == f;
      var i :| 0 <= i < |archived| && archived[i] == a;
      assert added[i].picture == a.picture;
      assert added[i] in after.pictures;
    }
    forall f | f in ArchivedIds(after.pictures) ensures f in ArchivedIds(before.pictures) + StoredIds(archived) {
      var row :| row in after.pictures && row.picture.fileId == f;
      if row !in before.pictures {
        var i :| 0 <= i < |added| && added[i] == row;
        assert archived[i].picture == row.picture;
      }
    }
  }
}
