/** Value types shared by the archival engine: the catalog picture, the
    archive confirmation returned by cold storage, their pairing, and the
    run result the orchestrator hands back. */
module Models {

  /** A GUID; only equality matters to the engine. */
  type Guid = nat

  /** An octet of a file or an archive. */
  newtype byte = x: int | 0 <= x < 256

  datatype Option<T> = None | Some(value: T)

  datatype Result<T, E> = Success(value: T) | Failure(error: E)

  /** One picture of the photo catalog (src/Avalanche/Models/PictureModel.cs). */
  datatype PictureModel = PictureModel(
    absolutePath: string,
    catalogRelativePath: string,
    fileName: string,
    fileId: Guid,
    imageId: Guid,
    libraryCount: int)

  /** The confirmation of one upload (Avalanche/Models/ArchiveModel.cs).
      Null strings are `None`; the timestamp is an opaque tick count. */
  datatype ArchiveModel = ArchiveModel(
    archiveId: Option<string>,
    status: int,
    location: Option<string>,
    postedTimestamp: int,
    metadata: string)

  /** What SaveImage hands back: the archive paired with the picture it stores. */
  datatype ArchivedPictureModel = ArchivedPictureModel(archive: ArchiveModel, picture: PictureModel)

  /** The outcome of a run: the pictures archived and those given up on. */
  datatype AvalancheRunResult = AvalancheRunResult(successes: seq<PictureModel>, failures: seq<PictureModel>)

  /** A run result as src/Avalanche/Runner/AvalancheRunResult.cs creates it. */
  function NewRunResult(): (r: AvalancheRunResult)
    ensures |r.successes| == 0 && |r.failures| == 0
  {
    AvalancheRunResult([], [])
  }

  function FileIds(pictures: seq<PictureModel>): (ids: set<Guid>)
    ensures forall p :: p in pictures ==> p.fileId in ids
    ensures forall f :: f in ids ==> exists p :: p in pictures && p.fileId == f
  {
    set p | p in pictures :: p.fileId
  }
}
