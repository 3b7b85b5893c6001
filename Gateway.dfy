/** The cold-storage gateway: vault-name validation, making sure the vault
    exists, and uploading one picture with its description
    (core/src/Avalanche/Glacier/IGlacierGateway.cs, and the two older
    revisions core/src/Avalanche/Glacier/GlacierGateway.cs and
    Avalanche/Glacier/GlacierGateway.cs). The storage service is an
    abstract set of vault names, a log of the requests sent to it and an
    oracle answering the uploads. */
module Glacier {
  import opened Models
  import opened Text
  import opened Archive
  import opened Progress

  /** Why a gateway call fails; each is an exception in the source. */
  datatype Fault = InvalidVaultName | MissingFile(path: string) | TransportFailure

  /** `GetTrimmedVaultName`: null, empty or whitespace-only names are
      rejected; any other name loses its surrounding whitespace and
      nothing else. */
  function GetTrimmedVaultName(vaultName: Option<string>): (r: Result<string, Fault>)
    ensures r.Failure? <==> IsNullOrWhiteSpace(vaultName)
    ensures r.Failure? ==> r.error == InvalidVaultName
    ensures r.Success? ==> r.value != [] && !IsWhiteSpace(r.value[0]) && !IsWhiteSpace(r.value[|r.value| - 1])
    ensures r.Success? ==> exists a, b :: 0 <= a <= b <= |vaultName.value| && r.value == vaultName.value[a..b]
                                          && AllWhiteSpace(vaultName.value[..a]) && AllWhiteSpace(vaultName.value[b..])
  {
    if IsNullOrWhiteSpace(vaultName) then Failure(InvalidVaultName)
    else
      TrimSlice(vaultName.value);
      TrimEmptyIffWhiteSpace(vaultName.value);
      Success(Trim(vaultName.value))
  }

  /** The older revisions trim the name again inside `VaultExists`;
      a trimmed name passes validation and trims to itself. */
  lemma TrimmedNameIsStable(vaultName: Option<string>)
    requires GetTrimmedVaultName(vaultName).Success?
    ensures GetTrimmedVaultName(Some(GetTrimmedVaultName(vaultName).value)) == GetTrimmedVaultName(vaultName)
  {
    var t := Trim(vaultName.value);
    TrimIdempotent(vaultName.value);
    TrimEmptyIffWhiteSpace(t);
  }

  /** A request sent to the storage service. */
  datatype Request =
    | ListVaults(accountId: string)
    | CreateVault(accountId: string, vaultName: string)
    | UploadArchive(accountId: string, description: string, vaultName: string, body: seq<byte>, checksum: string)

  /** The service's metadata about a response (request id and the like). */
  type ResponseMetadata = map<string, string>

  /** The fields of an upload response the gateway reads. */
  datatype UploadResponse = UploadResponse(
    archiveId: Option<string>,
    httpStatusCode: int,
    location: Option<string>,
    responseMetadata: Option<ResponseMetadata>)

  /** `new UploadArchiveResponse()`, what test mode hands back. */
  const EmptyResponse := UploadResponse(None, 0, None, None)

  /** How the service answers one upload: the progress percentages it
      reports while sending, then a response or a transport failure. */
  datatype UploadReply = Uploaded(progress: seq<int>, response: UploadResponse) | Failed(progress: seq<int>)

  /** What the gateway calls but the model does not look into: the files
      on disk, the compressor, JSON serialisation, the tree hash and the
      service's answer to the n-th upload of the gateway. */
  datatype Services = Services(
    files: FileSystem,
    compressor: Compressor,
    toJson: PictureModel -> string,
    metadataToJson: Option<ResponseMetadata> -> string,
    treeHash: seq<byte> -> string,
    uploadReply: nat -> UploadReply)

  /** `Path.Combine(picture.AbsolutePath, picture.FileName)`. */
  function PicturePath(picture: PictureModel): string {
    Combine(picture.absolutePath, picture.fileName)
  }

  /** The archive record built from an upload response. */
  function ArchiveOf(response: UploadResponse, now: int, metadataToJson: Option<ResponseMetadata> -> string): (a: ArchiveModel)
    ensures a.archiveId == response.archiveId && a.location == response.location
    ensures a.status == response.httpStatusCode && a.postedTimestamp == now
  {
    ArchiveModel(response.archiveId, response.httpStatusCode, response.location, now, metadataToJson(response.responseMetadata))
  }

  /** What one save does: its result, the requests it sends and the
      progress calls it makes. */
  datatype SaveEffect = SaveEffect(result: Result<ArchiveModel, Fault>, sent: seq<Request>, reports: seq<Update>)

  /** `SaveImage` pairs the archive with the picture it was given. */
  function Paired(r: Result<ArchiveModel, Fault>, picture: PictureModel): (p: Result<ArchivedPictureModel, Fault>)
    ensures p.Success? <==> r.Success?
    ensures p.Success? ==> p.value.archive == r.value && p.value.picture == picture
    ensures p.Failure? ==> p.error == r.error
  {
    match r
    case Success(a) => Success(ArchivedPictureModel(a, picture))
    case Failure(e) => Failure(e)
  }

  class GlacierGateway {
    const testMode: bool
    const accountId: string
    const services: Services
    const updater: ConsolePercentUpdater
    /** The vaults of the account. */
    var remoteVaults: set<string>
    /** Every request sent, in order. */
    var requests: seq<Request>
    /** Uploads sent so far; the next one is answered by
        `services.uploadReply(uploads)`. */
    var uploads: nat

    /** The newest revision's constructor. */
    constructor (testMode: bool, accountId: string, services: Services, updater: ConsolePercentUpdater, remoteVaults: set<string>)
      ensures this.testMode == testMode && this.accountId == accountId && this.services == services
      ensures this.updater == updater && this.remoteVaults == remoteVaults
      ensures requests == [] && uploads == 0
    {
      this.testMode := testMode;
      this.accountId := accountId;
      this.services := services;
      this.updater := updater;
      this.remoteVaults := remoteVaults;
      requests := [];
      uploads := 0;
    }

    /** The older revisions' constructor: no test mode, and a missing
        account id becomes "-" (the caller's own account). */
    constructor FromParameters(accountId: Option<string>, services: Services, updater: ConsolePercentUpdater, remoteVaults: set<string>)
      ensures !testMode && this.accountId == (if accountId.Some? then accountId.value else "-")
      ensures this.services == services && this.updater == updater && this.remoteVaults == remoteVaults
      ensures requests == [] && uploads == 0
    {
      testMode := false;
      this.accountId := if accountId.Some? then accountId.value else "-";
      this.services := services;
      this.updater := updater;
      this.remoteVaults := remoteVaults;
      requests := [];
      uploads := 0;
    }

    /** `AssertVaultExists`: validate and trim the name, list the vaults,
        and create the vault when no listed vault has exactly that name,
        except in test mode. */
    method AssertVaultExists(vaultName: Option<string>) returns (r: Result<(), Fault>)
      modifies this
      ensures uploads == old(uploads)
      ensures r.Failure? <==> IsNullOrWhiteSpace(vaultName)
      ensures r.Failure? ==> r.error == InvalidVaultName && requests == old(requests) && remoteVaults == old(remoteVaults)
      ensures r.Success? && (GetTrimmedVaultName(vaultName).value in old(remoteVaults) || testMode) ==>
                requests == old(requests) + [ListVaults(accountId)] && remoteVaults == old(remoteVaults)
      ensures r.Success? && GetTrimmedVaultName(vaultName).value !in old(remoteVaults) && !testMode ==>
                && requests == old(requests) + [ListVaults(accountId), CreateVault(accountId, GetTrimmedVaultName(vaultName).value)]
                && remoteVaults == old(remoteVaults) + {GetTrimmedVaultName(vaultName).value}
      ensures r.Success? && !testMode ==> GetTrimmedVaultName(vaultName).value in remoteVaults
    {
      var trimmed := GetTrimmedVaultName(vaultName);
      if trimmed.Failure? {
        return Failure(trimmed.error);
      }
      var name := trimmed.value;
      requests := requests + [ListVaults(accountId)];
      if name in remoteVaults {
        return Success(());
      }
      if !testMode {
        requests := requests + [CreateVault(accountId, name)];
        remoteVaults := remoteVaults + {name};
      }
      return Success(());
    }

    /** What saving `body` (or failing to read it) does from the current
        state: a missing file stops everything; otherwise progress 0 is
        reported, then test mode answers with an empty response and
        sends nothing, an invalid vault name fails before sending, and
        otherwise one upload of the body with its tree hash is sent and
        the service's answer decides the result. */
    function Effect(body: Result<seq<byte>, IoError>, filename: string, json: string, vaultName: Option<string>, now: int): (e: SaveEffect)
      reads this
      ensures |e.sent| <= 1
      ensures e.sent != [] ==> e.sent[0].UploadArchive? && e.sent[0].checksum == services.treeHash(e.sent[0].body)
      ensures body.Failure? <==> e.reports == []
      ensures e.reports != [] ==> e.reports[0] == Update(filename, 0)
    {
      if body.Failure? then SaveEffect(Failure(MissingFile(filename)), [], [])
      else if testMode then SaveEffect(Success(ArchiveOf(EmptyResponse, now, services.metadataToJson)), [], [Update(filename, 0)])
      else if IsNullOrWhiteSpace(vaultName) then SaveEffect(Failure(InvalidVaultName), [], [Update(filename, 0)])
      else
        var reply := services.uploadReply(uploads);
        var request := UploadArchive(accountId, json, GetTrimmedVaultName(vaultName).value, body.value, services.treeHash(body.value));
        var reports := [Update(filename, 0)] + ProgressUpdates(filename, reply.progress);
        match reply
        case Uploaded(_, response) => SaveEffect(Success(ArchiveOf(response, now, services.metadataToJson)), [request], reports)
        case Failed(_) => SaveEffect(Failure(TransportFailure), [request], reports)
    }

    /** The gateway and the progress reporter moved by effect `e`. */
    twostate predicate Applied(e: SaveEffect)
      reads this, updater
    {
      && requests == old(requests) + e.sent
      && uploads == old(uploads) + |e.sent|
      && remoteVaults == old(remoteVaults)
      && updater.lines == old(updater.lines) + Printed(old(updater.lastUpdateAmount), e.reports)
      && updater.lastUpdateAmount == LastAfter(old(updater.lastUpdateAmount), e.reports)
    }

    /** The newest revision's `SaveImage`: archive the picture's file with
        its JSON description and pair the record with the picture. */
    method SaveImage(picture: PictureModel, vaultName: Option<string>, now: int) returns (r: Result<ArchivedPictureModel, Fault>)
      modifies this, updater
      ensures r == Paired(old(Effect(ArchiveBytes(services.files, services.compressor, PicturePath(picture), services.toJson(picture)),
                                     PicturePath(picture), services.toJson(picture), vaultName, now)).result, picture)
      ensures Applied(old(Effect(ArchiveBytes(services.files, services.compressor, PicturePath(picture), services.toJson(picture)),
                                 PicturePath(picture), services.toJson(picture), vaultName, now)))
    {
      var archive := SaveFileWithMetadata(PicturePath(picture), services.toJson(picture), vaultName, now);
      r := Paired(archive, picture);
    }

    /** `SaveFileWithMetadata`: build the archive, hash it, rewind it,
        report 0%, upload it. */
    method SaveFileWithMetadata(filename: string, json: string, vaultName: Option<string>, now: int) returns (r: Result<ArchiveModel, Fault>)
      modifies this, updater
      ensures r == old(Effect(ArchiveBytes(services.files, services.compressor, filename, json), filename, json, vaultName, now)).result
      ensures Applied(old(Effect(ArchiveBytes(services.files, services.compressor, filename, json), filename, json, vaultName, now)))
    {
      var fileStream := GetFileStream(services.files, services.compressor, filename, json);
      if fileStream.Failure? {
        return Failure(MissingFile(filename));
      }
      r := HashAndUpload(fileStream.value, filename, json, vaultName, now);
    }

    /** The older revisions' `SaveImage(picture, vaultName, compress)`. */
    method SaveImageFromDictionary(picture: PictureModel, vaultName: Option<string>, compress: bool, now: int)
      returns (r: Result<ArchivedPictureModel, Fault>)
      modifies this, updater
      ensures r == Paired(old(Effect(DictionaryArchiveBytes(services.files, services.compressor, PicturePath(picture), compress, services.toJson(picture)),
                                     PicturePath(picture), services.toJson(picture), vaultName, now)).result, picture)
      ensures Applied(old(Effect(DictionaryArchiveBytes(services.files, services.compressor, PicturePath(picture), compress, services.toJson(picture)),
                                 PicturePath(picture), services.toJson(picture), vaultName, now)))
    {
      var archive := SaveFile(PicturePath(picture), services.toJson(picture), vaultName, compress, now);
      r := Paired(archive, picture);
    }

    /** The older revisions' `SaveFile`. */
    method SaveFile(filename: string, json: string, vaultName: Option<string>, compress: bool, now: int) returns (r: Result<ArchiveModel, Fault>)
      modifies this, updater
      ensures r == old(Effect(DictionaryArchiveBytes(services.files, services.compressor, filename, compress, json), filename, json, vaultName, now)).result
      ensures Applied(old(Effect(DictionaryArchiveBytes(services.files, services.compressor, filename, compress, json), filename, json, vaultName, now)))
    {
      var fileStream := GetFileStreamFromDictionary(services.files, services.compressor, filename, compress, json, MetadataFilename);
      if fileStream.Failure? {
        return Failure(MissingFile(filename));
      }
      r := HashAndUpload(fileStream.value, filename, json, vaultName, now);
    }

    /** The steps both revisions take once the stream is open: hash it
        (which reads it to the end), rewind it, report 0%, upload it, and
        build the archive record. */
    method HashAndUpload(fileStream: MemoryStream, filename: string, json: string, vaultName: Option<string>, now: int)
      returns (r: Result<ArchiveModel, Fault>)
      requires fileStream.Valid() && fileStream.position == 0
      modifies this, updater, fileStream
      ensures r == old(Effect(Success(fileStream.data), filename, json, vaultName, now)).result
      ensures Applied(old(Effect(Success(fileStream.data), filename, json, vaultName, now)))
    {
      ghost var e := Effect(Success(fileStream.data), filename, json, vaultName, now);
      ghost var last0 := updater.lastUpdateAmount;
      ghost var lines0 := updater.lines;
      ghost var uploads0 := uploads;
      EffectReports(this, Success(fileStream.data), filename, json, vaultName, now);
      var hash := HashAndRewind(fileStream, filename);
      ghost var zero := [Update(filename, 0)];
      var result := DoGlacierUpload(json, vaultName, fileStream, hash, filename);
      if !testMode && !IsNullOrWhiteSpace(vaultName) {
        ghost var progress := ProgressUpdates(filename, services.uploadReply(uploads0).progress);
        PrintedAppend(last0, zero, progress);
        ghost var before := Printed(last0, zero);
        ghost var during := Printed(LastAfter(last0, zero), progress);
        assert e.reports == zero + progress;
        AppendAssociative(lines0, before, during);
      }
      if result.Failure? {
        return Failure(result.error);
      }
      r := Success(ArchiveOf(result.value, now, services.metadataToJson));
    }

    /** Hash the stream (reading it to the end), rewind it, and report 0%:
        the stream holds the same bytes from the start again. */
    method HashAndRewind(fileStream: MemoryStream, filename: string) returns (hash: string)
      requires fileStream.Valid() && fileStream.position == 0
      modifies updater, fileStream
      ensures fileStream.Valid() && fileStream.data == old(fileStream.data) && fileStream.position == 0
      ensures fileStream.data[fileStream.position..] == fileStream.data
      ensures hash == services.treeHash(fileStream.data)
      ensures updater.lines == old(updater.lines) + Printed(old(updater.lastUpdateAmount), [Update(filename, 0)])
      ensures updater.lastUpdateAmount == LastAfter(old(updater.lastUpdateAmount), [Update(filename, 0)])
    {
      var hashed := fileStream.ReadToEnd();
      hash := services.treeHash(hashed);
      fileStream.Seek(0);
      ghost var last0 := updater.lastUpdateAmount;
      updater.UpdatePercentage(filename, 0);
      PrintedSnoc(last0, [], Update(filename, 0));
      assert [] + [Update(filename, 0)] == [Update(filename, 0)];
      assert fileStream.data[0..] == fileStream.data;
    }

    /** `DoGlacierUpload`: in test mode, an empty response and no request;
        otherwise one upload request whose body is what is left of the
        stream, reporting the service's progress as it goes. */
    method DoGlacierUpload(json: string, vaultName: Option<string>, fileStream: MemoryStream, hash: string, filename: string)
      returns (r: Result<UploadResponse, Fault>)
      requires fileStream.Valid()
      modifies this, updater, fileStream
      ensures remoteVaults == old(remoteVaults)
      ensures testMode ==> r == Success(EmptyResponse) && requests == old(requests) && uploads == old(uploads) && unchanged(updater)
      ensures !testMode && IsNullOrWhiteSpace(vaultName) ==>
                r == Failure(InvalidVaultName) && requests == old(requests) && uploads == old(uploads) && unchanged(updater)
      ensures !testMode && !IsNullOrWhiteSpace(vaultName) ==>
                && requests == old(requests) + [UploadArchive(accountId, json, GetTrimmedVaultName(vaultName).value,
                                                              old(fileStream.data[fileStream.position..]), hash)]
                && uploads == old(uploads) + 1
                && updater.lines == old(updater.lines) + Printed(old(updater.lastUpdateAmount),
                                                                 ProgressUpdates(filename, services.uploadReply(old(uploads)).progress))
                && updater.lastUpdateAmount == LastAfter(old(updater.lastUpdateAmount),
                                                         ProgressUpdates(filename, services.uploadReply(old(uploads)).progress))
                && r == (if services.uploadReply(old(uploads)).Uploaded? then Success(services.uploadReply(old(uploads)).response)
                         else Failure(TransportFailure))
    {
      if testMode {
        return Success(EmptyResponse);
      }
      var trimmed := GetTrimmedVaultName(vaultName);
      if trimmed.Failure? {
        return Failure(trimmed.error);
      }
      var body := fileStream.ReadToEnd();
      var reply := services.uploadReply(uploads);
      requests := requests + [UploadArchive(accountId, json, trimmed.value, body, hash)];
      uploads := uploads + 1;
      updater.ReportAll(filename, reply.progress);
      if reply.Failed? {
        return Failure(TransportFailure);
      }
      return Success(reply.response);
    }
  }

  /** A name already listed, or test mode, never creates a vault; a new
      name outside test mode creates it once, and a second assertion of
      the same name finds it and creates nothing more. */
  method AssertTwiceCreatesOnce(testMode: bool, vaultName: string, services: Services) returns (sent: seq<Request>)
    requires !AllWhiteSpace(vaultName)
    ensures !testMode ==> sent == [ListVaults("-"), CreateVault("-", Trim(vaultName)), ListVaults("-")]
    ensures testMode ==> sent == [ListVaults("-"), ListVaults("-")]
  {
    var updater := new ConsolePercentUpdater();
    var gateway := new GlacierGateway(testMode, "-", services, updater, {});
    var first := gateway.AssertVaultExists(Some(vaultName));
    var second := gateway.AssertVaultExists(Some(vaultName));
    sent := gateway.requests;
  }

  /** In test mode a save sends nothing: it succeeds exactly when the
      file can be read, with the empty response's record. */
  lemma TestModeSendsNothing(g: GlacierGateway, body: Result<seq<byte>, IoError>, filename: string, json: string,
                             vaultName: Option<string>, now: int)
    requires g.testMode
    ensures g.Effect(body, filename, json, vaultName, now).sent == []
    ensures g.Effect(body, filename, json, vaultName, now).result.Success? <==> body.Success?
    ensures body.Success? ==>
              g.Effect(body, filename, json, vaultName, now).result.value == ArchiveOf(EmptyResponse, now, g.services.metadataToJson)
  {
  }

  /** Outside test mode a save with a readable file and a valid vault
      name sends exactly one upload, of exactly the archive bytes, with
      their tree hash, to the trimmed vault name; and it succeeds exactly
      when the service answers with a response. */
  lemma UploadCarriesBodyAndHash(g: GlacierGateway, body: seq<byte>, filename: string, json: string,
                                 vaultName: Option<string>, now: int)
    requires !g.testMode && !IsNullOrWhiteSpace(vaultName)
    ensures g.Effect(Success(body), filename, json, vaultName, now).sent ==
              [UploadArchive(g.accountId, json, GetTrimmedVaultName(vaultName).value, body, g.services.treeHash(body))]
    ensures g.Effect(Success(body), filename, json, vaultName, now).result.Success? <==> g.services.uploadReply(g.uploads).Uploaded?
  {
  }

  /** A save whose file is missing or whose vault name is invalid sends
      nothing and fails. */
  lemma InvalidSaveSendsNothing(g: GlacierGateway, body: Result<seq<byte>, IoError>, filename: string, json: string,
                                vaultName: Option<string>, now: int)
    requires body.Failure? || (!g.testMode && IsNullOrWhiteSpace(vaultName))
    ensures g.Effect(body, filename, json, vaultName, now).sent == []
    ensures g.Effect(body, filename, json, vaultName, now).result.Failure?
  {
  }

  lemma AppendAssociative<T>(a: seq<T>, b: seq<T>, c: seq<T>)
    ensures (a + b) + c == a + (b + c)
  {
  }

  /** The progress calls of a save: none when the file is missing, then
      0%, then the service's percentages when an upload is sent. */
  lemma EffectReports(g: GlacierGateway, body: Result<seq<byte>, IoError>, filename: string, json: string,
                      vaultName: Option<string>, now: int)
    ensures g.Effect(body, filename, json, vaultName, now).reports ==
              if body.Failure? then []
              else if g.testMode || IsNullOrWhiteSpace(vaultName) then [Update(filename, 0)]
              else [Update(filename, 0)] + ProgressUpdates(filename, g.services.uploadReply(g.uploads).progress)
  {
  }

  /** With a fresh progress reporter and a service reporting nondecreasing
      percentages from 0 to 100, one save prints at most eleven lines,
      the first of them for 0%. */
  lemma OneSavePrintsAtMostElevenLines(g: GlacierGateway, body: Result<seq<byte>, IoError>, filename: string, json: string,
                                       vaultName: Option<string>, now: int)
    requires forall i, j :: 0 <= i < j < |g.services.uploadReply(g.uploads).progress| ==>
               g.services.uploadReply(g.uploads).progress[i] <= g.services.uploadReply(g.uploads).progress[j]
    requires forall i :: 0 <= i < |g.services.uploadReply(g.uploads).progress| ==>
               0 <= g.services.uploadReply(g.uploads).progress[i] <= 100
    ensures |Printed(-1, g.Effect(body, filename, json, vaultName, now).reports)| <= 11
    ensures body.Success? ==>
              Printed(-1, g.Effect(body, filename, json, vaultName, now).reports) != []
              && Printed(-1, g.Effect(body, filename, json, vaultName, now).reports)[0] == ProgressLine(filename, 0)
  {
    EffectReports(g, body, filename, json, vaultName, now);
    UploadPrintsAtMostEleven(filename, g.services.uploadReply(g.uploads).progress);
    UploadPrintsAtMostEleven(filename, []);
    assert ProgressUpdates(filename, []) == [];
    assert [Update(filename, 0)] + [] == [Update(filename, 0)];
  }
}
