/**
 * The public node: it registers dataset definitions and datasets, keeps the
 * uploaded files under /data/mobility/<definition id>, serves downloads and
 * visitor detection from them, and forwards both to the archive node for
 * definitions flagged internal.
 */
module Public {
  import opened Wrappers
  import opened JavaText
  import opened JavaNumbers
  import opened PathMatching
  import opened UploadRules
  import opened Storage
  import opened Federation
  import opened Detection

  /** The definition the web upload registers: a random six-digit name, no internal flag, no server. */
  function UploadDefinition(randomNumber: int): (d: Definition)
    requires 0 <= randomNumber < 999999
    ensures d.internal.None? && d.server.None?
    ensures |d.name| == 18 && d.name[..12] == "dash-upload-" && AllDigits(d.name[12..])
    ensures DigitsValue(d.name[12..]) == randomNumber
  {
    var digits := RandomNumberString(randomNumber);
    var d := Definition("dash-upload-" + digits, None, None);
    assert d.name[12..] == digits;
    d
  }

  class PublicNode {
    const maxFileSize: int
    var definitions: map<string, Definition>
    var datasets: map<string, Dataset>
    var directories: set<string>
    var files: seq<StoredFile>

    /** The store invariant every endpoint keeps: files sit in created directories under distinct names; datasets name known definitions. */
    ghost predicate Valid()
      reads this
    {
      && UniqueSlots(files)
      && (forall f :: f in files ==> f.directory in directories)
      && (forall id :: id in datasets ==> datasets[id].definitionId in definitions)
    }

    constructor(maxFileSize: int)
      ensures Valid()
      ensures this.maxFileSize == maxFileSize
      ensures definitions == map[] && datasets == map[] && directories == {} && files == []
    {
      this.maxFileSize := maxFileSize;
      definitions, datasets, directories, files := map[], map[], {}, [];
    }

    /** DatasetDefinitionBusiness.save followed by mkdirs of the definition's directory. */
    method CreateDefinition(id: string, d: Definition)
      requires Valid()
      modifies this
      ensures Valid()
      ensures definitions == old(definitions)[id := d] && directories == old(directories) + {DirectoryFor(id)}
      ensures datasets == old(datasets) && files == old(files)
    {
      definitions := definitions[id := d];
      directories := directories + {DirectoryFor(id)};
    }

    /** FileUploadUtil.saveFile into an existing directory. */
    method StoreFile(f: StoredFile)
      requires Valid() && f.directory in directories
      modifies this
      ensures Valid()
      ensures files == Save(old(files), f)
      ensures definitions == old(definitions) && directories == old(directories) && datasets == old(datasets)
    {
      SaveKeepsUnique(files, f);
      files := Save(files, f);
    }

    /** DatasetBusiness.save of a dataset of a known definition. */
    method RegisterDataset(d: Dataset)
      requires Valid() && d.definitionId in definitions
      modifies this
      ensures Valid()
      ensures datasets == old(datasets)[d.id := d]
      ensures definitions == old(definitions) && directories == old(directories) && files == old(files)
    {
      datasets := datasets[d.id := d];
    }

    /** Store an upload as dataset-<id>-<date>.csv; both lookups then find it when the id is new to the directory. */
    method StoreDatasetFile(directory: string, datasetId: string, date: string, lines: seq<string>)
      returns (name: string)
      requires Valid() && directory in directories
      modifies this
      ensures Valid()
      ensures name == DatasetFileName(datasetId, date)
      ensures files == Save(old(files), StoredFile(directory, name, lines))
      ensures IdUnused(old(files), directory, datasetId) ==>
        && FileWithId(files, directory, datasetId) == Some(StoredFile(directory, name, lines))
        && FileMatchingPattern(files, directory, datasetId) == Some(StoredFile(directory, name, lines))
      ensures definitions == old(definitions) && directories == old(directories) && datasets == old(datasets)
    {
      name := DatasetFileName(datasetId, date);
      if IdUnused(files, directory, datasetId) {
        UploadedFileFound(files, directory, datasetId, date, lines);
      }
      StoreFile(StoredFile(directory, name, lines));
    }

    /**
     * The part both uploads share once the definition, its directory and the
     * date exist: the file is stored as dataset-<id>-<date>.csv and, once it
     * is read back, a dataset with one data point per line after the header
     * is registered.
     */
    method Ingest(lines: seq<string>, definitionId: string, datasetId: string, date: string,
                  resolution: Option<string>, k: int, faults: Faults)
      returns (stored: Option<string>, registered: bool)
      requires Valid() && definitionId in definitions && DirectoryFor(definitionId) in directories
      modifies this
      ensures Valid()
      ensures definitions == old(definitions) && directories == old(directories)
      ensures stored.Some? <==> !faults.saveFails
      ensures registered <==> stored.Some? && !faults.readBackFails
      ensures stored.None? ==> files == old(files)
      ensures stored.Some? ==>
        && stored.value == DatasetFileName(datasetId, date)
        && files == Save(old(files), StoredFile(DirectoryFor(definitionId), stored.value, lines))
      ensures stored.Some? && IdUnused(old(files), DirectoryFor(definitionId), datasetId) ==>
        && FileWithId(files, DirectoryFor(definitionId), datasetId) == Some(StoredFile(DirectoryFor(definitionId), stored.value, lines))
        && FileMatchingPattern(files, DirectoryFor(definitionId), datasetId) == Some(StoredFile(DirectoryFor(definitionId), stored.value, lines))
      ensures !registered ==> datasets == old(datasets)
      ensures registered ==>
        datasets == old(datasets)[datasetId := Dataset(datasetId, definitionId, date, date, resolution, k, |lines| - 1)]
    {
      if faults.saveFails {
        return None, false;
      }
      var name := StoreDatasetFile(DirectoryFor(definitionId), datasetId, date, lines);
      stored := Some(name);
      if faults.readBackFails {
        return stored, false;
      }
      RegisterDataset(Dataset(datasetId, definitionId, date, date, resolution, k, DataPoints(lines)));
      registered := true;
    }

    /**
     * POST /mobility/upload. The checks run first and a failing one changes
     * nothing; then a definition and its directory are created; the date comes
     * from first_time_seen, or start_time when that column is absent; a date
     * that is not strict answers 400, no date at all 500.
     */
    method Upload(k: string, fileName: Option<string>, size: int, lines: seq<string>,
                  newDefinitionId: string, randomNumber: int, datasetId: string, faults: Faults)
      returns (status: Status, stored: Option<string>)
      requires Valid()
      requires 0 <= randomNumber < 999999
      modifies this
      ensures Valid()
      ensures PublicGate(k, fileName, size, maxFileSize) != Pass ==>
        && status == GateStatus(PublicGate(k, fileName, size, maxFileSize)) && stored.None?
        && definitions == old(definitions) && datasets == old(datasets)
        && directories == old(directories) && files == old(files)
      ensures PublicGate(k, fileName, size, maxFileSize) == Pass ==>
        && definitions == old(definitions)[newDefinitionId := UploadDefinition(randomNumber)]
        && directories == old(directories) + {DirectoryFor(newDefinitionId)}
      ensures status == BadRequest <==>
        || PublicGate(k, fileName, size, maxFileSize).Reject?
        || (PublicGate(k, fileName, size, maxFileSize) == Pass && !faults.permissionFails &&
            DetectDate(lines, true) == BadDate)
      ensures stored.Some? <==>
        PublicGate(k, fileName, size, maxFileSize) == Pass && !faults.permissionFails &&
        DetectDate(lines, true).Found? && !faults.saveFails
      ensures status == Ok <==> stored.Some? && !faults.readBackFails
      ensures status == Ok || status == BadRequest || status == ServerError
      ensures stored.None? ==> files == old(files)
      ensures stored.Some? ==>
        && stored.value == DatasetFileName(datasetId, DetectDate(lines, true).date)
        && files == Save(old(files), StoredFile(DirectoryFor(newDefinitionId), stored.value, lines))
      ensures stored.Some? && IdUnused(old(files), DirectoryFor(newDefinitionId), datasetId) ==>
        && FileWithId(files, DirectoryFor(newDefinitionId), datasetId) == Some(StoredFile(DirectoryFor(newDefinitionId), stored.value, lines))
        && FileMatchingPattern(files, DirectoryFor(newDefinitionId), datasetId) == Some(StoredFile(DirectoryFor(newDefinitionId), stored.value, lines))
      ensures status != Ok ==> datasets == old(datasets)
      ensures status == Ok ==>
        var date := DetectDate(lines, true).date;
        && datasets == old(datasets)[datasetId := Dataset(datasetId, newDefinitionId, date, date, Some(Daily), ParseInt(k).value, |lines| - 1)]
        && IsStrictDate(date) && 0 <= datasets[datasetId].k <= MaxK && datasets[datasetId].dataPoints >= 1
    {
      var gate := PublicGate(k, fileName, size, maxFileSize);
      if gate != Pass {
        return GateStatus(gate), None;
      }
      CreateDefinition(newDefinitionId, UploadDefinition(randomNumber));
      if faults.permissionFails {
        return ServerError, None;
      }
      var probe := DetectDate(lines, true);
      if probe == BadDate {
        return BadRequest, None;
      }
      if !probe.Found? {
        return ServerError, None;
      }
      var registered;
      stored, registered := Ingest(lines, newDefinitionId, datasetId, probe.date, Some(Daily), ParseInt(k).value, faults);
      status := if registered then Ok else ServerError;
    }

    /**
     * POST /mobility/anonymizationJob. The name and k come from the request's
     * definition; only first_time_seen is searched and a bad date is a server
     * error. A successful job answers with the stored file's text.
     */
    method AnonymizeExternalApi(name: Option<string>, k: Option<int>, resolution: Option<string>,
                                fileName: Option<string>, size: int, lines: seq<string>,
                                newDefinitionId: string, datasetId: string, faults: Faults)
      returns (status: Status, body: Option<string>)
      requires Valid()
      modifies this
      ensures Valid()
      ensures status == Ok <==> body.Some?
      ensures ExternalGate(name, k, fileName, size, maxFileSize) != Pass ==>
        && status == GateStatus(ExternalGate(name, k, fileName, size, maxFileSize))
        && definitions == old(definitions) && datasets == old(datasets)
        && directories == old(directories) && files == old(files)
      ensures ExternalGate(name, k, fileName, size, maxFileSize) == Pass ==>
        && definitions == old(definitions)[newDefinitionId := Definition(name.value, None, None)]
        && directories == old(directories) + {DirectoryFor(newDefinitionId)}
      ensures status == BadRequest <==> ExternalGate(name, k, fileName, size, maxFileSize).Reject?
      ensures status == Ok || status == BadRequest || status == ServerError
      ensures status == Ok <==>
        ExternalGate(name, k, fileName, size, maxFileSize) == Pass && !faults.permissionFails &&
        DetectDate(lines, false).Found? && !faults.saveFails && !faults.readBackFails
      ensures (ExternalGate(name, k, fileName, size, maxFileSize) == Pass && !faults.permissionFails &&
               DetectDate(lines, false).Found? && !faults.saveFails) ==>
        files == Save(old(files), StoredFile(DirectoryFor(newDefinitionId), DatasetFileName(datasetId, DetectDate(lines, false).date), lines))
      ensures !(ExternalGate(name, k, fileName, size, maxFileSize) == Pass && !faults.permissionFails &&
                DetectDate(lines, false).Found? && !faults.saveFails) ==>
        files == old(files)
      ensures status != Ok ==> datasets == old(datasets)
      ensures status == Ok ==>
        var date := DetectDate(lines, false).date;
        && datasets == old(datasets)[datasetId := Dataset(datasetId, newDefinitionId, date, date, resolution, k.value, |lines| - 1)]
        && body == Some(Emit(lines))
    {
      var gate := ExternalGate(name, k, fileName, size, maxFileSize);
      if gate != Pass {
        return GateStatus(gate), None;
      }
      CreateDefinition(newDefinitionId, Definition(name.value, None, None));
      if faults.permissionFails {
        return ServerError, None;
      }
      var probe := DetectDate(lines, false);
      if !probe.Found? {
        return ServerError, None;
      }
      var stored, registered := Ingest(lines, newDefinitionId, datasetId, probe.date, resolution, k.value, faults);
      if !registered {
        return ServerError, None;
      }
      var text := Render(lines);
      return Ok, Some(text);
    }

    /**
     * GET /mobility/download. Unknown datasets or definitions answer 204; a
     * local definition sends the first file matching *dataset-<id>-*; an
     * internal one relays the archive's download, whose failure is a 500.
     */
    method Download(datasetId: string, remote: Option<string>)
      returns (status: Status, body: Option<string>, sent: Option<DownloadRequest>)
      ensures status == Ok <==> body.Some?
      ensures (datasetId !in datasets || datasets[datasetId].definitionId !in definitions) ==>
        status == NoContent && sent.None?
      ensures datasetId in datasets && datasets[datasetId].definitionId in definitions ==>
        var definitionId := datasets[datasetId].definitionId;
        match RouteFor(definitions[definitionId])
        case Local =>
          && sent.None?
          && (match FileMatchingPattern(files, DirectoryFor(definitionId), datasetId)
              case None => status == NoContent
              case Some(f) => body == Some(Emit(f.lines)))
        case NoServer => status == ServerError && sent.None?
        case NoDomain => status == NoContent && sent.None?
        case Remote(domain) =>
          && sent == Some(DownloadRequestFor(domain, definitionId, datasetId))
          && (remote.None? ==> status == ServerError)
          && (remote.Some? ==> body == remote)
    {
      if datasetId !in datasets || datasets[datasetId].definitionId !in definitions {
        return NoContent, None, None;
      }
      var definitionId := datasets[datasetId].definitionId;
      var route := RouteFor(definitions[definitionId]);
      match route {
        case Local =>
          var f := FileMatchingPattern(files, DirectoryFor(definitionId), datasetId);
          if f.None? {
            return NoContent, None, None;
          }
          var text := Render(f.value.lines);
          return Ok, Some(text), None;
        case NoServer =>
          return ServerError, None, None;
        case NoDomain =>
          return NoContent, None, None;
        case Remote(domain) =>
          sent := Some(DownloadRequestFor(domain, definitionId, datasetId));
          if remote.None? {
            return ServerError, None, sent;
          }
          return Ok, remote, sent;
      }
    }

    /**
     * GET /mobility/visitorDetection. A query holding 0 is refused before any
     * lookup; a local definition counts, in the first file naming the dataset,
     * the visitors whose path contains the query as a contiguous run; an
     * internal one asks the archive node and relays its count.
     */
    method FindMeHere(query: seq<int>, datasetId: string, reply: Reply)
      returns (status: Status, count: Option<int>, sent: Option<DetectionRequest>)
      ensures status == Ok <==> count.Some?
      ensures status == BadRequest <==> 0 in query
      ensures status == (if 0 in query then BadRequest else if count.Some? then Ok else ServerError)
      ensures 0 in query ==> sent.None?
      ensures 0 !in query && (datasetId !in datasets || datasets[datasetId].definitionId !in definitions) ==>
        status == ServerError && sent.None?
      ensures 0 !in query && datasetId in datasets && datasets[datasetId].definitionId in definitions ==>
        var definitionId := datasets[datasetId].definitionId;
        match RouteFor(definitions[definitionId])
        case Local => sent.None? && count == LocalDetection(files, definitionId, datasetId, query)
        case Remote(domain) =>
          sent == Some(DetectionRequestFor(domain, definitionId, datasetId, query)) && count == RelayCount(reply)
        case _ => sent.None? && count.None?
    {
      if 0 in query {
        return BadRequest, None, None;
      }
      if datasetId !in datasets || datasets[datasetId].definitionId !in definitions {
        return ServerError, None, None;
      }
      var definitionId := datasets[datasetId].definitionId;
      var route := RouteFor(definitions[definitionId]);
      match route {
        case Local =>
          var f := FileWithId(files, DirectoryFor(definitionId), datasetId);
          if f.None? {
            return ServerError, None, None;
          }
          var n := CountInFile(f.value.lines, query, Contiguous);
          return Ok, Some(n), None;
        case Remote(domain) =>
          sent := Some(DetectionRequestFor(domain, definitionId, datasetId, query));
          count := RelayCount(reply);
          status := if count.Some? then Ok else ServerError;
        case NoServer =>
          return ServerError, None, None;
        case NoDomain =>
          return ServerError, None, None;
      }
    }
  }
}
