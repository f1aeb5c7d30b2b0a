/**
 * The archive node: it keeps uploaded files for existing definitions,
 * registers each one with the public node, deletes the file again when that
 * registration is refused or its answer cannot be read, and answers the
 * public node's download and visitor-detection requests.
 */
module Archive {
  import opened Wrappers
  import opened JavaText
  import opened PathMatching
  import opened LocationIds
  import opened UploadRules
  import opened Storage
  import opened Detection

  /** The registration sent to the public node; k travels as the string received. */
  datatype RegistrationRequest = RegistrationRequest(
    id: string, datasetDefinitionId: string, startDate: string, endDate: string,
    resolution: string, k: string, dataPoints: int)

  /** What the registration call produced. */
  datatype Registration =
    | Registered(datasetId: string)  // the answer's "data" reads back as a dataset
    | ClientError                    // a 4xx answer
    | Unreadable                     // the answer's "data" cannot be read as a dataset
    | NoBody                         // an empty answer
    | NoDataset                      // "data" reads back as null
    | OtherFailure                   // a 5xx answer, a failed connection, or an answer without "data"

  /** The failures the endpoint catches and answers by deleting the stored file. */
  predicate Compensated(r: Registration)
  {
    r == ClientError || r == Unreadable
  }

  class ArchiveNode {
    var directories: set<string>
    var files: seq<StoredFile>

    /** The store invariant every endpoint keeps: files sit in created directories under distinct names. */
    ghost predicate Valid()
      reads this
    {
      UniqueSlots(files) && forall f :: f in files ==> f.directory in directories
    }

    constructor()
      ensures Valid() && directories == {} && files == []
    {
      directories, files := {}, [];
    }

    method CreateDirectory(directory: string)
      requires Valid()
      modifies this
      ensures Valid()
      ensures directories == old(directories) + {directory} && files == old(files)
    {
      directories := directories + {directory};
    }

    method StoreFile(f: StoredFile)
      requires Valid() && f.directory in directories
      modifies this
      ensures Valid()
      ensures files == Save(old(files), f) && directories == old(directories)
    {
      SaveKeepsUnique(files, f);
      files := Save(files, f);
    }

    method DeleteFile(directory: string, name: string)
      requires Valid()
      modifies this
      ensures Valid()
      ensures files == Remove(old(files), directory, name) && directories == old(directories)
    {
      RemoveKeepsUnique(files, directory, name);
      RemoveMembers(files, directory, name);
      files := Remove(files, directory, name);
    }

    /**
     * Store the file of an upload whose date was found, then register it;
     * a refused or unreadable registration deletes the file again.
     */
    method StoreAndRegister(definitionId: string, k: string, lines: seq<string>, datasetId: string, date: string,
                            faults: Faults, registration: Registration)
      returns (status: Status, request: Option<RegistrationRequest>, stored: Option<string>)
      requires Valid() && DirectoryFor(definitionId) in directories
      modifies this
      ensures Valid() && directories == old(directories)
      ensures stored.Some? <==> !faults.saveFails
      ensures request.Some? <==> stored.Some? && !faults.readBackFails
      ensures request.Some? ==>
        request.value == RegistrationRequest(datasetId, definitionId, date, date, Daily, k, |lines| - 1)
      ensures status == Ok <==> request.Some? && registration.Registered?
      ensures status != Ok ==> status == ServerError
      ensures stored.None? ==> files == old(files)
      ensures stored.Some? ==> stored.value == DatasetFileName(datasetId, date)
      ensures stored.Some? && !(request.Some? && Compensated(registration)) ==>
        files == Save(old(files), StoredFile(DirectoryFor(definitionId), stored.value, lines))
      ensures stored.Some? && request.Some? && Compensated(registration) ==>
        files == Remove(Save(old(files), StoredFile(DirectoryFor(definitionId), stored.value, lines)),
                        DirectoryFor(definitionId), stored.value)
    {
      if faults.saveFails {
        return ServerError, None, None;
      }
      var directory := DirectoryFor(definitionId);
      var name := DatasetFileName(datasetId, date);
      StoreFile(StoredFile(directory, name, lines));
      stored := Some(name);
      if faults.readBackFails {
        return ServerError, None, stored;
      }
      request := Some(RegistrationRequest(datasetId, definitionId, date, date, Daily, k, DataPoints(lines)));
      if registration.Registered? {
        return Ok, request, stored;
      }
      if Compensated(registration) {
        DeleteFile(directory, name);
      }
      status := ServerError;
    }

    /**
     * POST /mobility/upload on the archive: k need only be numeric and the
     * name end in ".csv"; the date must come from first_time_seen; a date that
     * is not strict answers 400, no date 500, and only a found date leads to a
     * stored file and a registration request.
     */
    method UploadInternal(definitionId: string, k: string, fileName: Option<string>, lines: seq<string>,
                          datasetId: string, faults: Faults, registration: Registration)
      returns (status: Status, request: Option<RegistrationRequest>, stored: Option<string>)
      requires Valid()
      modifies this
      ensures Valid()
      ensures ArchiveGate(k, fileName) != Pass ==>
        && status == GateStatus(ArchiveGate(k, fileName)) && request.None? && stored.None?
        && directories == old(directories) && files == old(files)
      ensures ArchiveGate(k, fileName) == Pass ==> directories == old(directories) + {DirectoryFor(definitionId)}
      ensures status == BadRequest <==>
        || ArchiveGate(k, fileName).Reject?
        || (ArchiveGate(k, fileName) == Pass && !faults.permissionFails && DetectDate(lines, false) == BadDate)
      ensures stored.Some? <==>
        ArchiveGate(k, fileName) == Pass && !faults.permissionFails &&
        DetectDate(lines, false).Found? && !faults.saveFails
      ensures request.Some? <==> stored.Some? && !faults.readBackFails
      ensures request.Some? ==>
        var date := DetectDate(lines, false).date;
        request.value == RegistrationRequest(datasetId, definitionId, date, date, Daily, k, |lines| - 1)
      ensures status == Ok <==> request.Some? && registration.Registered?
      ensures status == Ok || status == BadRequest || status == ServerError
      ensures stored.None? ==> files == old(files)
      ensures stored.Some? ==> stored.value == DatasetFileName(datasetId, DetectDate(lines, false).date)
      ensures stored.Some? && !(request.Some? && Compensated(registration)) ==>
        files == Save(old(files), StoredFile(DirectoryFor(definitionId), stored.value, lines))
      ensures stored.Some? && request.Some? && Compensated(registration) &&
              (forall g :: g in old(files) ==> !SameSlot(g, DirectoryFor(definitionId), stored.value)) ==>
        files == old(files)
    {
      var gate := ArchiveGate(k, fileName);
      if gate != Pass {
        return GateStatus(gate), None, None;
      }
      CreateDirectory(DirectoryFor(definitionId));
      if faults.permissionFails {
        return ServerError, None, None;
      }
      var probe := DetectDate(lines, false);
      if probe == BadDate {
        return BadRequest, None, None;
      }
      if !probe.Found? {
        return ServerError, None, None;
      }
      ghost var before := files;
      status, request, stored := StoreAndRegister(definitionId, k, lines, datasetId, probe.date, faults, registration);
      if stored.Some? && request.Some? && Compensated(registration) {
        var f := StoredFile(DirectoryFor(definitionId), stored.value, lines);
        if forall g :: g in before ==> !SameSlot(g, f.directory, f.name) {
          RemoveUndoesSave(before, f);
        }
      }
    }

    /** GET /mobility/download on the archive: the first file matching *dataset-<id>-*, or null. */
    method DownloadInternal(definitionId: string, datasetId: string) returns (body: Option<string>)
      ensures FileMatchingPattern(files, DirectoryFor(definitionId), datasetId).None? ==> body.None?
      ensures FileMatchingPattern(files, DirectoryFor(definitionId), datasetId).Some? ==>
        body == Some(Emit(FileMatchingPattern(files, DirectoryFor(definitionId), datasetId).value.lines))
    {
      var f := FileMatchingPattern(files, DirectoryFor(definitionId), datasetId);
      if f.None? {
        return None;
      }
      var text := Render(f.value.lines);
      body := Some(text);
    }

    /**
     * GET /mobility/visitorDetection on the archive: parse the location ids,
     * then count, in the first file naming the dataset, the visitors whose
     * path equals the query.
     */
    method FindMeHere(definitionId: string, datasetId: string, locationIds: string)
      returns (status: Status, count: Option<int>)
      ensures count == ArchiveDetection(files, definitionId, datasetId, locationIds)
      ensures status == (if count.Some? then Ok else ServerError)
    {
      var query := ParseLocationIds(locationIds);
      if query.None? {
        return ServerError, None;
      }
      var f := FileWithId(files, DirectoryFor(definitionId), datasetId);
      if f.None? {
        return ServerError, None;
      }
      var n := CountInFile(f.value.lines, query.value, Exact);
      return Ok, Some(n);
    }
  }
}
