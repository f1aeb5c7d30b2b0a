/**
 * Visitor detection over a stored dataset file, as both nodes run it: read the
 * data rows, decode, sort in place, group into visitor paths and count the
 * visitors the query matches. The public node counts contiguous runs; the
 * archive node, reached with the query in Arrays.toString form, counts exact
 * paths.
 */
module Detection {
  import opened Wrappers
  import opened VisitorTrack
  import opened TrackSort
  import opened Aggregation
  import opened PathMatching
  import opened LocationIds
  import opened UploadRules
  import opened Storage
  import opened Federation

  /** The visitor paths of a stored dataset file (its first line is the header). */
  function FilePaths(lines: seq<string>): (m: map<int, seq<int>>)
    ensures forall v :: v in m ==> m[v] != []
    ensures forall v, j :: v in m && 0 <= j < |m[v]| ==> m[v][j] > 0
  {
    Aggregate(DataRows(CsvRows(lines)))
  }

  /** The reading loop, the in-place sort, the grouping and the counting loop over one file. */
  method CountInFile(lines: seq<string>, query: seq<int>, policy: Policy) returns (count: nat)
    ensures count == MatchCount(FilePaths(lines), query, policy)
  {
    var tracks := DecodeRows(DataRows(CsvRows(lines)));
    var a := new Track[|tracks|](i requires 0 <= i < |tracks| => tracks[i]);
    assert a[..] == tracks;
    SortTracks(a);
    var paths := GroupPaths(a[..]);
    count := CountMatches(paths, query, policy);
  }

  /**
   * The archive node's answer: the location ids must parse and some file of
   * the definition's directory must name the dataset; None is a server error.
   */
  function ArchiveDetection(files: seq<StoredFile>, definitionId: string, datasetId: string, locationIds: string): (r: Option<int>)
    ensures ParseLocationIds(locationIds).None? ==> r.None?
    ensures FileWithId(files, DirectoryFor(definitionId), datasetId).None? ==> r.None?
    ensures r.Some? <==> ParseLocationIds(locationIds).Some? && FileWithId(files, DirectoryFor(definitionId), datasetId).Some?
    ensures r.Some? ==>
      r.value == MatchCount(FilePaths(FileWithId(files, DirectoryFor(definitionId), datasetId).value.lines), ParseLocationIds(locationIds).value, Exact)
    ensures r.Some? ==> 0 <= r.value <= |FilePaths(FileWithId(files, DirectoryFor(definitionId), datasetId).value.lines)|
  {
    var query :- ParseLocationIds(locationIds);
    var f :- FileWithId(files, DirectoryFor(definitionId), datasetId);
    Some(MatchCount(FilePaths(f.lines), query, Exact))
  }

  /** The public node's answer from its own store; None is a server error. */
  function LocalDetection(files: seq<StoredFile>, definitionId: string, datasetId: string, query: seq<int>): (r: Option<int>)
    ensures r.None? <==> FileWithId(files, DirectoryFor(definitionId), datasetId).None?
  {
    var f :- FileWithId(files, DirectoryFor(definitionId), datasetId);
    Some(MatchCount(FilePaths(f.lines), query, Contiguous))
  }

  // ---------------------------------------------------------------------------
  // Properties

  /**
   * Across the two nodes: for a non-empty query of int ids, the archive
   * answers exactly when it holds a file for the dataset, its answer is the
   * number of visitors whose path equals the query, the corrected relay hands
   * that number on unchanged, and it never exceeds the contiguous count the
   * public node would compute from the same store.
   */
  lemma RelayedArchiveCount(files: seq<StoredFile>, definitionId: string, datasetId: string, query: seq<int>)
    requires query != []
    requires forall j :: 0 <= j < |query| ==> JavaNumbers.IsInt(query[j])
    ensures var r := ArchiveDetection(files, definitionId, datasetId, ArraysToString(query));
      && (r.Some? <==> FileWithId(files, DirectoryFor(definitionId), datasetId).Some?)
      && (r.Some? ==> r.value == MatchCount(FilePaths(FileWithId(files, DirectoryFor(definitionId), datasetId).value.lines), query, Exact))
      && (r.Some? ==> r.value <= LocalDetection(files, definitionId, datasetId, query).value)
      && RelayCount(ArchiveReply(r)) == r
  {
    LocationIdsRoundTrip(query);
    var f := FileWithId(files, DirectoryFor(definitionId), datasetId);
    if f.Some? {
      ExactImpliesContiguous(FilePaths(f.value.lines), query);
    }
    RelayRoundTrip(ArchiveDetection(files, definitionId, datasetId, ArraysToString(query)));
  }

  /** An empty query reaches the archive as "[]", which it cannot parse: a server error. */
  lemma EmptyQueryFailsRemotely(files: seq<StoredFile>, definitionId: string, datasetId: string)
    ensures ArchiveDetection(files, definitionId, datasetId, ArraysToString([])) == None
  {
    EmptyQueryRejected();
  }

  /** Neither node counts more visitors than the file holds. */
  lemma DetectionBounded(files: seq<StoredFile>, definitionId: string, datasetId: string, locationIds: string, query: seq<int>)
    ensures var r := ArchiveDetection(files, definitionId, datasetId, locationIds);
      r.Some? ==> r.value <= |FilePaths(FileWithId(files, DirectoryFor(definitionId), datasetId).value.lines)|
    ensures var r := LocalDetection(files, definitionId, datasetId, query);
      r.Some? ==> r.value <= |FilePaths(FileWithId(files, DirectoryFor(definitionId), datasetId).value.lines)|
  {
  }
}
