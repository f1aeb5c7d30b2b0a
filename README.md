# Mobility data platform: upload, storage and visitor detection

The platform runs two Spring controllers, both called `MobilityController`:

- **The public node** (`Mobility/…/MobilityController.java`) keeps dataset definitions and datasets in its database. It stores uploaded CSV exports of visitor tracks under `/data/mobility/<definition id>/dataset-<dataset id>-<date>.csv`. It serves downloads and answers visitor-detection queries: "how many visitors passed through these regions in this order". For definitions flagged internal, it forwards both kinds of request to the archive node that holds the data.
- **The archive node** (`Internal/…/MobilityController.java`) accepts uploads for existing definitions and registers each file with the public node. When that registration is refused, it deletes the file again. It also answers the public node's forwarded download and detection requests.

This project models both controllers' request paths in Dafny:

- **Shared rules**: the upload gates, the header-driven date detection with its strict `yyyy-MM-dd` check, and the stored file name (`UploadRules`).
- **File store**: save, overwrite, delete, listing, wildcard and substring lookup, and re-emitting a file line by line (`Storage`).
- **Detection pipeline**: decode each CSV row into a visitor track (`VisitorTrack`). Sort the tracks in place by visitor id, then first-seen time, as a stable sort (`TrackSort`). Group each visitor's positive region ids into a path (`Aggregation`). Count the visitors whose path contains the query as a contiguous run on the public node, or equals it on the archive node (`PathMatching`). `Detection` puts these together.
- **Federation**: the `[a, b, c]` text in which the public node sends location ids to the archive node (`LocationIds`), and the routing and the reply relay (`Federation`).
- **The two nodes** are classes, `Public.PublicNode` and `Archive.ArchiveNode`. Their fields are the database tables and the file store. Their methods are the endpoints. Each class has a store invariant, `Valid()`: files sit in created directories, with at most one file per (directory, name) slot. Every endpoint keeps it.

Java library behaviour used by the code is modelled explicitly (`JavaText`, `JavaNumbers`):

- `String.split` on one character, which drops trailing empty strings;
- `List.indexOf`, `endsWith`, `contains`, `trim`;
- `Integer.parseInt` and `Long.parseLong`, with their sign, digits and range;
- `Integer.toString`, `String.format("%06d")`;
- `String.compareTo`;
- `Collections.indexOfSubList`;
- `Arrays.toString`.

The following become parameters of the endpoint methods:

- the random numbers and UUIDs;
- I/O failures (the `Faults` flags);
- the archive's reply, and the outcome of the archive's registration call.

## Model

| member | source | states |
|---|---|---|
| JavaNumbers.ParseBounded | Mobility/src/main/java/com/utipdam/mobility/controller/MobilityController.java:428-432 | a string parses exactly when it is an optional sign followed by ASCII digits whose value lies in the range, and the result is that value |
| JavaNumbers.ParseInt | Mobility/src/main/java/com/utipdam/mobility/controller/MobilityController.java:428-432 | `Integer.parseInt` succeeds exactly for a decimal integer in the int range, and gives its value |
| JavaNumbers.ParseLong | Mobility/src/main/java/com/utipdam/mobility/controller/MobilityController.java:430 | `Long.parseLong` succeeds exactly for a decimal integer in the long range, and agrees with `Integer.parseInt` wherever that succeeds |
| JavaNumbers.IsNumeric | Mobility/src/main/java/com/utipdam/mobility/controller/MobilityController.java:212-219 | every text that parses as an int or a long is numeric, and numeric text is non-empty and ends in a digit |
| JavaNumbers.ParseOfDecimalString | Mobility/src/main/java/com/utipdam/mobility/controller/MobilityController.java:385 | the decimal text `Integer.toString` writes for an in-range number parses back to that number |
| JavaNumbers.RandomNumberString | Mobility/src/main/java/com/utipdam/mobility/controller/MobilityController.java:628-632 | `%06d` of a number below 999999 is exactly six digits whose value is the number |
| JavaNumbers.NatString | Mobility/src/main/java/com/utipdam/mobility/controller/MobilityController.java:628-632 | the unpadded decimal text is non-empty, all digits, and denotes the number |
| JavaText.IndexOf | Mobility/src/main/java/com/utipdam/mobility/controller/MobilityController.java:127-130 | `List.indexOf`: the first position holding the element, or -1 exactly when it is absent |
| JavaText.JavaSplitJoin | Mobility/src/main/java/com/utipdam/mobility/controller/MobilityController.java:127 | splitting separator-free pieces joined by the separator returns the pieces when the last piece is non-empty |
| JavaText.JavaSplitFirst | Mobility/src/main/java/com/utipdam/mobility/controller/MobilityController.java:135 | the first piece of a split is the text before the first separator |
| JavaText.TrimPadded | Internal/src/main/java/com/utipdam/internal/controller/MobilityController.java:275 | `trim` of control/space-led text with visible ends is the text |
| JavaText.JavaSplit | Mobility/src/main/java/com/utipdam/mobility/controller/MobilityController.java:127 | `String.split` on one character: the text itself when the separator is absent; otherwise the pieces hold no separator and the last is non-empty (trailing empty strings dropped) |
| JavaText.Trim | Internal/src/main/java/com/utipdam/internal/controller/MobilityController.java:275 | `trim` never lengthens the text and its result starts and ends with a visible character when non-empty |
| VisitorTrack.CreateVisitorTrack | Mobility/src/main/java/com/utipdam/mobility/controller/MobilityController.java:421-443 | a row decodes exactly when it has at least 9 columns, columns 0, 1, 5 and 6 parse as int and column 2 as long; the track holds those values and columns 7 and 8 verbatim, so a row of fewer than 9 columns gives none (the archive's decoder, Internal controller lines 320-342, is identical) |
| VisitorTrack.DeviceColumnsIgnored | Mobility/src/main/java/com/utipdam/mobility/controller/MobilityController.java:428-437 | the device id and device type columns never influence the decoded track |
| VisitorTrack.DecodesRenderedRow | Mobility/src/main/java/com/utipdam/mobility/controller/MobilityController.java:421-443 | round trip: a track with in-range fields, written out as a 9-column row, decodes back to itself |
| TrackSort.SortTracks | Mobility/src/main/java/com/utipdam/mobility/controller/MobilityController.java:351-352 | the in-place sort leaves the array equal to the stable insertion sort of its old contents |
| TrackSort.InsertNext | Mobility/src/main/java/com/utipdam/mobility/controller/MobilityController.java:351-352 | one in-place step inserts element i into the sorted prefix and leaves the rest of the array untouched |
| TrackSort.SortStep | Mobility/src/main/java/com/utipdam/mobility/controller/MobilityController.java:351-352 | each insertion step extends the sorted prefix by one element of the input |
| TrackSort.StrLeTotal | Mobility/src/main/java/com/utipdam/mobility/controller/MobilityController.java:352 | `String.compareTo` order on first-seen times is total |
| TrackSort.StrLeTrans | Mobility/src/main/java/com/utipdam/mobility/controller/MobilityController.java:352 | `String.compareTo` order is transitive |
| TrackSort.StrLeAntisym | Mobility/src/main/java/com/utipdam/mobility/controller/MobilityController.java:352 | `String.compareTo` order is antisymmetric |
| TrackSort.LeTotal | Mobility/src/main/java/com/utipdam/mobility/controller/MobilityController.java:351-352 | the (visitor id, first-seen time) comparator is total |
| TrackSort.LeTrans | Mobility/src/main/java/com/utipdam/mobility/controller/MobilityController.java:351-352 | the comparator is transitive |
| TrackSort.LeBothWays | Mobility/src/main/java/com/utipdam/mobility/controller/MobilityController.java:351-352 | tracks the comparator ranks equal share visitor id and first-seen time |
| TrackSort.SortPermutes | Mobility/src/main/java/com/utipdam/mobility/controller/MobilityController.java:351-352 | the sorted list is a permutation of the input |
| TrackSort.InsertPermutes | Mobility/src/main/java/com/utipdam/mobility/controller/MobilityController.java:351-352 | insertion adds exactly one occurrence of the element |
| TrackSort.SortSorts | Mobility/src/main/java/com/utipdam/mobility/controller/MobilityController.java:351-352 | the result is ordered by visitor id, then first-seen time |
| TrackSort.InsertSorted | Mobility/src/main/java/com/utipdam/mobility/controller/MobilityController.java:351-352 | inserting into an ordered list keeps it ordered |
| TrackSort.SortStable | Mobility/src/main/java/com/utipdam/mobility/controller/MobilityController.java:351-352 | stability: tracks with equal keys keep their input order |
| TrackSort.InsertWithKey | Mobility/src/main/java/com/utipdam/mobility/controller/MobilityController.java:351-352 | insertion puts the new element after every equal-key element already present |
| Aggregation.CsvRows | Mobility/src/main/java/com/utipdam/mobility/controller/MobilityController.java:336-339 | one row per line; each row is non-empty, its fields hold no comma, and joined with commas they give the line back |
| Aggregation.CsvRowsOfJoined | Mobility/src/main/java/com/utipdam/mobility/controller/MobilityController.java:336-339 | lines written as comma-joined comma-free fields read back as exactly those fields |
| Aggregation.RenderedFileDecodes | Mobility/src/main/java/com/utipdam/mobility/controller/MobilityController.java:336-344 | round trip: a header plus one comma-joined line per in-range track, with comma-free text fields, reads back as exactly those tracks in order |
| Aggregation.DecodeRows | Mobility/src/main/java/com/utipdam/mobility/controller/MobilityController.java:339-344 | the reading loop keeps exactly the rows that decode, in file order |
| Aggregation.DecodedMembers | Mobility/src/main/java/com/utipdam/mobility/controller/MobilityController.java:339-344 | a track is kept exactly when some row decodes to it, and no more tracks than rows are kept |
| Aggregation.BadRowSkipped | Mobility/src/main/java/com/utipdam/mobility/controller/MobilityController.java:340-343 | a row that does not decode changes nothing in the decoded list |
| Aggregation.DecodedAppend | Mobility/src/main/java/com/utipdam/mobility/controller/MobilityController.java:339-344 | decoding distributes over concatenated row lists |
| Aggregation.GroupPaths | Mobility/src/main/java/com/utipdam/mobility/controller/MobilityController.java:353-356 | every visitor in the grouping has a non-empty path of positive region ids |
| Aggregation.Aggregate | Mobility/src/main/java/com/utipdam/mobility/controller/MobilityController.java:351-356 | the visitor paths of a file's rows are non-empty and hold only positive region ids; their exact contents are stated by Aggregation.VisitorPath |
| Aggregation.GroupPathsSpec | Mobility/src/main/java/com/utipdam/mobility/controller/MobilityController.java:353-356 | a visitor appears exactly when one of its tracks has a positive region, and its path is the region ids of its tracks in sorted order |
| Aggregation.RowsOfMembers | Mobility/src/main/java/com/utipdam/mobility/controller/MobilityController.java:353-356 | a visitor's tracks are exactly the tracks carrying its id |
| Aggregation.RowsOfPermutation | Mobility/src/main/java/com/utipdam/mobility/controller/MobilityController.java:353-356 | permuting the tracks permutes each visitor's tracks |
| Aggregation.RowsOfSorted | Mobility/src/main/java/com/utipdam/mobility/controller/MobilityController.java:351-356 | after the sort, a visitor's tracks are ordered by first-seen time |
| Aggregation.RegionPathMembers | Mobility/src/main/java/com/utipdam/mobility/controller/MobilityController.java:353 | a path is non-empty exactly when some track of the visitor has a positive region id |
| Aggregation.VisitorPath | Mobility/src/main/java/com/utipdam/mobility/controller/MobilityController.java:336-356 | a visitor's path is the positive region ids of the decoded rows carrying its id, ordered by first-seen time, and a multiset-permutation of them |
| Aggregation.VisitorPresent | Internal/src/main/java/com/utipdam/internal/controller/MobilityController.java:284-301 | a visitor is grouped exactly when a decoded row of its carries a positive region id |
| PathMatching.IndexOfSubListFrom | Mobility/src/main/java/com/utipdam/mobility/controller/MobilityController.java:360 | `Collections.indexOfSubList`: the first position of a contiguous run of the query, or -1 exactly when there is none |
| PathMatching.ContiguousMatch | Mobility/src/main/java/com/utipdam/mobility/controller/MobilityController.java:360 | a public-node match holds exactly when the query occurs as a contiguous run in the path |
| PathMatching.ExactMatch | Internal/src/main/java/com/utipdam/internal/controller/MobilityController.java:305 | an archive match holds exactly when path and query have the same length and agree at every position, and it implies a public-node match |
| PathMatching.ContiguityExamples | Mobility/src/main/java/com/utipdam/mobility/controller/MobilityController.java:360 | regions in the query order but not adjacent do not match; an exact match needs equal lists |
| PathMatching.CountMatches | Mobility/src/main/java/com/utipdam/mobility/controller/MobilityController.java:358-363 | the counting loop over the map's entries yields the number of matching visitors; the archive's loop (Internal controller lines 303-308) is the same with list equality as the match |
| PathMatching.MatchingAmongStep | Mobility/src/main/java/com/utipdam/mobility/controller/MobilityController.java:359-362 | each visited entry raises the count by one exactly when it matches |
| PathMatching.MatchCount | Mobility/src/main/java/com/utipdam/mobility/controller/MobilityController.java:358-363 | the number of matching visitors never exceeds the number of visitors |
| PathMatching.EmptyQueryCountsAll | Mobility/src/main/java/com/utipdam/mobility/controller/MobilityController.java:314-363 | an empty query (not refused) counts every visitor with a path |
| PathMatching.NegativeIdCountsNone | Mobility/src/main/java/com/utipdam/mobility/controller/MobilityController.java:314-363 | a query holding a negative id passes the 0 check but can never match, since paths hold only positive ids |
| PathMatching.ExactImpliesContiguous | Internal/src/main/java/com/utipdam/internal/controller/MobilityController.java:305 | every visitor the archive counts is also counted by the public rule |
| LocationIds.ArraysToString | Mobility/src/main/java/com/utipdam/mobility/controller/MobilityController.java:385 | the query goes out as `Arrays.toString`: "[]" when empty, else text between "[" and "]" whose comma pieces are the ids' decimal texts, each after the first led by a space |
| LocationIds.ParseAll | Internal/src/main/java/com/utipdam/internal/controller/MobilityController.java:274-275 | the pieces parse exactly when each trimmed piece parses as an int |
| LocationIds.ParseLocationIds | Internal/src/main/java/com/utipdam/internal/controller/MobilityController.java:274-275 | a text shorter than 2 characters is refused; parsed ids are ints |
| LocationIds.ParsePieces | Internal/src/main/java/com/utipdam/internal/controller/MobilityController.java:274-275 | the trimmed pieces of rendered ids parse back to the ids |
| LocationIds.LocationIdsRoundTrip | Internal/src/main/java/com/utipdam/internal/controller/MobilityController.java:274-276 | round trip: a non-empty int query rendered by the public node parses back to the same list on the archive node |
| LocationIds.EmptyQueryRejected | Internal/src/main/java/com/utipdam/internal/controller/MobilityController.java:274-275 | an empty query renders as "[]", which the archive cannot parse, while "[,]" parses to the empty list |
| UploadRules.DaysInMonth | Mobility/src/main/java/com/utipdam/mobility/controller/MobilityController.java:136 | the strict calendar: 28-31 days; February has 29 exactly in leap years |
| UploadRules.DateColumn | Mobility/src/main/java/com/utipdam/mobility/controller/MobilityController.java:127-130 | the date column is the first `first_time_seen`; only when absent and where the endpoint allows it is `start_time` used; -1 exactly when neither applies; the archive (Internal controller line 108) searches `first_time_seen` only |
| UploadRules.FoundDateOrigin | Mobility/src/main/java/com/utipdam/mobility/controller/MobilityController.java:124-141 | a found date comes from the second line's field at the date column (after position 0), up to its first space, and is strict |
| UploadRules.DetectDate | Mobility/src/main/java/com/utipdam/mobility/controller/MobilityController.java:124-141 | a file of fewer than two lines has no date; any date outcome needs a date column after position 0; a found date passes the strict check (the archive's probe, Internal controller lines 104-119, is the same without `start_time`) |
| UploadRules.FirstColumnDateIgnored | Mobility/src/main/java/com/utipdam/mobility/controller/MobilityController.java:133 | a date column at position 0 is never read, so such a file has no date |
| UploadRules.DetectsExportDate | Mobility/src/main/java/com/utipdam/mobility/controller/MobilityController.java:124-141 | a well-formed export with "<date> <time>" under `first_time_seen` is accepted with that date |
| UploadRules.FirstWordOfStamp | Mobility/src/main/java/com/utipdam/mobility/controller/MobilityController.java:135 | the text before the first space of "<date> <time>" is the date |
| UploadRules.IsStrictDate | Mobility/src/main/java/com/utipdam/mobility/controller/MobilityController.java:134-136 | a strict date is ten characters and contains neither ',' nor ' ' |
| UploadRules.GateStatus | Mobility/src/main/java/com/utipdam/mobility/controller/MobilityController.java:69-88 | a rejected check answers 400 and an exception during the checks answers 500 |
| UploadRules.PublicGate | Mobility/src/main/java/com/utipdam/mobility/controller/MobilityController.java:69-88 | upload passes exactly when k is numeric and parses to 0..100, the name ends in ".csv" and the size is within the limit; when each of 400 and exception happens |
| UploadRules.ArchiveGate | Internal/src/main/java/com/utipdam/internal/controller/MobilityController.java:66-78 | archive upload passes exactly when k is numeric (never range-checked) and the name ends in ".csv" |
| UploadRules.ExternalGate | Mobility/src/main/java/com/utipdam/mobility/controller/MobilityController.java:472-497 | anonymization job passes exactly when a name is given, k is present and in 0..100, the name ends in ".csv" and the size is within the limit |
| UploadRules.DatasetFileName | Mobility/src/main/java/com/utipdam/mobility/controller/MobilityController.java:154 | the stored name starts with "dataset-<id>-" and ends with ".csv" |
| UploadRules.FileNameInjective | Mobility/src/main/java/com/utipdam/mobility/controller/MobilityController.java:154 | for dates of one length, the stored name determines dataset id and date |
| UploadRules.FileNameFound | Mobility/src/main/java/com/utipdam/mobility/controller/MobilityController.java:154 | the stored name contains the dataset id and the download pattern "dataset-<id>-" |
| UploadRules.DirectoryFor | Mobility/src/main/java/com/utipdam/mobility/controller/MobilityController.java:100 | the directory is "/data/mobility/" followed by the definition id, and nothing else |
| Storage.Save | Mobility/src/main/java/com/utipdam/mobility/controller/MobilityController.java:160-161 | after a save the file is last and the store holds the new file plus every other file not in its slot |
| Storage.RemoveMembers | Internal/src/main/java/com/utipdam/internal/controller/MobilityController.java:200-203 | deleting a file keeps exactly the files in other slots |
| Storage.Remove | Internal/src/main/java/com/utipdam/internal/controller/MobilityController.java:201 | deleting never adds files; the exact remaining files are stated by Storage.RemoveMembers |
| Storage.ListingMembers | Mobility/src/main/java/com/utipdam/mobility/controller/MobilityController.java:332-333 | a directory listing holds exactly the files of that directory |
| Storage.SaveKeepsUnique | Mobility/src/main/java/com/utipdam/mobility/controller/MobilityController.java:160-161 | saving keeps at most one file per (directory, name) slot |
| Storage.RemoveKeepsUnique | Internal/src/main/java/com/utipdam/internal/controller/MobilityController.java:200-203 | deleting keeps at most one file per slot |
| Storage.RemoveUndoesSave | Internal/src/main/java/com/utipdam/internal/controller/MobilityController.java:199-203 | deleting a freshly saved file restores the store exactly |
| Storage.RemoveAbsent | Internal/src/main/java/com/utipdam/internal/controller/MobilityController.java:201 | deleting a missing file changes nothing |
| Storage.ListingAfterSave | Mobility/src/main/java/com/utipdam/mobility/controller/MobilityController.java:160-161 | a fresh file appears at the end of its directory's listing |
| Storage.FirstIndexWith | Mobility/src/main/java/com/utipdam/mobility/controller/MobilityController.java:333-335 | the first listed file whose name contains the fragment, or -1 exactly when none does |
| Storage.FirstWith | Mobility/src/main/java/com/utipdam/mobility/controller/MobilityController.java:333-335 | the file found contains the fragment and is listed; none exactly when no listed name contains it |
| Storage.FileWithId | Mobility/src/main/java/com/utipdam/mobility/controller/MobilityController.java:333-335 | the file found is stored in the directory and its name contains the dataset id; none exactly when no such file exists |
| Storage.FileMatchingPattern | Mobility/src/main/java/com/utipdam/mobility/controller/MobilityController.java:235-236 | the file found is stored in the directory and its name contains "dataset-<id>-"; none exactly when no such file exists |
| Storage.UploadedFileFound | Mobility/src/main/java/com/utipdam/mobility/controller/MobilityController.java:154-161 | once a dataset's file is saved under a fresh id, both the substring lookup and the download pattern find exactly that file |
| Storage.PrefixMentionsId | Mobility/src/main/java/com/utipdam/mobility/controller/MobilityController.java:235 | a name matching the download pattern also contains the id |
| Storage.FirstWithAppend | Mobility/src/main/java/com/utipdam/mobility/controller/MobilityController.java:332-334 | appending a matching file to a listing with no match makes it the one found |
| Storage.Render | Mobility/src/main/java/com/utipdam/mobility/controller/MobilityController.java:246-251 | the read loop emits each line followed by a newline |
| Storage.Emit | Mobility/src/main/java/com/utipdam/mobility/controller/MobilityController.java:246-251 | the emitted text has at least one character per line and ends in a newline when there are lines |
| Storage.EmitSplit | Mobility/src/main/java/com/utipdam/mobility/controller/MobilityController.java:246-251 | splitting the emitted text on newlines gives the lines back, then one empty piece |
| Storage.ListingSnoc | Mobility/src/main/java/com/utipdam/mobility/controller/MobilityController.java:332-333 | the listing of a store with one more file gains that file exactly when it is in the directory |
| Federation.RouteFor | Mobility/src/main/java/com/utipdam/mobility/controller/MobilityController.java:331-379 | a definition whose internal flag is null or false is served locally; only an internal one with a server domain is forwarded there |
| Federation.DownloadRouteAsWritten | Mobility/src/main/java/com/utipdam/mobility/controller/MobilityController.java:231-232 | as written, download fails whenever the internal flag is null |
| Federation.NullFlagDownload | Mobility/src/main/java/com/utipdam/mobility/controller/MobilityController.java:231-232 | a null flag makes the download as written fail where the corrected routing serves locally |
| Federation.DownloadRouteAgrees | Mobility/src/main/java/com/utipdam/mobility/controller/MobilityController.java:231-232 | with the flag set, the download as written routes like the corrected routing |
| Federation.DetectionRequestFor | Mobility/src/main/java/com/utipdam/mobility/controller/MobilityController.java:378-386 | the detection request goes to "<domain>/internal/mobility/visitorDetection" |
| Federation.DownloadRequestFor | Mobility/src/main/java/com/utipdam/mobility/controller/MobilityController.java:276-283 | the download request goes to "<domain>/internal/mobility/download" |
| Federation.AsInt | Mobility/src/main/java/com/utipdam/mobility/controller/MobilityController.java:401 | `asInt` of an object node is 0 |
| Federation.ArchiveReply | Internal/src/main/java/com/utipdam/internal/controller/MobilityController.java:310-317 | the archive answers a body exactly when it counted |
| Federation.RelayCountAsWritten | Mobility/src/main/java/com/utipdam/mobility/controller/MobilityController.java:389-402 | as written, every reply body is relayed as a count |
| Federation.RelayCount | Mobility/src/main/java/com/utipdam/mobility/controller/MobilityController.java:389-402 | corrected relay: the reply's "count" field, and a server error otherwise |
| Federation.RelayAsWrittenLosesCount | Mobility/src/main/java/com/utipdam/mobility/controller/MobilityController.java:401 | the relay as written turns every archive count into 0 |
| Federation.RelayRoundTrip | Internal/src/main/java/com/utipdam/internal/controller/MobilityController.java:310-317 | the corrected relay hands on exactly what the archive counted, failure included |
| Detection.CountInFile | Mobility/src/main/java/com/utipdam/mobility/controller/MobilityController.java:337-363 | reading, decoding, in-place sorting, grouping and counting one file yields the specified match count |
| Detection.FilePaths | Mobility/src/main/java/com/utipdam/mobility/controller/MobilityController.java:336-356 | every visitor path built from a file is non-empty and holds only positive region ids |
| Detection.ArchiveDetection | Internal/src/main/java/com/utipdam/internal/controller/MobilityController.java:266-317 | the archive answers exactly when the ids parse and a file of the directory names the dataset; the answer is the number of visitors whose path equals the query, at most the number of visitors |
| Detection.LocalDetection | Mobility/src/main/java/com/utipdam/mobility/controller/MobilityController.java:331-366 | the public node answers none exactly when no file of the directory names the dataset |
| Detection.RelayedArchiveCount | Internal/src/main/java/com/utipdam/internal/controller/MobilityController.java:266-317 | for a non-empty query, the archive answers exactly when it holds the file; it counts visitors whose path equals the query; the relay preserves the count; the count is at most the public node's |
| Detection.EmptyQueryFailsRemotely | Mobility/src/main/java/com/utipdam/mobility/controller/MobilityController.java:385 | an empty query forwarded to the archive is a server error |
| Detection.DetectionBounded | Mobility/src/main/java/com/utipdam/mobility/controller/MobilityController.java:358-363 | neither node counts more visitors than the file holds |
| Public.UploadDefinition | Mobility/src/main/java/com/utipdam/mobility/controller/MobilityController.java:91-95 | the web upload's definition is named "dash-upload-" plus six digits of the random number, with no internal flag and no server |
| Public.PublicNode.constructor | Mobility/src/main/java/com/utipdam/mobility/controller/MobilityController.java:47-61 | a node starts with empty tables and store |
| Public.PublicNode.CreateDefinition | Mobility/src/main/java/com/utipdam/mobility/controller/MobilityController.java:97-106 | the definition is recorded and its directory created; nothing else changes |
| Public.PublicNode.StoreFile | Mobility/src/main/java/com/utipdam/mobility/controller/MobilityController.java:160-171 | the store becomes the save of the file; the tables are unchanged |
| Public.PublicNode.RegisterDataset | Mobility/src/main/java/com/utipdam/mobility/controller/MobilityController.java:176-187 | the dataset row is recorded under its id |
| Public.PublicNode.StoreDatasetFile | Mobility/src/main/java/com/utipdam/mobility/controller/MobilityController.java:153-171 | the file is stored under "dataset-<id>-<date>.csv", and a fresh id makes it the one both lookups find |
| Public.PublicNode.Ingest | Mobility/src/main/java/com/utipdam/mobility/controller/MobilityController.java:152-208 | the file is stored unless the save fails; the dataset is registered (dates, k, line count less header) unless reading it back fails; nothing is registered otherwise |
| Public.PublicNode.Upload | Mobility/src/main/java/com/utipdam/mobility/controller/MobilityController.java:63-209 | gate failure changes nothing and answers 400/500; otherwise a definition and directory are made; 400 exactly for a rejected gate or a non-strict date; a stored file exactly when the date is found and the save works; OK exactly when the dataset is registered, with its full row; every other outcome is 500 |
| Public.PublicNode.AnonymizeExternalApi | Mobility/src/main/java/com/utipdam/mobility/controller/MobilityController.java:468-625 | the same flow with the request's name and k, `first_time_seen` only, any date failure a 500; OK exactly when stored and registered, with the stored text as body; every other outcome is 500 |
| Public.PublicNode.Download | Mobility/src/main/java/com/utipdam/mobility/controller/MobilityController.java:221-299 | unknown dataset or definition answers 204; local routing sends the first file matching "*dataset-<id>-*" or 204; remote routing forwards the request and relays the body or 500 |
| Public.PublicNode.FindMeHere | Mobility/src/main/java/com/utipdam/mobility/controller/MobilityController.java:302-419 | a query holding 0 answers 400 before any lookup; unknown ids answer 500; local routing counts contiguous matches in the first file naming the dataset; remote routing forwards the ids and relays the reply's count with the corrected relay (see Findings); every other outcome is 500 |
| Archive.ArchiveNode.constructor | Internal/src/main/java/com/utipdam/internal/controller/MobilityController.java:46-55 | the archive starts with no directories and no files |
| Archive.ArchiveNode.CreateDirectory | Internal/src/main/java/com/utipdam/internal/controller/MobilityController.java:80-87 | the definition's directory is created; files are unchanged |
| Archive.ArchiveNode.StoreFile | Internal/src/main/java/com/utipdam/internal/controller/MobilityController.java:145-156 | the store becomes the save of the file |
| Archive.ArchiveNode.DeleteFile | Internal/src/main/java/com/utipdam/internal/controller/MobilityController.java:200-203 | the store becomes the removal of that slot |
| Archive.ArchiveNode.StoreAndRegister | Internal/src/main/java/com/utipdam/internal/controller/MobilityController.java:138-211 | stored unless the save fails; a registration request (id, definition, date twice, "daily", k as given, line count less header) unless reading back fails; OK exactly when registered; a refused or unreadable registration deletes the file again |
| Archive.ArchiveNode.UploadInternal | Internal/src/main/java/com/utipdam/internal/controller/MobilityController.java:60-212 | gate failure changes nothing; 400 exactly for a rejected gate or a non-strict date; the request and file outcomes above; a compensated failure under a fresh name leaves the store as it was; every other outcome is 500 |
| Archive.ArchiveNode.DownloadInternal | Internal/src/main/java/com/utipdam/internal/controller/MobilityController.java:224-263 | the first file matching "*dataset-<id>-*" re-emitted line by line, or null |
| Archive.ArchiveNode.FindMeHere | Internal/src/main/java/com/utipdam/internal/controller/MobilityController.java:265-318 | the answer is the archive's detection result: OK with the exact-match count, or 500 |

## Left out

- UploadRules.IsStrictDate, UploadRules.DetectDate: `GenericValidator.isDate(v, "yyyy-MM-dd", true)` is modelled as exactly four, two and two digits separated by '-', on a proleptic Gregorian calendar from year 1. The source's check is a non-lenient `SimpleDateFormat.parse` plus a length check; `parse` ignores trailing text and lets a field take more or fewer digits. So ten-character texts such as "2024-01-1x" or "2024-1-015" pass the source's check, while the model answers them with 400. Julian-calendar dates before 1582 and year 0 are not modelled either.
- JavaNumbers.IsNumeric, UploadRules.PublicGate, UploadRules.ArchiveGate: `isNumeric` is modelled as "a decimal integer". The other forms `Double.parseDouble` accepts (fractions, exponents, "NaN", a trailing "d") are not modelled. On the public node such a k then fails `Integer.parseInt` (a 500). On the archive node it would be accepted.
- Aggregation.CsvRows: rows are split on every comma. RFC 4180 quoting and embedded newlines in the CSV reader are not modelled.
- `readLine` also ends a line at '\r'. Files are modelled as sequences of lines already split.
- TrackSort.StrLe: first-seen times are ordered by Unicode scalar value, while `String.compareTo` compares UTF-16 code units. The two orders differ only between a supplementary character and one in U+E000–U+FFFF.
- Public.PublicNode.FindMeHere: the remote branch relays the reply's `count` field (`Federation.RelayCount`), the intended behaviour of the first row under Findings. The code as written answers 0 for every archive count; `Federation.RelayAsWrittenLosesCount` exhibits that.
- Public.PublicNode.Download: routing uses the corrected `Federation.RouteFor`, the intended behaviour of the second row under Findings. As written, a definition whose internal flag is null makes the download throw and answer 500; `Federation.NullFlagDownload` exhibits that.
- JavaNumbers.ParseBounded: only ASCII digits are modelled. `Integer.parseInt` also accepts other Unicode decimal digits.
- Federation.AsInt: the 32-bit truncation `asInt` applies to large numeric nodes is not modelled.
- The file system: permission bits, `mkdirs` and I/O failures are not modelled. They appear only as the `Faults` flags (`permissionFails`, `saveFails`, `readBackFails`), which answer 500 where the code catches the exception.
- Public.PublicNode.AnonymizeExternalApi: the second read of the stored file is the same as the first. Its failure is folded into `readBackFails`.
- UUIDs, the random number, and the newly created definition id are parameters.
- Archive.ArchiveNode.UploadInternal: `UUID.fromString` on the `datasetDefinition` request part (Internal controller line 190) is not modelled. It runs on the success path after the public node has registered the dataset. A definition id that is not a UUID therefore throws there: the answer is an uncaught 500, the file is kept and the dataset stays registered remotely, whereas the model answers Ok.
- Public.PublicNode.AnonymizeExternalApi: the job saves the request's definition as received, and the request's definition class is not part of this model. The definition is modelled with the request's name, no internal flag and no server.
- The database is modelled as maps. The fields of a definition other than its name, internal flag and server (description, country code, fee) are not modelled. The response bodies' extra fields (file name, size, ids) are not modelled either.
- The listing order of `File.listFiles` is modelled as the order of the last write. The real order is unspecified.
- `HashMap` iteration order: counting does not depend on it, so the count is modelled as a set cardinality.
- The HTTP client and the remote peer are modelled by their observable outcome (`Federation.Reply`, `Archive.Registration`). JSON parsing of replies and Jackson's mapping are not modelled.
- `createVisitorTrackNew` is never called and is not modelled.
- AuthController and the other controllers, services and repositories are not part of this model.
- `Date.valueOf(csvDate)` is modelled as the date string itself.
- A failure of `Files.size` after the public node has registered the dataset (a 500 with the dataset row kept) is not modelled. A read-back failure is modelled only before registration.
- The CSV reader's `withSkipLines(1)` is modelled as dropping the first line (`Aggregation.DataRows`).

## Findings

| source | as written | input that shows it | evidently intended | confidence | as-written member | corrected member |
|---|---|---|---|---|---|---|
| Mobility/src/main/java/com/utipdam/mobility/controller/MobilityController.java:401 | the archive's reply `{"count": n}` is relayed with `asInt()` on the whole object, which yields 0 | an internal definition whose archive answers `{"count":3}`: the public node answers count 0 | relay the reply's `count` field | high (not executed) | Federation.RelayCountAsWritten | Federation.RelayCount |
| Mobility/src/main/java/com/utipdam/mobility/controller/MobilityController.java:231-232 | the local-download branch is taken when the internal flag is null, then logs `getInternal().toString()`, which throws | a definition created by the web upload (`internal` = null) whose dataset is downloaded: 500 instead of the file | serve the local file when the flag is null, as the null check in the guard intends | high (not executed) | Federation.DownloadRouteAsWritten | Federation.RouteFor |

The first row is exhibited by `Federation.RelayAsWrittenLosesCount` and corrected by `Federation.RelayRoundTrip`. The second is exhibited by `Federation.NullFlagDownload`. `Public.PublicNode.FindMeHere` uses the corrected relay and `Public.PublicNode.Download` the corrected routing.

The date detection only looks at a date column after position 0 (`dateIndex > 0`). That column rule is kept as written; `UploadRules.FirstColumnDateIgnored` states its effect.
