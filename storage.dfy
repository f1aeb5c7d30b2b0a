/**
 * The file store under /data/mobility/<definition id>: files in directory
 * listing order, saving and deleting, the two lookups the endpoints use
 * (name contains the dataset id; name matches *dataset-<id>-*) and the text
 * a download sends back.
 */
module Storage {
  import opened Wrappers
  import opened JavaText
  import opened UploadRules

  /** A stored file: the directory it lives in, its name and its lines. */
  datatype StoredFile = StoredFile(directory: string, name: string, lines: seq<string>)

  predicate SameSlot(f: StoredFile, directory: string, name: string)
  {
    f.directory == directory && f.name == name
  }

  /** No two stored files share a directory and a name. */
  predicate UniqueSlots(files: seq<StoredFile>)
  {
    forall i, j :: 0 <= i < j < |files| ==> !SameSlot(files[j], files[i].directory, files[i].name)
  }

  /** File.delete: drop the file stored under that name in that directory. */
  function Remove(files: seq<StoredFile>, directory: string, name: string): (r: seq<StoredFile>)
    ensures |r| <= |files|
  {
    if files == [] then []
    else (if SameSlot(files[0], directory, name) then [] else [files[0]]) + Remove(files[1..], directory, name)
  }

  /**
   * Write a file, replacing one already stored under the same name in the
   * same directory; the written file comes last in the listing.
   */
  function Save(files: seq<StoredFile>, f: StoredFile): (r: seq<StoredFile>)
    ensures |r| >= 1 && r[|r| - 1] == f
    ensures forall g :: g in r <==> g == f || (g in files && !SameSlot(g, f.directory, f.name))
  {
    RemoveMembers(files, f.directory, f.name);
    Remove(files, f.directory, f.name) + [f]
  }

  /** File.listFiles on a directory: its files in listing order (none when it does not exist). */
  function Listing(files: seq<StoredFile>, directory: string): (r: seq<StoredFile>)
    ensures |r| <= |files|
  {
    if files == [] then []
    else (if files[0].directory == directory then [files[0]] else []) + Listing(files[1..], directory)
  }

  /** The position of the first file of a listing whose name contains `fragment`, or -1. */
  function FirstIndexWith(listing: seq<StoredFile>, fragment: string): (i: int)
    ensures -1 <= i < |listing|
    ensures i >= 0 ==> Contains(listing[i].name, fragment)
    ensures i >= 0 ==> forall j :: 0 <= j < i ==> !Contains(listing[j].name, fragment)
    ensures i == -1 <==> forall j :: 0 <= j < |listing| ==> !Contains(listing[j].name, fragment)
  {
    if listing == [] then -1
    else if Contains(listing[0].name, fragment) then 0
    else
      var r := FirstIndexWith(listing[1..], fragment);
      if r < 0 then -1 else r + 1
  }

  /** The first file of a listing whose name contains `fragment` (files[0] of a filtered listFiles). */
  function FirstWith(listing: seq<StoredFile>, fragment: string): (r: Option<StoredFile>)
    ensures r.None? <==> forall g :: g in listing ==> !Contains(g.name, fragment)
    ensures r.Some? ==> r.value in listing && Contains(r.value.name, fragment)
  {
    var i := FirstIndexWith(listing, fragment);
    if i < 0 then None else Some(listing[i])
  }

  /** The file the visitor-detection endpoints read: the first whose name contains the dataset id. */
  function FileWithId(files: seq<StoredFile>, directory: string, datasetId: string): (r: Option<StoredFile>)
    ensures r.Some? ==> r.value in files && r.value.directory == directory && Contains(r.value.name, datasetId)
    ensures r.None? <==> IdUnused(files, directory, datasetId)
  {
    ListingMembers(files, directory);
    FirstWith(Listing(files, directory), datasetId)
  }

  /** The file the download endpoints send: the first matching the pattern *dataset-<id>-*. */
  function FileMatchingPattern(files: seq<StoredFile>, directory: string, datasetId: string): (r: Option<StoredFile>)
    ensures r.Some? ==> r.value in files && r.value.directory == directory && Contains(r.value.name, DatasetPrefix(datasetId))
    ensures r.None? <==> forall g :: g in files && g.directory == directory ==> !Contains(g.name, DatasetPrefix(datasetId))
  {
    ListingMembers(files, directory);
    FirstWith(Listing(files, directory), DatasetPrefix(datasetId))
  }

  /** The text a download sends: every line followed by '\n'. */
  function Emit(lines: seq<string>): (r: string)
    ensures |r| >= |lines|
    ensures lines != [] ==> r[|r| - 1] == '\n'
  {
    if lines == [] then "" else Emit(lines[..|lines| - 1]) + lines[|lines| - 1] + "\n"
  }

  /** The readLine / append loop that builds the download text. */
  method Render(lines: seq<string>) returns (text: string)
    ensures text == Emit(lines)
  {
    text := "";
    var i := 0;
    while i < |lines|
      invariant 0 <= i <= |lines|
      invariant text == Emit(lines[..i])
    {
      assert lines[..i + 1][..i] == lines[..i];
      text := text + lines[i] + "\n";
      i := i + 1;
    }
    assert lines[..|lines|] == lines;
  }

  // ---------------------------------------------------------------------------
  // Properties

  /** Deleting keeps exactly the files stored under another name or in another directory. */
  lemma {:induction false} RemoveMembers(files: seq<StoredFile>, directory: string, name: string)
    ensures forall g :: g in Remove(files, directory, name) <==> g in files && !SameSlot(g, directory, name)
  {
    if files != [] {
      RemoveMembers(files[1..], directory, name);
      assert files == [files[0]] + files[1..];
    }
  }

  /** A directory's listing holds exactly the stored files of that directory. */
  lemma {:induction false} ListingMembers(files: seq<StoredFile>, directory: string)
    ensures forall g :: g in Listing(files, directory) <==> g in files && g.directory == directory
  {
    if files != [] {
      ListingMembers(files[1..], directory);
      assert files == [files[0]] + files[1..];
    }
  }

  lemma {:induction false} RemoveKeepsUnique(files: seq<StoredFile>, directory: string, name: string)
    requires UniqueSlots(files)
    ensures UniqueSlots(Remove(files, directory, name))
  {
    if files != [] {
      var tail := files[1..];
      assert UniqueSlots(tail) by {
        forall i, j | 0 <= i < j < |tail| ensures !SameSlot(tail[j], tail[i].directory, tail[i].name) {
          assert tail[i] == files[i + 1] && tail[j] == files[j + 1];
        }
      }
      RemoveKeepsUnique(tail, directory, name);
      RemoveMembers(tail, directory, name);
      var rest := Remove(tail, directory, name);
      if !SameSlot(files[0], directory, name) {
        var r := [files[0]] + rest;
        forall i, j | 0 <= i < j < |r| ensures !SameSlot(r[j], r[i].directory, r[i].name) {
          if i == 0 {
            assert r[j] in tail;
            var k :| 0 <= k < |tail| && tail[k] == r[j];
            assert files[k + 1] == r[j];
          } else {
            assert r[i] == rest[i - 1] && r[j] == rest[j - 1];
          }
        }
      }
    }
  }

  lemma SaveKeepsUnique(files: seq<StoredFile>, f: StoredFile)
    requires UniqueSlots(files)
    ensures UniqueSlots(Save(files, f))
  {
    RemoveKeepsUnique(files, f.directory, f.name);
    RemoveMembers(files, f.directory, f.name);
    var rest := Remove(files, f.directory, f.name);
    var r := rest + [f];
    forall i, j | 0 <= i < j < |r| ensures !SameSlot(r[j], r[i].directory, r[i].name) {
      if j == |rest| {
        assert r[i] in rest;
      } else {
        assert r[i] == rest[i] && r[j] == rest[j];
      }
    }
  }

  /** Deleting a name that is not stored changes nothing. */
  lemma {:induction false} RemoveAbsent(files: seq<StoredFile>, directory: string, name: string)
    requires forall g :: g in files ==> !SameSlot(g, directory, name)
    ensures Remove(files, directory, name) == files
  {
    if files != [] {
      RemoveAbsent(files[1..], directory, name);
      assert [files[0]] + files[1..] == files;
    }
  }

  /**
   * The compensating delete undoes the save: saving a file under a fresh name
   * and then deleting it leaves the store exactly as it was.
   */
  lemma {:induction false} RemoveUndoesSave(files: seq<StoredFile>, f: StoredFile)
    requires forall g :: g in files ==> !SameSlot(g, f.directory, f.name)
    ensures Remove(Save(files, f), f.directory, f.name) == files
  {
    RemoveAbsent(files, f.directory, f.name);
    RemoveSnoc(files, f, f.directory, f.name);
  }

  lemma {:induction false} RemoveSnoc(files: seq<StoredFile>, f: StoredFile, directory: string, name: string)
    ensures Remove(files + [f], directory, name) ==
      Remove(files, directory, name) + (if SameSlot(f, directory, name) then [] else [f])
  {
    if files == [] {
      assert [f][1..] == [];
    } else {
      var head := if SameSlot(files[0], directory, name) then [] else [files[0]];
      var last := if SameSlot(f, directory, name) then [] else [f];
      RemoveSnoc(files[1..], f, directory, name);
      assert (files + [f])[1..] == files[1..] + [f];
      calc {
        Remove(files + [f], directory, name);
        head + Remove(files[1..] + [f], directory, name);
        head + (Remove(files[1..], directory, name) + last);
        (head + Remove(files[1..], directory, name)) + last;
        Remove(files, directory, name) + last;
      }
    }
  }

  lemma {:induction false} ListingSnoc(files: seq<StoredFile>, f: StoredFile, directory: string)
    ensures Listing(files + [f], directory) == Listing(files, directory) + (if f.directory == directory then [f] else [])
  {
    if files == [] {
      assert [f][1..] == [];
    } else {
      var head := if files[0].directory == directory then [files[0]] else [];
      var last := if f.directory == directory then [f] else [];
      var rest := Listing(files[1..], directory);
      assert Listing(files[1..] + [f], directory) == rest + last by {
        ListingSnoc(files[1..], f, directory);
      }
      assert Listing(files + [f], directory) == head + Listing(files[1..] + [f], directory) by {
        assert (files + [f])[0] == files[0];
        assert (files + [f])[1..] == files[1..] + [f];
      }
      assert head + (rest + last) == (head + rest) + last;
    }
  }

  /** Saving a file adds it at the end of its directory's listing when its name is fresh. */
  lemma {:induction false} ListingAfterSave(files: seq<StoredFile>, f: StoredFile)
    requires forall g :: g in files ==> !SameSlot(g, f.directory, f.name)
    ensures Listing(Save(files, f), f.directory) == Listing(files, f.directory) + [f]
  {
    RemoveAbsent(files, f.directory, f.name);
    ListingSnoc(files, f, f.directory);
  }

  /**
   * A freshly stored dataset file is the one both lookups return, as long as
   * no earlier file of the directory mentions the dataset id.
   */
  /** No file of the directory mentions the dataset id yet. */
  predicate IdUnused(files: seq<StoredFile>, directory: string, datasetId: string)
  {
    forall g :: g in files && g.directory == directory ==> !Contains(g.name, datasetId)
  }

  lemma UploadedFileFound(files: seq<StoredFile>, directory: string, datasetId: string, date: string, lines: seq<string>)
    requires IdUnused(files, directory, datasetId)
    ensures var f := StoredFile(directory, DatasetFileName(datasetId, date), lines);
      FileWithId(Save(files, f), directory, datasetId) == Some(f) &&
      FileMatchingPattern(Save(files, f), directory, datasetId) == Some(f)
  {
    var f := StoredFile(directory, DatasetFileName(datasetId, date), lines);
    FileNameFound(datasetId, date);
    ListingAfterSave(files, f);
    var before := Listing(files, directory);
    ListingMembers(files, directory);
    forall g | g in before ensures !Contains(g.name, DatasetPrefix(datasetId)) {
      PrefixMentionsId(g.name, datasetId);
    }
    FirstWithAppend(before, f, datasetId);
    FirstWithAppend(before, f, DatasetPrefix(datasetId));
  }

  /** A name matching *dataset-<id>-* contains the id. */
  lemma PrefixMentionsId(name: string, datasetId: string)
    ensures Contains(name, DatasetPrefix(datasetId)) ==> Contains(name, datasetId)
  {
    if Contains(name, DatasetPrefix(datasetId)) {
      var i :| 0 <= i <= |name| - |DatasetPrefix(datasetId)| && OccursAt(name, DatasetPrefix(datasetId), i);
      var p := DatasetPrefix(datasetId);
      assert name[i..i + |p|] == p;
      forall k | 0 <= k < |datasetId| ensures name[i + 8 + k] == datasetId[k] {
        assert name[i + 8 + k] == name[i..i + |p|][8 + k];
        assert p[8 + k] == datasetId[k];
      }
      assert name[i + 8..i + 8 + |datasetId|] == datasetId;
      assert OccursAt(name, datasetId, i + 8);
    }
  }

  lemma FirstWithAppend(listing: seq<StoredFile>, f: StoredFile, fragment: string)
    requires forall g :: g in listing ==> !Contains(g.name, fragment)
    requires Contains(f.name, fragment)
    ensures FirstWith(listing + [f], fragment) == Some(f)
  {
    assert (listing + [f])[|listing|] == f;
    forall j | 0 <= j < |listing| ensures !Contains((listing + [f])[j].name, fragment) {
      assert (listing + [f])[j] in listing;
    }
  }

  /** Download text read back line by line: the stored lines and the empty rest after the last '\n'. */
  lemma {:induction false} EmitSplit(lines: seq<string>)
    requires forall j :: 0 <= j < |lines| ==> '\n' !in lines[j]
    ensures SplitAll(Emit(lines), '\n') == lines + [""]
  {
    EmitJoin(lines);
    SplitJoin(lines + [""], '\n');
  }

  lemma {:induction false} EmitJoin(lines: seq<string>)
    ensures Emit(lines) == Join(lines + [""], '\n')
  {
    if lines != [] {
      var init := lines[..|lines| - 1];
      var pieces := init + [""];
      EmitJoin(init);
      JoinSnoc(pieces, lines[|lines| - 1], '\n');
      assert pieces[..|pieces| - 1] == init;
      assert lines + [""] == init + [lines[|lines| - 1], ""];
    }
  }

  lemma {:induction false} JoinSnoc(pieces: seq<string>, last: string, sep: char)
    requires |pieces| >= 1 && pieces[|pieces| - 1] == ""
    ensures Join(pieces[..|pieces| - 1] + [last, ""], sep) == Join(pieces, sep) + last + [sep]
  {
    if |pieces| == 1 {
      assert pieces[..0] + [last, ""] == [last, ""];
    } else {
      var tail := pieces[1..];
      JoinSnoc(tail, last, sep);
      assert pieces[..|pieces| - 1] + [last, ""] == [pieces[0]] + (tail[..|tail| - 1] + [last, ""]);
    }
  }
}
