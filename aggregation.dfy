/**
 * Visitor-path aggregation: decode every data row of a dataset file (dropping
 * rows that do not decode), sort the tracks by (visitorId, firstTimeSeen),
 * drop tracks with regionId <= 0 and group the remaining region ids by
 * visitor, keeping their sorted order.
 */
module Aggregation {
  import opened Wrappers
  import opened JavaText
  import opened VisitorTrack
  import opened TrackSort
  import opened JavaNumbers

  /** The rows a CSV reader yields for the lines of a file without quoted fields. */
  function CsvRows(lines: seq<string>): (rows: seq<seq<string>>)
    ensures |rows| == |lines|
    ensures forall i :: 0 <= i < |lines| ==> rows[i] != [] && Join(rows[i], ',') == lines[i]
    ensures forall i, j :: 0 <= i < |lines| && 0 <= j < |rows[i]| ==> ',' !in rows[i][j]
  {
    seq(|lines|, i requires 0 <= i < |lines| => SplitAll(lines[i], ','))
  }

  /** The reader is built to skip one line: the header. */
  function DataRows(rows: seq<seq<string>>): seq<seq<string>>
  {
    if rows == [] then [] else rows[1..]
  }

  /** The decoder's answer for every row, in file order. */
  function Attempts(rows: seq<seq<string>>): (r: seq<Option<Track>>)
    ensures |r| == |rows|
    ensures forall i :: 0 <= i < |rows| ==> r[i] == CreateVisitorTrack(rows[i])
  {
    seq(|rows|, i requires 0 <= i < |rows| => CreateVisitorTrack(rows[i]))
  }

  /** The records among the answers, in order; a null answer adds nothing. */
  function Present(answers: seq<Option<Track>>): seq<Track>
  {
    if answers == [] then []
    else
      var last := answers[|answers| - 1];
      Present(answers[..|answers| - 1]) + (if last.Some? then [last.value] else [])
  }

  /** The tracks of every decodable row, in file order. */
  function Decoded(rows: seq<seq<string>>): seq<Track>
  {
    Present(Attempts(rows))
  }

  /** The reading loop: rows that decode are appended, the others are skipped. */
  method DecodeRows(rows: seq<seq<string>>) returns (tracks: seq<Track>)
    ensures tracks == Decoded(rows)
  {
    ghost var answers := Attempts(rows);
    tracks := [];
    var i := 0;
    while i < |rows|
      invariant 0 <= i <= |rows|
      invariant tracks == Present(answers[..i])
    {
      var track := CreateVisitorTrack(rows[i]);
      if track.Some? {
        tracks := tracks + [track.value];
      }
      assert answers[..i + 1][..i] == answers[..i];
      i := i + 1;
    }
    assert answers[..i] == answers;
  }

  /** The tracks of one visitor, in their order in s. */
  function RowsOf(s: seq<Track>, visitor: int): seq<Track>
  {
    if s == [] then []
    else
      var last := s[|s| - 1];
      RowsOf(s[..|s| - 1], visitor) + (if last.visitorId == visitor then [last] else [])
  }

  /** The positive region ids of a sequence of tracks, in order. */
  function RegionPath(rows: seq<Track>): seq<int>
  {
    if rows == [] then []
    else
      var last := rows[|rows| - 1];
      RegionPath(rows[..|rows| - 1]) + (if last.regionId > 0 then [last.regionId] else [])
  }

  /**
   * Collectors.groupingBy(visitorId, mapping(regionId, toList())) over the
   * tracks with regionId > 0: each visitor maps to its region ids in encounter
   * order, and only visitors with at least one such track appear.
   */
  function GroupPaths(s: seq<Track>): (m: map<int, seq<int>>)
    ensures forall v :: v in m ==> m[v] != []
    ensures forall v, j :: v in m && 0 <= j < |m[v]| ==> m[v][j] > 0
  {
    if s == [] then map[]
    else
      var m := GroupPaths(s[..|s| - 1]);
      var t := s[|s| - 1];
      if t.regionId > 0 then
        m[t.visitorId := (if t.visitorId in m then m[t.visitorId] else []) + [t.regionId]]
      else m
  }

  /** The visitor paths of a dataset file's data rows. */
  function Aggregate(rows: seq<seq<string>>): (m: map<int, seq<int>>)
    ensures forall v :: v in m ==> m[v] != []
    ensures forall v, j :: v in m && 0 <= j < |m[v]| ==> m[v][j] > 0
  {
    GroupPaths(Sort(Decoded(rows)))
  }

  // ---------------------------------------------------------------------------
  // Properties

  /** The lines of a dataset file holding the given records, one per line, behind a header. */
  function RenderedFile(header: string, tracks: seq<Track>, deviceId: string, deviceType: string): (lines: seq<string>)
    ensures |lines| == |tracks| + 1 && lines[0] == header
  {
    [header] + seq(|tracks|, i requires 0 <= i < |tracks| => Join(Row(tracks[i], deviceId, deviceType), ','))
  }

  /** Answers that are all present give back their values, in order. */
  lemma {:induction false} PresentAll(answers: seq<Option<Track>>, tracks: seq<Track>)
    requires |answers| == |tracks|
    requires forall i :: 0 <= i < |answers| ==> answers[i] == Some(tracks[i])
    ensures Present(answers) == tracks
  {
    if answers != [] {
      var n := |answers| - 1;
      PresentAll(answers[..n], tracks[..n]);
      assert tracks == tracks[..n] + [tracks[n]];
    }
  }

  /** One record's line reads back, through the CSV split and the decoder, as that record. */
  lemma RenderedLineDecodes(t: Track, deviceId: string, deviceType: string)
    requires IsInt(t.siteId) && IsInt(t.regionId) && LongMin <= t.visitorId <= LongMax
    requires IsInt(t.populationType) && IsInt(t.globalId)
    requires ',' !in t.firstTimeSeen && ',' !in t.lastTimeSeen && ',' !in deviceId && ',' !in deviceType
    ensures CreateVisitorTrack(SplitAll(Join(Row(t, deviceId, deviceType), ','), ',')) == Some(t)
  {
    var row := Row(t, deviceId, deviceType);
    DecimalStringVisible(t.siteId);
    DecimalStringVisible(t.regionId);
    DecimalStringVisible(t.visitorId);
    DecimalStringVisible(t.populationType);
    DecimalStringVisible(t.globalId);
    assert forall j :: 0 <= j < |row| ==> ',' !in row[j];
    SplitJoin(row, ',');
    DecodesRenderedRow(t, deviceId, deviceType);
  }

  /** The line a rendered file holds for its i-th record. */
  lemma RenderedLine(header: string, tracks: seq<Track>, deviceId: string, deviceType: string, i: nat)
    requires i < |tracks|
    ensures RenderedFile(header, tracks, deviceId, deviceType)[i + 1] == Join(Row(tracks[i], deviceId, deviceType), ',')
  {
  }

  /** The i-th data row of a rendered file decodes to the i-th record. */
  lemma RenderedRowDecodes(lines: seq<string>, rows: seq<seq<string>>, i: nat, t: Track, deviceId: string, deviceType: string)
    requires 0 <= i < |lines| - 1 && lines[i + 1] == Join(Row(t, deviceId, deviceType), ',')
    requires rows == DataRows(CsvRows(lines))
    requires IsInt(t.siteId) && IsInt(t.regionId) && LongMin <= t.visitorId <= LongMax
    requires IsInt(t.populationType) && IsInt(t.globalId)
    requires ',' !in t.firstTimeSeen && ',' !in t.lastTimeSeen && ',' !in deviceId && ',' !in deviceType
    ensures CreateVisitorTrack(rows[i]) == Some(t)
  {
    assert rows[i] == SplitAll(lines[i + 1], ',');
    RenderedLineDecodes(t, deviceId, deviceType);
  }

  /** Rows that all decode give back their records, in order. */
  lemma DecodedAll(rows: seq<seq<string>>, tracks: seq<Track>)
    requires |rows| == |tracks|
    requires forall i :: 0 <= i < |rows| ==> CreateVisitorTrack(rows[i]) == Some(tracks[i])
    ensures Decoded(rows) == tracks
  {
    PresentAll(Attempts(rows), tracks);
  }

  /**
   * A file written as a header and one comma-joined row per record reads back
   * as exactly those records, in order, when every number is within its Java
   * type and no text field holds a comma.
   */
  lemma RenderedFileDecodes(header: string, tracks: seq<Track>, deviceId: string, deviceType: string)
    requires forall t :: t in tracks ==>
      && IsInt(t.siteId) && IsInt(t.regionId) && LongMin <= t.visitorId <= LongMax
      && IsInt(t.populationType) && IsInt(t.globalId)
      && ',' !in t.firstTimeSeen && ',' !in t.lastTimeSeen
    requires ',' !in deviceId && ',' !in deviceType
    ensures Decoded(DataRows(CsvRows(RenderedFile(header, tracks, deviceId, deviceType)))) == tracks
  {
    var lines := RenderedFile(header, tracks, deviceId, deviceType);
    var rows := DataRows(CsvRows(lines));
    assert |rows| == |tracks|;
    assert forall i :: 0 <= i < |rows| ==> CreateVisitorTrack(rows[i]) == Some(tracks[i]) by {
      forall i | 0 <= i < |tracks|
        ensures CreateVisitorTrack(rows[i]) == Some(tracks[i])
      {
        RenderedLine(header, tracks, deviceId, deviceType, i);
        RenderedRowDecodes(lines, rows, i, tracks[i], deviceId, deviceType);
      }
    }
    DecodedAll(rows, tracks);
  }

  /** Reading back lines written as comma-joined fields gives the fields back. */
  lemma CsvRowsOfJoined(rows: seq<seq<string>>)
    requires forall i :: 0 <= i < |rows| ==> rows[i] != []
    requires forall i, j :: 0 <= i < |rows| && 0 <= j < |rows[i]| ==> ',' !in rows[i][j]
    ensures CsvRows(seq(|rows|, i requires 0 <= i < |rows| => Join(rows[i], ','))) == rows
  {
    var lines := seq(|rows|, i requires 0 <= i < |rows| => Join(rows[i], ','));
    forall i | 0 <= i < |rows|
      ensures CsvRows(lines)[i] == rows[i]
    {
      SplitJoin(rows[i], ',');
    }
  }

  lemma {:induction false} PresentAppend(a: seq<Option<Track>>, b: seq<Option<Track>>)
    ensures Present(a + b) == Present(a) + Present(b)
    decreases |b|
  {
    if b == [] {
      assert a + b == a;
    } else {
      assert (a + b)[..|a + b| - 1] == a + b[..|b| - 1];
      PresentAppend(a, b[..|b| - 1]);
    }
  }

  lemma DecodedAppend(a: seq<seq<string>>, b: seq<seq<string>>)
    ensures Decoded(a + b) == Decoded(a) + Decoded(b)
  {
    AttemptsAppend(a, b);
    PresentAppend(Attempts(a), Attempts(b));
  }

  lemma AttemptsAppend(a: seq<seq<string>>, b: seq<seq<string>>)
    ensures Attempts(a + b) == Attempts(a) + Attempts(b)
  {
    var whole, left, right := Attempts(a + b), Attempts(a), Attempts(b);
    forall i | 0 <= i < |whole| ensures whole[i] == (left + right)[i] {
      if i < |a| {
        calc {
          whole[i];
          CreateVisitorTrack((a + b)[i]);
          { assert (a + b)[i] == a[i]; }
          left[i];
        }
      } else {
        calc {
          whole[i];
          CreateVisitorTrack((a + b)[i]);
          { assert (a + b)[i] == b[i - |a|]; }
          right[i - |a|];
        }
      }
    }
  }

  /** A malformed row is dropped without affecting how the rows around it decode. */
  lemma BadRowSkipped(before: seq<seq<string>>, bad: seq<string>, after: seq<seq<string>>)
    requires CreateVisitorTrack(bad) == None
    ensures Decoded(before + [bad] + after) == Decoded(before + after)
  {
    var answers := Attempts([bad]);
    assert answers[..0] == [] && answers[0] == None;
    assert Present(answers) == [];
    DecodedAppend(before + [bad], after);
    DecodedAppend(before, [bad]);
    DecodedAppend(before, after);
  }

  lemma {:induction false} PresentMembers(answers: seq<Option<Track>>)
    ensures |Present(answers)| <= |answers|
    ensures forall t :: t in Present(answers) <==> Some(t) in answers
  {
    if answers != [] {
      PresentMembers(answers[..|answers| - 1]);
      assert answers == answers[..|answers| - 1] + [answers[|answers| - 1]];
    }
  }

  /**
   * The decoded tracks are exactly the records of the rows that decode, and
   * there are no more of them than rows.
   */
  lemma DecodedMembers(rows: seq<seq<string>>)
    ensures |Decoded(rows)| <= |rows|
    ensures forall t :: t in Decoded(rows) <==> exists i :: 0 <= i < |rows| && CreateVisitorTrack(rows[i]) == Some(t)
  {
    var answers := Attempts(rows);
    PresentMembers(answers);
    forall t ensures Some(t) in answers <==> exists i :: 0 <= i < |rows| && CreateVisitorTrack(rows[i]) == Some(t) {
      if Some(t) in answers {
        var i :| 0 <= i < |answers| && answers[i] == Some(t);
        assert CreateVisitorTrack(rows[i]) == Some(t);
      }
    }
  }

  lemma {:induction false} RowsOfMembers(s: seq<Track>, visitor: int)
    ensures forall t :: t in RowsOf(s, visitor) <==> t in s && t.visitorId == visitor
  {
    if s != [] {
      RowsOfMembers(s[..|s| - 1], visitor);
      assert s == s[..|s| - 1] + [s[|s| - 1]];
    }
  }

  /** Selecting one visitor's tracks commutes with rearranging the tracks. */
  lemma {:induction false} RowsOfCount(s: seq<Track>, visitor: int, t: Track)
    ensures multiset(RowsOf(s, visitor))[t] == if t.visitorId == visitor then multiset(s)[t] else 0
  {
    if s != [] {
      RowsOfCount(s[..|s| - 1], visitor, t);
      assert s == s[..|s| - 1] + [s[|s| - 1]];
    }
  }

  lemma RowsOfPermutation(s: seq<Track>, r: seq<Track>, visitor: int)
    requires multiset(s) == multiset(r)
    ensures multiset(RowsOf(s, visitor)) == multiset(RowsOf(r, visitor))
  {
    forall t ensures multiset(RowsOf(s, visitor))[t] == multiset(RowsOf(r, visitor))[t] {
      RowsOfCount(s, visitor, t);
      RowsOfCount(r, visitor, t);
    }
  }

  /** In a sorted sequence, one visitor's tracks are in firstTimeSeen order. */
  lemma {:induction false} RowsOfSorted(s: seq<Track>, visitor: int)
    requires Sorted(s)
    ensures forall i, j :: 0 <= i < j < |RowsOf(s, visitor)| ==>
      StrLe(RowsOf(s, visitor)[i].firstTimeSeen, RowsOf(s, visitor)[j].firstTimeSeen)
  {
    if s != [] {
      var init := s[..|s| - 1];
      var last := s[|s| - 1];
      assert Sorted(init);
      RowsOfSorted(init, visitor);
      RowsOfMembers(init, visitor);
      var r := RowsOf(s, visitor);
      var ri := RowsOf(init, visitor);
      forall i, j | 0 <= i < j < |r|
        ensures StrLe(r[i].firstTimeSeen, r[j].firstTimeSeen)
      {
        if j >= |ri| {
          assert r[j] == last && last.visitorId == visitor;
          assert r[i] == ri[i] && ri[i] in init;
          var k :| 0 <= k < |init| && init[k] == ri[i];
          assert Le(s[k], s[|s| - 1]);
        } else {
          assert r[i] == ri[i] && r[j] == ri[j];
        }
      }
    }
  }

  lemma {:induction false} RegionPathMembers(rows: seq<Track>)
    ensures RegionPath(rows) != [] <==> exists t :: t in rows && t.regionId > 0
  {
    if rows != [] {
      RegionPathMembers(rows[..|rows| - 1]);
      assert rows == rows[..|rows| - 1] + [rows[|rows| - 1]];
    }
  }

  /** groupingBy gives each visitor exactly the positive region ids of its tracks, in order. */
  lemma {:induction false} GroupPathsSpec(s: seq<Track>, visitor: int)
    ensures visitor in GroupPaths(s) <==> RegionPath(RowsOf(s, visitor)) != []
    ensures visitor in GroupPaths(s) ==> GroupPaths(s)[visitor] == RegionPath(RowsOf(s, visitor))
  {
    if s != [] {
      var init := s[..|s| - 1];
      var t := s[|s| - 1];
      GroupPathsSpec(init, visitor);
      var ri := RowsOf(init, visitor);
      if t.visitorId == visitor {
        assert RowsOf(s, visitor) == ri + [t];
        assert (ri + [t])[..|ri + [t]| - 1] == ri;
      } else {
        assert RowsOf(s, visitor) == ri;
      }
    }
  }

  /**
   * A visitor's path is the positive region ids of that visitor's decoded rows,
   * taken in firstTimeSeen order; rows with equal firstTimeSeen keep file order.
   */
  lemma VisitorPath(rows: seq<seq<string>>, visitor: int)
    ensures var tracks := Decoded(rows);
      var ordered := RowsOf(Sort(tracks), visitor);
      && (visitor in Aggregate(rows) <==> RegionPath(ordered) != [])
      && (visitor in Aggregate(rows) ==> Aggregate(rows)[visitor] == RegionPath(ordered))
      && multiset(ordered) == multiset(RowsOf(tracks, visitor))
      && (forall i, j :: 0 <= i < j < |ordered| ==> StrLe(ordered[i].firstTimeSeen, ordered[j].firstTimeSeen))
      && (forall time :: WithKey(Sort(tracks), visitor, time) == WithKey(tracks, visitor, time))
  {
    var tracks := Decoded(rows);
    GroupPathsSpec(Sort(tracks), visitor);
    SortPermutes(tracks);
    RowsOfPermutation(Sort(tracks), tracks, visitor);
    SortSorts(tracks);
    RowsOfSorted(Sort(tracks), visitor);
    forall time ensures WithKey(Sort(tracks), visitor, time) == WithKey(tracks, visitor, time) {
      SortStable(tracks, visitor, time);
    }
  }

  /** A visitor appears in the map iff at least one of its decoded rows has regionId > 0. */
  lemma VisitorPresent(rows: seq<seq<string>>, visitor: int)
    ensures visitor in Aggregate(rows) <==>
      exists t :: t in Decoded(rows) && t.visitorId == visitor && t.regionId > 0
  {
    var tracks := Decoded(rows);
    var ordered := RowsOf(Sort(tracks), visitor);
    VisitorPath(rows, visitor);
    RegionPathMembers(ordered);
    RowsOfMembers(tracks, visitor);
    assert forall t :: t in ordered <==> t in RowsOf(tracks, visitor) by {
      forall t ensures t in ordered <==> t in RowsOf(tracks, visitor) {
        assert t in ordered <==> multiset(ordered)[t] > 0;
      }
    }
  }
}
