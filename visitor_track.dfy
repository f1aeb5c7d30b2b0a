/**
 * One sighting row of a mobility CSV file and its decoder. The positional
 * columns are site_id, region_id, visitor_id, device_id, device_type,
 * population_type, global_id, first_time_seen, last_time_seen.
 */
module VisitorTrack {
  import opened Wrappers
  import opened JavaNumbers

  /** A decoded sighting; visitorId is a Java long, the other ids Java ints. */
  datatype Track = Track(
    siteId: int,
    regionId: int,
    visitorId: int,
    populationType: int,
    globalId: int,
    firstTimeSeen: string,
    lastTimeSeen: string)

  /** Reading metadata[i]; None stands for ArrayIndexOutOfBoundsException. */
  function At(metadata: seq<string>, i: nat): (r: Option<string>)
    ensures r.Some? <==> i < |metadata|
    ensures r.Some? ==> r.value == metadata[i]
  {
    if i < |metadata| then Some(metadata[i]) else None
  }

  /**
   * createVisitorTrack: every failure (a missing column or a number that does
   * not parse) is caught and turned into null, here None. A row is accepted
   * exactly when it has at least nine columns, columns 0, 1, 5 and 6 parse as
   * ints and column 2 as a long; the record holds those numbers and columns 7
   * and 8 verbatim.
   */
  function CreateVisitorTrack(metadata: seq<string>): (r: Option<Track>)
    ensures r.Some? <==>
      && |metadata| >= 9
      && ParseInt(metadata[0]).Some? && ParseInt(metadata[1]).Some?
      && ParseLong(metadata[2]).Some?
      && ParseInt(metadata[5]).Some? && ParseInt(metadata[6]).Some?
    ensures r.Some? ==>
      && IsInt(r.value.siteId) && IsInt(r.value.regionId) && LongMin <= r.value.visitorId <= LongMax
      && IsInt(r.value.populationType) && IsInt(r.value.globalId)
      && r.value.siteId == DecimalValue(metadata[0])
      && r.value.regionId == DecimalValue(metadata[1])
      && r.value.visitorId == DecimalValue(metadata[2])
      && r.value.populationType == DecimalValue(metadata[5])
      && r.value.globalId == DecimalValue(metadata[6])
      && r.value.firstTimeSeen == metadata[7]
      && r.value.lastTimeSeen == metadata[8]
  {
    var s0 :- At(metadata, 0);
    var siteId :- ParseInt(s0);
    var s1 :- At(metadata, 1);
    var regionId :- ParseInt(s1);
    var s2 :- At(metadata, 2);
    var visitorId :- ParseLong(s2);
    var s5 :- At(metadata, 5);
    var populationType :- ParseInt(s5);
    var s6 :- At(metadata, 6);
    var globalId :- ParseInt(s6);
    var beginTime :- At(metadata, 7);
    var endTime :- At(metadata, 8);
    Some(Track(siteId, regionId, visitorId, populationType, globalId, beginTime, endTime))
  }

  /** The device columns (3 and 4) never influence the decoded record. */
  lemma DeviceColumnsIgnored(metadata: seq<string>, deviceId: string, deviceType: string)
    requires |metadata| > 4
    ensures CreateVisitorTrack(metadata[3 := deviceId][4 := deviceType]) == CreateVisitorTrack(metadata)
  {
  }

  /** Encoding a record's numbers with Integer/Long.toString and decoding gives the record back. */
  lemma {:induction false} DecodesRenderedRow(t: Track, deviceId: string, deviceType: string)
    requires IsInt(t.siteId) && IsInt(t.regionId) && LongMin <= t.visitorId <= LongMax
    requires IsInt(t.populationType) && IsInt(t.globalId)
    ensures CreateVisitorTrack(Row(t, deviceId, deviceType)) == Some(t)
  {
    var c0, c1, c2 := DecimalString(t.siteId), DecimalString(t.regionId), DecimalString(t.visitorId);
    var c5, c6 := DecimalString(t.populationType), DecimalString(t.globalId);
    IntParsesBack(t.siteId, c0);
    IntParsesBack(t.regionId, c1);
    LongParsesBack(t.visitorId, c2);
    IntParsesBack(t.populationType, c5);
    IntParsesBack(t.globalId, c6);
    DecodesColumns(t, c0, c1, c2, deviceId, deviceType, c5, c6);
  }

  lemma IntParsesBack(n: int, s: string)
    requires IsInt(n) && s == DecimalString(n)
    ensures ParseInt(s) == Some(n)
  {
    ParseOfDecimalString(n, IntMin, IntMax);
  }

  lemma LongParsesBack(n: int, s: string)
    requires LongMin <= n <= LongMax && s == DecimalString(n)
    ensures ParseLong(s) == Some(n)
  {
    ParseOfDecimalString(n, LongMin, LongMax);
  }

  /** A row whose number columns parse to a record's fields decodes to that record. */
  lemma DecodesColumns(t: Track, c0: string, c1: string, c2: string, c3: string, c4: string, c5: string, c6: string)
    requires ParseInt(c0) == Some(t.siteId) && ParseInt(c1) == Some(t.regionId)
    requires ParseLong(c2) == Some(t.visitorId)
    requires ParseInt(c5) == Some(t.populationType) && ParseInt(c6) == Some(t.globalId)
    ensures CreateVisitorTrack([c0, c1, c2, c3, c4, c5, c6, t.firstTimeSeen, t.lastTimeSeen]) == Some(t)
  {
    var row := [c0, c1, c2, c3, c4, c5, c6, t.firstTimeSeen, t.lastTimeSeen];
    assert At(row, 0) == Some(c0) && At(row, 1) == Some(c1) && At(row, 2) == Some(c2);
    assert At(row, 5) == Some(c5) && At(row, 6) == Some(c6);
    assert At(row, 7) == Some(t.firstTimeSeen) && At(row, 8) == Some(t.lastTimeSeen);
  }

  /** The CSV columns a record is written as. */
  function Row(t: Track, deviceId: string, deviceType: string): (row: seq<string>)
    ensures |row| == 9
  {
    [DecimalString(t.siteId), DecimalString(t.regionId), DecimalString(t.visitorId),
     deviceId, deviceType, DecimalString(t.populationType), DecimalString(t.globalId),
     t.firstTimeSeen, t.lastTimeSeen]
  }
}
