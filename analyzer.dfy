/** `TripAnalyzer`: the zone map it owns, the streaming ingest that fills
    it, and the two ranked queries over it. */
module Analyzer {
  import opened Bytes
  import opened Spans
  import opened Fields
  import opened Splitter
  import opened Aggregate
  import opened Ranking

  /** A zone and its trip count, as `topZones` reports it. */
  datatype ZoneCount = ZoneCount(zone: seq<byte>, count: nat)

  /** A zone, an hour of the day and the trips of that zone in that hour. */
  datatype SlotCount = SlotCount(zone: seq<byte>, hour: int, count: nat)

  /** `compareZones`: more trips first, then the zone name ascending (a name
      before every longer name it is a prefix of). */
  predicate ZoneBetter(a: ZoneCount, b: ZoneCount): (r: bool)
    ensures a.count > b.count ==> r
    ensures a.count < b.count ==> !r
    ensures a.count == b.count && |a.zone| < |b.zone| && a.zone == b.zone[..|a.zone|] ==> r
    ensures r ==> a != b
  {
    if a.count != b.count then a.count > b.count else LexLess(a.zone, b.zone)
  }

  /** `compareSlots`: more trips first, then the zone name ascending, then
      the hour ascending. */
  predicate SlotBetter(a: SlotCount, b: SlotCount): (r: bool)
    ensures a.count > b.count ==> r
    ensures a.count < b.count ==> !r
    ensures a.count == b.count && a.zone == b.zone ==> (r <==> a.hour < b.hour)
    ensures r ==> a != b
  {
    if a.count != b.count then a.count > b.count
    else if a.zone != b.zone then LexLess(a.zone, b.zone)
    else a.hour < b.hour
  }

  /** `compareZones` is a strict total order on zone counts, so a ranking
      by it has no ties. */
  lemma ZoneBetterIsStrictTotalOrder()
    ensures StrictTotalOrder(ZoneBetter)
  {
    forall a ensures !ZoneBetter(a, a) {
      LexLessIrreflexive(a.zone);
    }
    forall a, b, c | ZoneBetter(a, b) && ZoneBetter(b, c) ensures ZoneBetter(a, c) {
      if a.count == b.count == c.count {
        LexLessTransitive(a.zone, b.zone, c.zone);
      }
    }
    forall a, b | a != b ensures ZoneBetter(a, b) || ZoneBetter(b, a) {
      if a.count == b.count {
        LexLessTotal(a.zone, b.zone);
      }
    }
  }

  /** `compareSlots` is a strict total order on slot counts. */
  lemma SlotBetterIsStrictTotalOrder()
    ensures StrictTotalOrder(SlotBetter)
  {
    forall a ensures !SlotBetter(a, a) {
    }
    forall a, b, c | SlotBetter(a, b) && SlotBetter(b, c) ensures SlotBetter(a, c) {
      if a.count == b.count == c.count {
        if a.zone != b.zone && b.zone != c.zone {
          LexLessTransitive(a.zone, b.zone, c.zone);
        }
        if a.zone == c.zone && a.zone != b.zone {
          LexLessTransitive(a.zone, b.zone, a.zone);
          LexLessIrreflexive(a.zone);
        }
      }
    }
    forall a, b | a != b ensures SlotBetter(a, b) || SlotBetter(b, a) {
      if a.count == b.count && a.zone != b.zone {
        LexLessTotal(a.zone, b.zone);
      }
    }
  }

  /** The candidates of `topZones`: one per zone, with its total. */
  ghost function ZoneCandidates(zones: Zones): set<ZoneCount> {
    set z | z in zones :: ZoneCount(z, zones[z].total)
  }

  /** `c` is a candidate of `topBusySlots`: an hour of a zone with a
      positive count. */
  predicate IsSlotOf(zones: Zones, c: SlotCount) {
    c.zone in zones && 0 <= c.hour < 24 && c.count == zones[c.zone].byHour[c.hour] && c.count > 0
  }

  /** The candidates of `topBusySlots`. */
  ghost function SlotCandidates(zones: Zones): set<SlotCount> {
    set z, h | z in zones && 0 <= h < 24 && zones[z].byHour[h] > 0 :: SlotCount(z, h, zones[z].byHour[h])
  }

  /** The parsing part of the loop body (the carriage-return strip, the
      blank test, the byte-order mark and the whitespace skips): whether
      the segment is blank, and otherwise the span handed to
      `parseThreeFields`. */
  method ReadPayload(seg: seq<byte>, bomPending: bool) returns (blank: bool, p: Span)
    ensures blank == IsBlank(seg)
    ensures !blank ==> p == Payload(seg, bomPending)
  {
    var lineEnd := |seg|;
    if lineEnd > 0 && seg[lineEnd - 1] == CR {
      lineEnd := lineEnd - 1;
    }
    p := Span(0, lineEnd);
    if lineEnd == 0 {
      return true, p;
    }
    var start := SkipLeading(seg, p);
    if start == lineEnd {
      return true, p;
    }
    var sp := Span(start, lineEnd);
    if bomPending {
      sp := SkipBOM(seg, sp);
    }
    start := SkipLeading(seg, sp);
    return false, Span(start, lineEnd);
  }

  /** The checks of the loop body on one segment, in the order the loop
      makes them. */
  method ReadRow(seg: seq<byte>, bomPending: bool, headerPending: bool) returns (row: Row)
    ensures row == Classify(seg, bomPending, headerPending)
  {
    var blank, p := ReadPayload(seg, bomPending);
    if blank {
      return Blank;
    }
    if p.lo == p.hi {
      assert IdOf(seg, bomPending).None?;
      return NoId;
    }
    var ok, f0, f1, f2 := ParseThreeFields(seg, p);
    if !ok {
      assert FieldsOf(seg, bomPending).None?;
      assert IdOf(seg, bomPending).None?;
      return NoId;
    }
    var t := Triple(f0, f1, f2);
    assert FieldsOf(seg, bomPending) == Some(t);
    var id := CleanBounds(seg, f0);
    if id.lo == id.hi {
      assert IdOf(seg, bomPending).None?;
      return NoId;
    }
    assert IdOf(seg, bomPending) == Some(id);
    if headerPending && id.hi - id.lo == 6 && seg[id.lo..id.hi] == HEADER {
      return Header;
    }
    assert !(headerPending && seg[id.lo..id.hi] == HEADER);
    row := ReadTrip(seg, t);
  }

  /** The zone and hour checks of a row with a non-empty id. */
  method ReadTrip(seg: seq<byte>, t: Triple) returns (row: Row)
    requires t.f1.Within(seg) && t.f2.Within(seg)
    ensures row == Accept(seg, t)
  {
    var zone := CleanBounds(seg, t.f1);
    if zone.lo == zone.hi {
      return Rejected;
    }
    var hour := ExtractHour(seg, t.f2);
    if hour.None? {
      return Rejected;
    }
    return Trip(seg[zone.lo..zone.hi], hour.value);
  }

  class TripAnalyzer {
    var zones: Zones

    /** Every entry's total is the sum of its hours and at least one. */
    ghost predicate Valid()
      reads this
    {
      Consistent(zones)
    }

    constructor ()
      ensures Valid() && zones == map[]
    {
      zones := map[];
    }

    /** The two increments on the entry of `zone`, made first when
        missing. */
    method RecordTrip(zone: seq<byte>, hour: nat)
      requires hour < 24
      modifies this
      ensures zones == Record(old(zones), zone, hour)
    {
      var stats := if zone in zones then zones[zone] else NewZoneStats();
      stats := stats.(total := stats.total + 1);
      stats := stats.(byHour := stats.byHour[hour := stats.byHour[hour] + 1]);
      zones := zones[zone := stats];
    }

    /** The loop body on one newline-terminated segment: the two flags go
        in and come out, and only an accepted trip changes the map. */
    method ConsumeSegment(line: seq<byte>, bomProcessed: bool, headerSkipped: bool)
      returns (bomAfter: bool, headerAfter: bool)
      modifies this
      ensures Scan(zones, bomAfter, headerAfter) == Step(Scan(old(zones), bomProcessed, headerSkipped), line)
    {
      var row := ReadRow(line, !bomProcessed, !headerSkipped);
      match row
      case Blank =>
        bomAfter, headerAfter := bomProcessed, headerSkipped;
      case NoId =>
        bomAfter, headerAfter := true, headerSkipped;
      case Header =>
        bomAfter, headerAfter := true, true;
      case Rejected =>
        bomAfter, headerAfter := true, true;
      case Trip(zone, hour) =>
        bomAfter, headerAfter := true, true;
        RecordTrip(zone, hour);
    }

    /** `ingestFile`. `fileOpened` stands for the result of `fopen` and `chunks`
        for the successive results of `fread`. A failed open returns before
        anything is cleared; otherwise the map is rebuilt from scratch out
        of the bytes read up to the first empty read, so ingesting the same
        bytes again gives the same map. */
    method IngestFile(fileOpened: bool, chunks: seq<seq<byte>>)
      modifies this
      ensures old(Valid()) ==> Valid()
      ensures !fileOpened ==> zones == old(zones)
      ensures fileOpened ==> zones == Ingested(Delivered(chunks)).zones
    {
      if !fileOpened {
        return;
      }
      zones := map[];
      var overflow: seq<byte> := [];
      var bomProcessed := false;
      var headerSkipped := false;
      var n := 0;
      while true
        invariant 0 <= n <= |chunks|
        invariant forall i :: 0 <= i < n ==> chunks[i] != []
        invariant Scan(zones, bomProcessed, headerSkipped) == Ingested(Concat(chunks[..n]))
        invariant overflow == Tail(Concat(chunks[..n]))
        decreases |chunks| - n
      {
        var buffer := if n < |chunks| then chunks[n] else [];
        if |buffer| == 0 {
          break;
        }
        overflow, bomProcessed, headerSkipped :=
          ConsumeBuffer(buffer, Concat(chunks[..n]), overflow, bomProcessed, headerSkipped);
        ConcatSnoc(chunks, n);
        n := n + 1;
      }
      DeliveredAfter(chunks, n);
      assert Delivered(chunks[n..]) == [];
      assert Concat(chunks[..n]) + [] == Concat(chunks[..n]);
      assert zones == Ingested(Delivered(chunks)).zones;
      IngestedConsistent(Delivered(chunks));
    }

    /** The inner loop of `ingestFile` over the bytes of one read: each
        newline found closes a segment (the carry buffer plus the bytes
        before it), and the bytes after the last newline are carried. */
    method ConsumeBuffer(buffer: seq<byte>, ghost before: seq<byte>, overflow: seq<byte>,
                         bomProcessed: bool, headerSkipped: bool)
      returns (carry: seq<byte>, bomAfter: bool, headerAfter: bool)
      requires Scan(zones, bomProcessed, headerSkipped) == Ingested(before)
      requires overflow == Tail(before)
      modifies this
      ensures Scan(zones, bomAfter, headerAfter) == Ingested(before + buffer)
      ensures carry == Tail(before + buffer)
    {
      carry, bomAfter, headerAfter := overflow, bomProcessed, headerSkipped;
      ghost var seen := before;
      var current := 0;
      while current < |buffer|
        invariant 0 <= current <= |buffer|
        invariant seen == before + buffer[..current]
        invariant Scan(zones, bomAfter, headerAfter) == Ingested(seen)
        invariant carry == Tail(seen)
      {
        var newline := Find(buffer, current, |buffer|, NL);
        var piece := buffer[current..newline];
        if newline == |buffer| {
          BufferRunsOut(before, buffer, current, seen);
          carry := carry + piece;
          return;
        }
        LineCloses(before, buffer, current, seen);
        bomAfter, headerAfter := ConsumeLine(seen, carry, piece, bomAfter, headerAfter);
        carry := [];
        seen := seen + piece + [NL];
        current := newline + 1;
      }
      assert buffer[..|buffer|] == buffer;
    }

    /** One segment closed by a newline: the carry buffer, extended by the
        bytes before the newline when it is not empty, goes through the loop
        body. */
    method ConsumeLine(ghost prefix: seq<byte>, carry: seq<byte>, piece: seq<byte>,
                       bomProcessed: bool, headerSkipped: bool)
      returns (bomAfter: bool, headerAfter: bool)
      requires NL !in piece
      requires Scan(zones, bomProcessed, headerSkipped) == Ingested(prefix)
      requires carry == Tail(prefix)
      modifies this
      ensures Scan(zones, bomAfter, headerAfter) == Ingested(prefix + piece + [NL])
    {
      var line: seq<byte>;
      if carry != [] {
        line := carry + piece;
      } else {
        line := piece;
      }
      assert line == Tail(prefix) + piece;
      IngestedLine(prefix, piece);
      bomAfter, headerAfter := ConsumeSegment(line, bomProcessed, headerSkipped);
    }

    /** `topZones`: the zones are offered in any order (the order of the
        hash map), and the result is the top k of all zone counts by
        `compareZones`: ranked, min(k, zone count) long, and every zone left
        out ranks after every zone kept. */
    method TopZones(k: int := 10) returns (results: seq<ZoneCount>)
      requires k >= 1 && Valid()
      ensures IsTopK(results, ZoneCandidates(zones), k, ZoneBetter)
      ensures |results| == Min(k, |zones|)
      ensures forall r :: r in results ==> r.zone in zones && r.count == zones[r.zone].total
      ensures forall r :: r in results ==> r.count >= 1
    {
      ZoneBetterIsStrictTotalOrder();
      results := [];
      var todo := zones.Keys;
      ghost var seen: set<ZoneCount> := {};
      while todo != {}
        invariant todo <= zones.Keys
        invariant forall c :: c in seen <==> c.zone in zones && c.zone !in todo && c.count == zones[c.zone].total
        invariant IsTopK(results, seen, k, ZoneBetter)
        decreases |todo|
      {
        var zone :| zone in todo;
        var candidate := ZoneCount(zone, zones[zone].total);
        results := Offer(results, k, candidate, ZoneBetter, seen);
        todo := todo - {zone};
        seen := seen + {candidate};
      }
      assert seen == ZoneCandidates(zones);
      ZoneCandidatesCount(zones);
    }

    /** `topBusySlots`: every (zone, hour) with a positive count is offered,
        zones in any order and hours ascending, and the result is the top k
        of those slots by `compareSlots`; no slot with a count of zero is
        ever reported and every hour is below 24. */
    method TopBusySlots(k: int := 10) returns (results: seq<SlotCount>)
      requires k >= 1
      ensures IsTopK(results, SlotCandidates(zones), k, SlotBetter)
      ensures forall r :: r in results ==> IsSlotOf(zones, r)
    {
      SlotBetterIsStrictTotalOrder();
      results := [];
      var todo := zones.Keys;
      ghost var seen: set<SlotCount> := {};
      while todo != {}
        invariant todo <= zones.Keys
        invariant forall c :: c in seen <==> IsSlotOf(zones, c) && c.zone !in todo
        invariant IsTopK(results, seen, k, SlotBetter)
        decreases |todo|
      {
        var zoneName :| zoneName in todo;
        var stats := zones[zoneName];
        for h := 0 to 24
          invariant forall c :: c in seen <==>
            IsSlotOf(zones, c) && (c.zone !in todo || (c.zone == zoneName && c.hour < h))
          invariant IsTopK(results, seen, k, SlotBetter)
        {
          var count := stats.byHour[h];
          if count <= 0 {
            continue;
          }
          var candidate := SlotCount(zoneName, h, count);
          results := Offer(results, k, candidate, SlotBetter, seen);
          seen := seen + {candidate};
        }
        todo := todo - {zoneName};
      }
      assert seen == SlotCandidates(zones);
    }
  }

  /** No newline in the rest of the read: its bytes only lengthen the carried
      tail. */
  lemma BufferRunsOut(before: seq<byte>, buffer: seq<byte>, current: nat, seen: seq<byte>)
    requires current < |buffer| && seen == before + buffer[..current]
    requires Find(buffer, current, |buffer|, NL) == |buffer|
    ensures Ingested(before + buffer) == Ingested(seen)
    ensures Tail(before + buffer) == Tail(seen) + buffer[current..|buffer|]
  {
    FindSkips(buffer, current, |buffer|, NL);
    IngestedPartial(seen, buffer[current..|buffer|]);
    PrefixGrows(before, buffer, current, |buffer|);
  }

  /** A newline in the rest of the read: the bytes before it close a
      segment, and nothing is left to carry. */
  lemma LineCloses(before: seq<byte>, buffer: seq<byte>, current: nat, seen: seq<byte>)
    requires current < |buffer| && seen == before + buffer[..current]
    requires Find(buffer, current, |buffer|, NL) < |buffer|
    ensures var newline := Find(buffer, current, |buffer|, NL);
      var piece := buffer[current..newline];
      && NL !in piece
      && seen + piece + [NL] == before + buffer[..newline + 1]
      && Tail(seen + piece + [NL]) == []
  {
    var newline := Find(buffer, current, |buffer|, NL);
    var piece := buffer[current..newline];
    FindSkips(buffer, current, |buffer|, NL);
    AppendNewline(seen, piece);
    PrefixGrows(before, buffer, current, newline + 1);
  }

  /** The bytes consumed so far grow by the bytes up to the next stop. */
  lemma PrefixGrows(before: seq<byte>, buffer: seq<byte>, current: nat, next: nat)
    requires current < next <= |buffer|
    ensures before + buffer[..next] == before + buffer[..current] + buffer[current..next - 1] + [buffer[next - 1]]
    ensures next == |buffer| ==> before + buffer == before + buffer[..current] + buffer[current..next]
  {
    assert buffer[..next] == buffer[..current] + buffer[current..next - 1] + [buffer[next - 1]];
    assert buffer == buffer[..current] + buffer[current..|buffer|];
  }

  /** There are as many zone candidates as zones. */
  lemma {:induction false} ZoneCandidatesCount(zones: Zones)
    ensures |ZoneCandidates(zones)| == |zones|
    decreases |zones|
  {
    if zones != map[] {
      var x :| x in zones;
      var rest := zones - {x};
      assert rest.Keys == zones.Keys - {x};
      ZoneCandidatesCount(rest);
      var top := ZoneCount(x, zones[x].total);
      forall c ensures c in ZoneCandidates(zones) <==> c in ZoneCandidates(rest) + {top} {
        if c in ZoneCandidates(zones) && c != top {
          assert c.zone in rest && rest[c.zone] == zones[c.zone];
        }
        if c in ZoneCandidates(rest) {
          assert c.zone in zones;
        }
      }
      assert ZoneCandidates(zones) == ZoneCandidates(rest) + {top};
      assert top !in ZoneCandidates(rest);
    }
  }
}
