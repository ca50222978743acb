/** The per-zone aggregate and what one newline-terminated segment of the
    input does to it: the row rules of the ingest loop as functions, and the
    whole ingest as a fold of them over the segments of the file. */
module Aggregate {
  import opened Bytes
  import opened Spans
  import opened Fields
  import opened Splitter

  /** Exactly 24 per-hour counters, indexed by the hour of the day. */
  type HourCounts = s: seq<nat> | |s| == 24 witness seq(24, _ => 0)

  /** `ZoneStats`: the trip count of a zone and its split by hour. */
  datatype ZoneStats = ZoneStats(total: nat, byHour: HourCounts)

  type Zones = map<seq<byte>, ZoneStats>

  function Sum(s: seq<nat>): nat
  {
    if s == [] then 0 else s[0] + Sum(s[1..])
  }

  /** The `ZoneStats` constructor: no trips, every hour at zero. */
  function NewZoneStats(): (z: ZoneStats)
    ensures z.total == 0
    ensures forall h :: 0 <= h < 24 ==> z.byHour[h] == 0
  {
    ZoneStats(0, seq(24, _ => 0))
  }

  /** Every sum of all-zero counters is zero. */
  lemma {:induction false} SumZero(s: seq<nat>)
    requires forall i :: 0 <= i < |s| ==> s[i] == 0
    ensures Sum(s) == 0
  {
    if s != [] {
      SumZero(s[1..]);
    }
  }

  /** Bumping one counter raises the sum by one. */
  lemma {:induction false} SumBump(s: seq<nat>, h: nat)
    requires h < |s|
    ensures Sum(s[h := s[h] + 1]) == Sum(s) + 1
  {
    if h == 0 {
      assert s[h := s[h] + 1][1..] == s[1..];
    } else {
      assert s[h := s[h] + 1][1..] == s[1..][h - 1 := s[h] + 1];
      SumBump(s[1..], h - 1);
    }
  }

  /** The invariant of every entry: the total is the sum of the hours and,
      since entries are only made by recording a trip, at least one; zone
      names are never empty. */
  predicate Consistent(zones: Zones) {
    forall z :: z in zones ==> |z| > 0 && zones[z].total == Sum(zones[z].byHour) && zones[z].total >= 1
  }

  /** One accepted trip (`try_emplace` then the two increments): the entry
      of `zone` is created at zero when missing, then its total and its
      counter for `hour` go up by one. No other zone and no other hour
      changes. */
  function Record(zones: Zones, zone: seq<byte>, hour: nat): (r: Zones)
    requires hour < 24
    ensures r.Keys == zones.Keys + {zone}
    ensures forall z :: z in zones && z != zone ==> r[z] == zones[z]
    ensures var before := if zone in zones then zones[zone] else NewZoneStats();
      && r[zone].total == before.total + 1
      && r[zone].byHour[hour] == before.byHour[hour] + 1
      && forall h :: 0 <= h < 24 && h != hour ==> r[zone].byHour[h] == before.byHour[h]
  {
    var st := if zone in zones then zones[zone] else NewZoneStats();
    zones[zone := ZoneStats(st.total + 1, st.byHour[hour := st.byHour[hour] + 1])]
  }

  /** Recording a trip under a non-empty zone keeps every entry consistent. */
  lemma RecordPreservesConsistent(zones: Zones, zone: seq<byte>, hour: nat)
    requires Consistent(zones) && |zone| > 0 && hour < 24
    ensures Consistent(Record(zones, zone, hour))
  {
    var before := if zone in zones then zones[zone] else NewZoneStats();
    if zone !in zones {
      SumZero(before.byHour);
    }
    SumBump(before.byHour, hour);
  }

  /** The bytes `TripID` of the header row. */
  const HEADER: seq<byte> := [0x54, 0x72, 0x69, 0x70, 0x49, 0x44]

  /** The end of a segment without one trailing carriage return. */
  function LineEnd(seg: seq<byte>): (e: nat)
    ensures e <= |seg| && |seg| - e <= 1
    ensures e < |seg| <==> |seg| > 0 && seg[|seg| - 1] == CR
  {
    if |seg| > 0 && seg[|seg| - 1] == CR then |seg| - 1 else |seg|
  }

  /** Nothing but whitespace before the carriage-return strip point. */
  predicate IsBlank(seg: seq<byte>): (r: bool)
    ensures r <==> forall i :: 0 <= i < LineEnd(seg) ==> IsWhitespace(seg[i])
  {
    TrimStart(seg, 0, LineEnd(seg)) == LineEnd(seg)
  }

  /** The part of a non-blank segment handed to `parseThreeFields`: leading
      whitespace skipped, the byte-order mark skipped when still pending,
      leading whitespace skipped again. */
  function Payload(seg: seq<byte>, bomPending: bool): (p: Span)
    requires !IsBlank(seg)
    ensures p.Within(seg) && p.hi == LineEnd(seg)
    ensures p.lo < p.hi ==> !IsWhitespace(seg[p.lo])
    ensures var a := TrimStart(seg, 0, LineEnd(seg));
      && a <= p.lo
      && (forall i :: 0 <= i < a ==> IsWhitespace(seg[i]))
      && (bomPending && StartsWithBOM(seg, Span(a, LineEnd(seg))) ==>
            a + 3 <= p.lo && forall i :: a + 3 <= i < p.lo ==> IsWhitespace(seg[i]))
      && (!(bomPending && StartsWithBOM(seg, Span(a, LineEnd(seg)))) ==>
            forall i :: a <= i < p.lo ==> IsWhitespace(seg[i]))
  {
    var e := LineEnd(seg);
    var sp := Span(TrimStart(seg, 0, e), e);
    var sp' := if bomPending then SkipBOM(seg, sp) else sp;
    Span(TrimStart(seg, sp'.lo, e), e)
  }

  /** The three fields of a segment, when it has any. */
  function FieldsOf(seg: seq<byte>, bomPending: bool): (r: Option<Triple>)
    ensures r.Some? ==> !IsBlank(seg) && Chained(Payload(seg, bomPending), r.value)
    ensures IsBlank(seg) ==> r.None?
    ensures !IsBlank(seg) ==> var p := Payload(seg, bomPending);
      r == if p.lo < p.hi then ThreeFields(seg, p) else None
  {
    if IsBlank(seg) then None
    else
      var p := Payload(seg, bomPending);
      if p.lo == p.hi then None else ThreeFields(seg, p)
  }

  /** The cleaned trip id of a segment, when it has three fields and the id
      is not empty. */
  function IdOf(seg: seq<byte>, bomPending: bool): (r: Option<Span>)
    ensures r.Some? ==> FieldsOf(seg, bomPending).Some? && r.value.lo < r.value.hi <= |seg|
    ensures FieldsOf(seg, bomPending).None? ==> r.None?
    ensures FieldsOf(seg, bomPending).Some? ==>
      var id := Cleaned(seg, FieldsOf(seg, bomPending).value.f0);
      r == if id.lo < id.hi then Some(id) else None
  {
    match FieldsOf(seg, bomPending)
    case None => None
    case Some(t) =>
      var id := Cleaned(seg, t.f0);
      if id.lo < id.hi then Some(id) else None
  }

  /** What one segment is to the ingest loop. */
  datatype Row =
    | Blank                               // empty or whitespace only
    | NoId                                // fewer than three fields, or an empty id
    | Header                              // the `TripID` header row
    | Rejected                            // empty zone or unreadable hour
    | Trip(zone: seq<byte>, hour: nat)    // an accepted trip

  /** An accepted trip has a non-empty zone name that starts and ends with a
      non-whitespace byte, and an hour below 24. */
  predicate WellFormed(r: Row) {
    r.Trip? ==>
      && 0 < |r.zone| && r.hour < 24
      && !IsWhitespace(r.zone[0]) && !IsWhitespace(r.zone[|r.zone| - 1])
  }

  /** The bytes of a field that `cleanBounds` leaves. */
  function CleanText(seg: seq<byte>, sp: Span): seq<byte>
    requires sp.Within(seg)
  {
    var c := Cleaned(seg, sp);
    seg[c.lo..c.hi]
  }

  /** The zone and hour checks of a row with a non-empty id: it is a trip
      exactly when the cleaned zone is not empty and the hour reads, and the
      trip then carries that zone and that hour. */
  function Accept(seg: seq<byte>, t: Triple): (r: Row)
    requires t.f1.Within(seg) && t.f2.Within(seg)
    ensures r.Rejected? || r.Trip?
    ensures WellFormed(r)
    ensures r.Trip? <==> CleanText(seg, t.f1) != [] && ExtractHour(seg, t.f2).Some?
    ensures r.Trip? ==> r.zone == CleanText(seg, t.f1) && ExtractHour(seg, t.f2) == Some(r.hour)
  {
    var zone := CleanText(seg, t.f1);
    if zone == [] then Rejected
    else match ExtractHour(seg, t.f2)
      case None => Rejected
      case Some(h) =>
        CleanedNameEnds(seg, t.f1);
        Trip(zone, h)
  }

  /** A non-empty cleaned field starts and ends with a non-whitespace byte. */
  lemma CleanedNameEnds(seg: seq<byte>, sp: Span)
    requires sp.Within(seg)
    ensures var name := CleanText(seg, sp);
      |name| > 0 ==> !IsWhitespace(name[0]) && !IsWhitespace(name[|name| - 1])
  {
    var c := Cleaned(seg, sp);
    var name := CleanText(seg, sp);
    if c.lo < c.hi {
      assert name[0] == seg[c.lo];
      assert name[|name| - 1] == seg[c.hi - 1];
    }
  }

  /** The row rules of `ingestFile`, given whether the byte-order mark and
      the header are still pending. Only a row with a non-empty id can be
      the header, and only while the header is pending. */
  function Classify(seg: seq<byte>, bomPending: bool, headerPending: bool): (r: Row)
    ensures r.Blank? <==> IsBlank(seg)
    ensures r.NoId? <==> !IsBlank(seg) && IdOf(seg, bomPending).None?
    ensures r.Header? <==>
      (headerPending && IdOf(seg, bomPending).Some? &&
       var id := IdOf(seg, bomPending).value; seg[id.lo..id.hi] == HEADER)
    ensures WellFormed(r)
    ensures r.Rejected? || r.Trip? ==>
      && IdOf(seg, bomPending).Some?
      && r == Accept(seg, FieldsOf(seg, bomPending).value)
  {
    if IsBlank(seg) then Blank
    else match IdOf(seg, bomPending)
      case None => NoId
      case Some(id) =>
        if headerPending && seg[id.lo..id.hi] == HEADER then Header
        else Accept(seg, FieldsOf(seg, bomPending).value)
  }

  /** The header flag changes one thing only: a row whose id is `TripID`
      is dropped as the header instead of being read as a trip. */
  lemma HeaderPendingOnlyDropsHeader(seg: seq<byte>, bomPending: bool)
    ensures Classify(seg, bomPending, true) ==
      if IdOf(seg, bomPending).Some? && seg[IdOf(seg, bomPending).value.lo..IdOf(seg, bomPending).value.hi] == HEADER
      then Header
      else Classify(seg, bomPending, false)
  {
  }

  /** The pending byte-order mark changes nothing for a segment whose first
      non-whitespace bytes are not the mark. */
  lemma BomPendingOnlyStripsMark(seg: seq<byte>, headerPending: bool)
    requires !IsBlank(seg)
    requires !StartsWithBOM(seg, Span(TrimStart(seg, 0, LineEnd(seg)), LineEnd(seg)))
    ensures Classify(seg, true, headerPending) == Classify(seg, false, headerPending)
  {
    assert Payload(seg, true) == Payload(seg, false);
  }

  /** The bytes of the row `id,zone,ts`, part by part. */
  lemma RowBytes(id: seq<byte>, zone: seq<byte>, ts: seq<byte>)
    ensures var row := id + [COMMA] + zone + [COMMA] + ts;
      var n0, n1 := |id|, |id| + 1 + |zone|;
      && |row| == n1 + 1 + |ts|
      && (forall i :: 0 <= i < n0 ==> row[i] == id[i])
      && row[n0] == COMMA
      && (forall i :: n0 < i < n1 ==> row[i] == zone[i - n0 - 1])
      && row[n1] == COMMA
      && (forall i :: n1 < i < |row| ==> row[i] == ts[i - n1 - 1])
  {
    var row := id + [COMMA] + zone + [COMMA] + ts;
    var n0, n1 := |id|, |id| + 1 + |zone|;
    var a := id + [COMMA];
    var b := a + zone;
    assert row == b + [COMMA] + ts;
    forall i | 0 <= i < n0 ensures row[i] == id[i] {
      assert row[i] == b[i] == a[i];
    }
    forall i | n0 < i < n1 ensures row[i] == zone[i - n0 - 1] {
      assert row[i] == b[i];
    }
  }

  /** The fast path splits a plain row `id,zone,ts` at its first two
      commas. */
  lemma PlainRowSplits(id: seq<byte>, zone: seq<byte>, ts: seq<byte>)
    requires forall i :: 0 <= i < |id| ==> id[i] != COMMA && id[i] != QUOTE
    requires forall i :: 0 <= i < |zone| ==> zone[i] != COMMA && zone[i] != QUOTE
    requires forall i :: 0 <= i < |ts| ==> ts[i] != QUOTE
    ensures var row := id + [COMMA] + zone + [COMMA] + ts;
      var n0, n1 := |id|, |id| + 1 + |zone|;
      ThreeFields(row, Span(0, |row|)) == Some(Triple(Span(0, n0), Span(n0 + 1, n1), Span(n1 + 1, |row|)))
  {
    var row := id + [COMMA] + zone + [COMMA] + ts;
    var n0, n1, n := |id|, |id| + 1 + |zone|, |row|;
    RowBytes(id, zone, ts);
    forall q | 0 <= q < n ensures row[q] != QUOTE {
      if q < n0 { assert row[q] == id[q]; }
      else if n0 < q < n1 { assert row[q] == zone[q - n0 - 1]; }
      else if n1 < q { assert row[q] == ts[q - n1 - 1]; }
    }
    FindAbsent(row, 0, n, QUOTE);
    forall q | 0 <= q < n0 ensures row[q] != COMMA {
      assert row[q] == id[q];
    }
    FindIsLeast(row, 0, n, COMMA, n0);
    forall q | n0 + 1 <= q < n1 ensures row[q] != COMMA {
      assert row[q] == zone[q - n0 - 1];
    }
    FindIsLeast(row, n0 + 1, n, COMMA, n1);
  }

  /** A plain row with no quote: the id and the zone are non-empty, hold no
      comma and start and end with a non-whitespace byte; the timestamp
      starts and ends with a non-whitespace byte and carries the digits of
      `h` at offsets 11-12 (it may hold further commas, which the fast path
      leaves in field 2). Such a row is counted as a trip in that zone and
      hour, unless its id is `TripID` while the header is still pending. */
  lemma PlainRowIsCounted(id: seq<byte>, zone: seq<byte>, ts: seq<byte>, h: nat, headerPending: bool)
    requires h < 24 && |id| > 0 && |zone| > 0 && |ts| >= 13 && ts[11..13] == HourDigits(h)
    requires forall i :: 0 <= i < |id| ==> id[i] != COMMA && id[i] != QUOTE
    requires forall i :: 0 <= i < |zone| ==> zone[i] != COMMA && zone[i] != QUOTE
    requires forall i :: 0 <= i < |ts| ==> ts[i] != QUOTE
    requires !IsWhitespace(id[0]) && !IsWhitespace(id[|id| - 1])
    requires !IsWhitespace(zone[0]) && !IsWhitespace(zone[|zone| - 1])
    requires !IsWhitespace(ts[0]) && !IsWhitespace(ts[|ts| - 1])
    requires headerPending ==> id != HEADER
    ensures Classify(id + [COMMA] + zone + [COMMA] + ts, false, headerPending) == Trip(zone, h)
  {
    var row := id + [COMMA] + zone + [COMMA] + ts;
    PlainRowFields(id, zone, ts);
    PlainRowTrip(id, zone, ts, h);
  }

  /** The plain row `id,zone,ts` has its three fields and the id as its
      cleaned field 0. */
  lemma PlainRowFields(id: seq<byte>, zone: seq<byte>, ts: seq<byte>)
    requires |id| > 0 && |ts| > 0
    requires forall i :: 0 <= i < |id| ==> id[i] != COMMA && id[i] != QUOTE
    requires forall i :: 0 <= i < |zone| ==> zone[i] != COMMA && zone[i] != QUOTE
    requires forall i :: 0 <= i < |ts| ==> ts[i] != QUOTE
    requires !IsWhitespace(id[0]) && !IsWhitespace(id[|id| - 1]) && !IsWhitespace(ts[|ts| - 1])
    ensures var row := id + [COMMA] + zone + [COMMA] + ts;
      var n0, n1 := |id|, |id| + 1 + |zone|;
      && FieldsOf(row, false) == Some(Triple(Span(0, n0), Span(n0 + 1, n1), Span(n1 + 1, |row|)))
      && IdOf(row, false) == Some(Span(0, n0))
      && row[..n0] == id
  {
    var row := id + [COMMA] + zone + [COMMA] + ts;
    var n0, n := |id|, |row|;
    assert row[0] == id[0] && row[n0 - 1] == id[n0 - 1] && row[n - 1] == ts[|ts| - 1] && row[..n0] == id by {
      RowBytes(id, zone, ts);
    }
    assert LineEnd(row) == n;
    assert !IsBlank(row) && Payload(row, false) == Span(0, n);
    PlainRowSplits(id, zone, ts);
    CleanedRecoversPadded(row, Span(0, n0), 0, n0);
  }

  /** The zone and the timestamp of the plain row `id,zone,ts` pass the
      checks: it is a trip in that zone and hour. */
  lemma PlainRowTrip(id: seq<byte>, zone: seq<byte>, ts: seq<byte>, h: nat)
    requires h < 24 && |zone| > 0 && |ts| >= 13 && ts[11..13] == HourDigits(h)
    requires zone[0] != QUOTE && !IsWhitespace(zone[0]) && !IsWhitespace(zone[|zone| - 1])
    requires ts[0] != QUOTE && !IsWhitespace(ts[0]) && !IsWhitespace(ts[|ts| - 1])
    ensures var row := id + [COMMA] + zone + [COMMA] + ts;
      var n0, n1 := |id|, |id| + 1 + |zone|;
      Accept(row, Triple(Span(0, n0), Span(n0 + 1, n1), Span(n1 + 1, |row|))) == Trip(zone, h)
  {
    var row := id + [COMMA] + zone + [COMMA] + ts;
    var n0, n1 := |id|, |id| + 1 + |zone|;
    var t := Triple(Span(0, n0), Span(n0 + 1, n1), Span(n1 + 1, |row|));
    PlainRowZone(id, zone, ts, row, t.f1);
    PlainRowHour(id, zone, ts, h, row, t.f2);
    AcceptsTrip(row, t, zone, h);
  }

  /** A non-empty cleaned zone and a readable hour make a trip. */
  lemma AcceptsTrip(seg: seq<byte>, t: Triple, zone: seq<byte>, h: nat)
    requires t.f1.Within(seg) && t.f2.Within(seg)
    requires CleanText(seg, t.f1) == zone && zone != []
    requires ExtractHour(seg, t.f2) == Some(h)
    ensures Accept(seg, t) == Trip(zone, h)
  {
  }

  /** Cleaning leaves the zone of the plain row `id,zone,ts` whole. */
  lemma PlainRowZone(id: seq<byte>, zone: seq<byte>, ts: seq<byte>, row: seq<byte>, f1: Span)
    requires |zone| > 0 && zone[0] != QUOTE && !IsWhitespace(zone[0]) && !IsWhitespace(zone[|zone| - 1])
    requires row == id + [COMMA] + zone + [COMMA] + ts && f1 == Span(|id| + 1, |id| + 1 + |zone|)
    ensures f1.Within(row) && CleanText(row, f1) == zone
  {
    var n0, n1 := |id|, |id| + 1 + |zone|;
    assert row[n0 + 1] == zone[0] && row[n1 - 1] == zone[|zone| - 1] && row[n0 + 1..n1] == zone by {
      RowBytes(id, zone, ts);
    }
    CleanedRecoversPadded(row, Span(n0 + 1, n1), n0 + 1, n1);
  }

  /** The timestamp of the plain row `id,zone,ts` reads as hour `h`. */
  lemma PlainRowHour(id: seq<byte>, zone: seq<byte>, ts: seq<byte>, h: nat, row: seq<byte>, f2: Span)
    requires h < 24 && |ts| >= 13 && ts[11..13] == HourDigits(h)
    requires ts[0] != QUOTE && !IsWhitespace(ts[0]) && !IsWhitespace(ts[|ts| - 1])
    requires row == id + [COMMA] + zone + [COMMA] + ts && f2 == Span(|id| + 1 + |zone| + 1, |row|)
    ensures f2.Within(row) && ExtractHour(row, f2) == Some(h)
  {
    var n1, n := |id| + 1 + |zone|, |row|;
    var d := HourDigits(h);
    assert
      && n == n1 + 1 + |ts|
      && row[n1 + 1] == ts[0] && row[n - 1] == ts[|ts| - 1]
      && row[f2.lo + 11] == d[0] && row[f2.lo + 12] == d[1]
    by {
      RowBytes(id, zone, ts);
      assert ts[11..13][0] == ts[11] && ts[11..13][1] == ts[12];
    }
    CleanedRecoversPadded(row, f2, n1 + 1, n);
    HourAt(row, f2, h);
  }

  /** The loop state of `ingestFile` besides the carry buffer. */
  datatype Scan = Scan(zones: Zones, bomProcessed: bool, headerSkipped: bool)

  /** One segment through the loop body. The byte-order mark is settled by
      the first non-blank segment, the header by the first segment with a
      non-empty id, and only an accepted trip touches the zones. */
  function Step(st: Scan, seg: seq<byte>): (r: Scan)
    ensures r.bomProcessed == (st.bomProcessed || !IsBlank(seg))
    ensures r.headerSkipped == (st.headerSkipped || IdOf(seg, !st.bomProcessed).Some?)
    ensures match Classify(seg, !st.bomProcessed, !st.headerSkipped)
      case Trip(z, h) => r.zones == Record(st.zones, z, h)
      case _ => r.zones == st.zones
  {
    match Classify(seg, !st.bomProcessed, !st.headerSkipped)
    case Blank => st
    case NoId => st.(bomProcessed := true)
    case Header => st.(bomProcessed := true, headerSkipped := true)
    case Rejected => st.(bomProcessed := true, headerSkipped := true)
    case Trip(z, h) => Scan(Record(st.zones, z, h), true, true)
  }

  /** The segments in order through the loop body. */
  function Run(st: Scan, lines: seq<seq<byte>>): (r: Scan)
    ensures r.bomProcessed <==> st.bomProcessed || exists i :: 0 <= i < |lines| && !IsBlank(lines[i])
    ensures st.headerSkipped ==> r.headerSkipped
    ensures (st.headerSkipped ==> st.bomProcessed) ==> (r.headerSkipped ==> r.bomProcessed)
    ensures st.zones.Keys <= r.zones.Keys
    decreases |lines|
  {
    if lines == [] then st else Step(Run(st, lines[..|lines| - 1]), lines[|lines| - 1])
  }

  /** The state after a successful open: an empty map, both flags clear. */
  const Start: Scan := Scan(map[], false, false)

  /** The result of ingesting the bytes of a file: its newline-terminated
      segments through the loop body, from the cleared state. */
  function Ingested(b: seq<byte>): (r: Scan)
    ensures Lines(b) == [] ==> r == Start
    ensures r.headerSkipped ==> r.bomProcessed
  {
    Run(Start, Lines(b))
  }

  lemma {:induction false} RunPreservesConsistent(st: Scan, lines: seq<seq<byte>>)
    requires Consistent(st.zones)
    ensures Consistent(Run(st, lines).zones)
    decreases |lines|
  {
    if lines != [] {
      var before := Run(st, lines[..|lines| - 1]);
      RunPreservesConsistent(st, lines[..|lines| - 1]);
      match Classify(lines[|lines| - 1], !before.bomProcessed, !before.headerSkipped)
      case Trip(z, h) => RecordPreservesConsistent(before.zones, z, h);
      case _ =>
    }
  }

  /** After any ingest every zone's total is the sum of its hours, at least
      one, and its name is not empty. */
  lemma IngestedConsistent(b: seq<byte>)
    ensures Consistent(Ingested(b).zones)
  {
    RunPreservesConsistent(Start, Lines(b));
  }

  /** Running two batches of segments is running the first, then the second
      from where the first stopped. */
  lemma {:induction false} RunAppend(st: Scan, a: seq<seq<byte>>, b: seq<seq<byte>>)
    ensures Run(st, a + b) == Run(Run(st, a), b)
    decreases |b|
  {
    if b == [] {
      assert a + b == a;
    } else {
      assert (a + b)[..|a + b| - 1] == a + b[..|b| - 1];
      assert (a + b)[|a + b| - 1] == b[|b| - 1];
      RunAppend(st, a, b[..|b| - 1]);
    }
  }

  /** A newline completes the pending tail plus the bytes before it as one
      more segment, which goes through one more step. */
  lemma IngestedLine(prefix: seq<byte>, piece: seq<byte>)
    requires NL !in piece
    ensures Ingested(prefix + piece + [NL]) == Step(Ingested(prefix), Tail(prefix) + piece)
    ensures Tail(prefix + piece + [NL]) == []
  {
    var lines := Lines(prefix);
    var line := Tail(prefix) + piece;
    AppendNewline(prefix, piece);
    assert (lines + [line])[..|lines|] == lines;
  }

  /** Bytes without a newline only lengthen the tail. */
  lemma IngestedPartial(prefix: seq<byte>, piece: seq<byte>)
    requires NL !in piece
    ensures Ingested(prefix + piece) == Ingested(prefix)
    ensures Tail(prefix + piece) == Tail(prefix) + piece
  {
    AppendWithoutNewline(prefix, piece);
  }

  /** Bytes after the last newline are never counted: the result is that of
      the newline-terminated segments alone, with the final unterminated line
      dropped. */
  lemma UnterminatedTailIgnored(b: seq<byte>)
    ensures Ingested(b) == Ingested(Join(Lines(b)))
  {
    LinesJoin(b);
    IngestedPartial(Join(Lines(b)), Tail(b));
  }

  /** The loop sees the same bytes for any split of the file into non-empty
      reads, so the aggregate does not depend on the chunk size. */
  lemma ChunkingIrrelevant(c1: seq<seq<byte>>, c2: seq<seq<byte>>)
    requires forall i :: 0 <= i < |c1| ==> c1[i] != []
    requires forall i :: 0 <= i < |c2| ==> c2[i] != []
    requires Concat(c1) == Concat(c2)
    ensures Ingested(Delivered(c1)) == Ingested(Delivered(c2))
  {
    DeliveredIsConcat(c1);
    DeliveredIsConcat(c2);
  }

  /** Once the byte-order mark and the header are settled, a row that is not
      an accepted trip (blank, too few fields, empty id or zone, bad hour)
      leaves the result exactly as if it were not in the file. */
  lemma DirtyRowIsAbsent(pre: seq<seq<byte>>, seg: seq<byte>, post: seq<seq<byte>>)
    requires Run(Start, pre).bomProcessed && Run(Start, pre).headerSkipped
    requires !Classify(seg, false, false).Trip?
    ensures Run(Start, pre + [seg] + post) == Run(Start, pre + post)
  {
    var st := Run(Start, pre);
    assert Step(st, seg) == st;
    assert Run(Start, pre + [seg]) == Step(st, seg) by {
      assert (pre + [seg])[..|pre + [seg]| - 1] == pre;
    }
    RunAppend(Start, pre + [seg], post);
    RunAppend(Start, pre, post);
  }
}
