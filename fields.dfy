/** `parseThreeFields`: splits a line into three fields. On the fast path,
    for lines without quotes, fields 0 and 1 end at the first two commas and
    field 2 runs to the line end, later commas included; the slow path ends
    each field at the next comma outside quotes or at the line end. */
module Fields {
  import opened Bytes
  import opened Spans

  /** Spans of fields 0, 1 and 2: the trip id, the zone and the timestamp. */
  datatype Triple = Triple(f0: Span, f1: Span, f2: Span)

  /** The three spans lie in order inside the line, each of the first two
      followed by exactly one separator byte. */
  predicate Chained(line: Span, t: Triple) {
    && line.lo == t.f0.lo <= t.f0.hi
    && t.f1.lo == t.f0.hi + 1 <= t.f1.hi
    && t.f2.lo == t.f1.hi + 1 <= t.f2.hi <= line.hi
  }

  /** s[lo..p] holds an odd number of `"` bytes: a quoted part opened
      before p is still open at p. */
  predicate QuoteOpen(s: seq<byte>, lo: nat, p: nat)
    requires lo <= p <= |s|
    decreases p - lo
  {
    if p == lo then false else QuoteOpen(s, lo, p - 1) != (s[p - 1] == QUOTE)
  }

  /** Slow-path rule: a field ends at the line end or at a comma that an even
      number of quotes of the line precede (that is, outside a quoted part). */
  predicate IsBoundary(s: seq<byte>, line: Span, p: nat)
    requires line.Within(s)
  {
    line.lo <= p <= line.hi && (p == line.hi || s[p] == COMMA) && !QuoteOpen(s, line.lo, p)
  }

  /** The first boundary at or after `from`, if any. */
  function NextBoundary(s: seq<byte>, line: Span, from: nat): (r: Option<nat>)
    requires line.Within(s) && line.lo <= from
    ensures r.Some? ==> from <= r.value <= line.hi && IsBoundary(s, line, r.value)
    ensures r.Some? ==> forall q :: from <= q < r.value ==> !IsBoundary(s, line, q)
    ensures r.None? ==> forall q :: from <= q <= line.hi ==> !IsBoundary(s, line, q)
    decreases line.hi + 1 - from
  {
    if from > line.hi then None
    else if IsBoundary(s, line, from) then Some(from)
    else NextBoundary(s, line, from + 1)
  }

  /** p is a boundary and none lies in [from, p). */
  ghost predicate FirstBoundary(s: seq<byte>, line: Span, from: nat, p: nat)
    requires line.Within(s)
  {
    line.lo <= from <= p && IsBoundary(s, line, p) && forall q :: from <= q < p ==> !IsBoundary(s, line, q)
  }

  /** The first boundary at or after `from` is the least one. */
  lemma {:induction false} NextBoundaryIsLeast(s: seq<byte>, line: Span, from: nat, p: nat)
    requires line.Within(s) && FirstBoundary(s, line, from, p)
    ensures NextBoundary(s, line, from) == Some(p)
    decreases p - from
  {
    if from < p {
      assert !IsBoundary(s, line, from);
      NextBoundaryIsLeast(s, line, from + 1, p);
    }
  }

  /** Some boundary at or after `from` exists: the first one comes no later. */
  lemma NextBoundaryReaches(s: seq<byte>, line: Span, from: nat, p: nat)
    requires line.Within(s) && line.lo <= from <= p && IsBoundary(s, line, p)
    ensures NextBoundary(s, line, from).Some? && NextBoundary(s, line, from).value <= p
  {
  }

  /** The line holds a `"` byte. */
  predicate HasQuote(s: seq<byte>, line: Span)
    requires line.Within(s)
  {
    Find(s, line.lo, line.hi, QUOTE) < line.hi
  }

  /** Slow path: the first three boundaries end the three fields. */
  function QuotedFields(s: seq<byte>, line: Span): (r: Option<Triple>)
    requires line.Within(s)
    ensures r.Some? ==> Chained(line, r.value)
  {
    match NextBoundary(s, line, line.lo)
    case None => None
    case Some(b0) =>
      match NextBoundary(s, line, b0 + 1)
      case None => None
      case Some(b1) =>
        match NextBoundary(s, line, b1 + 1)
        case None => None
        case Some(b2) => Some(Triple(Span(line.lo, b0), Span(b0 + 1, b1), Span(b1 + 1, b2)))
  }

  lemma QuotedFieldsAt(s: seq<byte>, line: Span, b0: nat, b1: nat, b2: nat)
    requires line.Within(s) && NextBoundary(s, line, line.lo) == Some(b0)
    requires NextBoundary(s, line, b0 + 1) == Some(b1) && NextBoundary(s, line, b1 + 1) == Some(b2)
    ensures QuotedFields(s, line) == Some(Triple(Span(line.lo, b0), Span(b0 + 1, b1), Span(b1 + 1, b2)))
  {
  }

  /** Three successive first boundaries are the slow-path fields. */
  lemma QuotedFieldsFound(s: seq<byte>, line: Span, b0: nat, b1: nat, b2: nat)
    requires line.Within(s) && FirstBoundary(s, line, line.lo, b0)
    requires FirstBoundary(s, line, b0 + 1, b1) && FirstBoundary(s, line, b1 + 1, b2)
    ensures QuotedFields(s, line) == Some(Triple(Span(line.lo, b0), Span(b0 + 1, b1), Span(b1 + 1, b2)))
  {
    NextBoundaryIsLeast(s, line, line.lo, b0);
    NextBoundaryIsLeast(s, line, b0 + 1, b1);
    NextBoundaryIsLeast(s, line, b1 + 1, b2);
    QuotedFieldsAt(s, line, b0, b1, b2);
  }

  /** Fewer than three boundaries before no further one: the slow path
      fails. */
  lemma QuotedFieldsMissing(s: seq<byte>, line: Span, k: nat, b0: nat, b1: nat, from: nat)
    requires line.Within(s) && k <= 2
    requires k >= 1 ==> FirstBoundary(s, line, line.lo, b0)
    requires k == 2 ==> FirstBoundary(s, line, b0 + 1, b1)
    requires from == (if k == 0 then line.lo else if k == 1 then b0 + 1 else b1 + 1)
    requires forall q :: from <= q <= line.hi ==> !IsBoundary(s, line, q)
    ensures QuotedFields(s, line).None?
  {
    if k >= 1 {
      NextBoundaryIsLeast(s, line, line.lo, b0);
    }
    if k == 2 {
      NextBoundaryIsLeast(s, line, b0 + 1, b1);
    }
    assert NextBoundary(s, line, from).None?;
  }

  /** What `parseThreeFields` computes: on the fast path the first two commas
      split the line and field 2 runs to the line end; a line holding a quote
      takes the slow path. */
  function ThreeFields(s: seq<byte>, line: Span): (r: Option<Triple>)
    requires line.Within(s)
    ensures r.Some? ==> Chained(line, r.value)
  {
    if !HasQuote(s, line) then
      var c1 := Find(s, line.lo, line.hi, COMMA);
      if c1 == line.hi then None
      else
        var c2 := Find(s, c1 + 1, line.hi, COMMA);
        if c2 == line.hi then None
        else Some(Triple(Span(line.lo, c1), Span(c1 + 1, c2), Span(c2 + 1, line.hi)))
    else
      QuotedFields(s, line)
  }

  /** `parseThreeFields`: `ok` is its boolean result and f0..f2 its out
      parameters, meaningful when `ok` holds. */
  method ParseThreeFields(s: seq<byte>, line: Span) returns (ok: bool, f0: Span, f1: Span, f2: Span)
    requires line.Within(s)
    ensures ok <==> ThreeFields(s, line).Some?
    ensures ok ==> ThreeFields(s, line).value == Triple(f0, f1, f2)
  {
    // A line without any quote byte is split at its first two commas.
    var hasQuote := Find(s, line.lo, line.hi, QUOTE);
    if hasQuote == line.hi {
      f0, f1, f2 := Span(line.lo, line.lo), Span(line.lo, line.lo), Span(line.lo, line.lo);
      var comma1 := Find(s, line.lo, line.hi, COMMA);
      if comma1 == line.hi {
        return false, f0, f1, f2;
      }
      var comma2 := Find(s, comma1 + 1, line.hi, COMMA);
      if comma2 == line.hi {
        return false, f0, f1, f2;
      }
      f0 := Span(line.lo, comma1);
      f1 := Span(comma1 + 1, comma2);
      f2 := Span(comma2 + 1, line.hi);
      return true, f0, f1, f2;
    }
    ok, f0, f1, f2 := ParseQuoted(s, line);
  }

  /** The slow path of `parseThreeFields`: one scan over the line and its
      end, toggling `inQuote` at every quote and closing a field at every
      comma (or the end) met outside quotes. */
  method ParseQuoted(s: seq<byte>, line: Span) returns (ok: bool, f0: Span, f1: Span, f2: Span)
    requires line.Within(s)
    ensures ok <==> QuotedFields(s, line).Some?
    ensures ok ==> QuotedFields(s, line).value == Triple(f0, f1, f2)
  {
    f0, f1, f2 := Span(line.lo, line.lo), Span(line.lo, line.lo), Span(line.lo, line.lo);
    var inQuote := false;
    var fieldIndex := 0;
    var fieldStart := line.lo;
    var p := line.lo;
    while p <= line.hi
      invariant line.lo <= p <= line.hi + 1
      invariant p <= line.hi ==> inQuote == QuoteOpen(s, line.lo, p)
      invariant 0 <= fieldIndex <= 2
      invariant line.lo <= fieldStart <= p
      invariant forall q :: fieldStart <= q < p ==> !IsBoundary(s, line, q)
      invariant fieldIndex == 0 ==> fieldStart == line.lo
      invariant fieldIndex >= 1 ==> f0.lo == line.lo && FirstBoundary(s, line, line.lo, f0.hi)
      invariant fieldIndex == 1 ==> fieldStart == f0.hi + 1
      invariant fieldIndex == 2 ==>
        f1.lo == f0.hi + 1 && FirstBoundary(s, line, f1.lo, f1.hi) && fieldStart == f1.hi + 1
    {
      ScanStep(s, line, p, inQuote);
      if p < line.hi && s[p] == QUOTE {
        inQuote := !inQuote;
      }
      if !inQuote && (p == line.hi || s[p] == COMMA) {
        assert FirstBoundary(s, line, fieldStart, p);
        if fieldIndex == 0 {
          f0 := Span(fieldStart, p);
        } else if fieldIndex == 1 {
          f1 := Span(fieldStart, p);
        } else {
          f2 := Span(fieldStart, p);
          QuotedFieldsFound(s, line, f0.hi, f1.hi, f2.hi);
          return true, f0, f1, f2;
        }
        fieldIndex := fieldIndex + 1;
        fieldStart := p + 1;
      }
      p := p + 1;
    }
    QuotedFieldsMissing(s, line, fieldIndex, f0.hi, f1.hi, fieldStart);
    ok := false;
  }

  /** One byte of the slow-path scan: the quote state after toggling at p is
      the one before p + 1, and p closes a field exactly when it is a
      boundary. */
  lemma ScanStep(s: seq<byte>, line: Span, p: nat, inQuote: bool)
    requires line.Within(s) && line.lo <= p <= line.hi && inQuote == QuoteOpen(s, line.lo, p)
    ensures var toggled := if p < line.hi && s[p] == QUOTE then !inQuote else inQuote;
      && (p < line.hi ==> toggled == QuoteOpen(s, line.lo, p + 1))
      && ((!toggled && (p == line.hi || s[p] == COMMA)) <==> IsBoundary(s, line, p))
  {
  }

  /** Fast path (no quote in the line): it succeeds exactly when the line
      holds two commas; fields 0 and 1 are the comma-free runs before the
      first and the second comma, and field 2 runs to the line end. */
  lemma FastPathFields(s: seq<byte>, line: Span)
    requires line.Within(s) && !HasQuote(s, line)
    ensures ThreeFields(s, line).Some? <==>
      exists i, j :: line.lo <= i < j < line.hi && s[i] == COMMA && s[j] == COMMA
    ensures ThreeFields(s, line).Some? ==>
      var t := ThreeFields(s, line).value;
      && s[t.f0.hi] == COMMA && s[t.f1.hi] == COMMA && t.f2.hi == line.hi
      && (forall i :: t.f0.lo <= i < t.f0.hi ==> s[i] != COMMA)
      && (forall i :: t.f1.lo <= i < t.f1.hi ==> s[i] != COMMA)
  {
    var c1 := Find(s, line.lo, line.hi, COMMA);
    if c1 < line.hi {
      var c2 := Find(s, c1 + 1, line.hi, COMMA);
      if c2 < line.hi {
        assert s[c1] == COMMA && s[c2] == COMMA;
      }
    }
  }

  /** The line has at least three boundaries. */
  ghost predicate HasThreeBoundaries(s: seq<byte>, line: Span)
    requires line.Within(s)
  {
    exists p0: nat, p1: nat, p2: nat :: p0 < p1 < p2 <= line.hi
      && IsBoundary(s, line, p0) && IsBoundary(s, line, p1) && IsBoundary(s, line, p2)
  }

  /** Slow path (a quote in the line): it succeeds exactly when the line has
      three boundaries; each field ends at a boundary and holds none, so a
      comma inside a quoted part never splits a field, and a quote left open
      before the third boundary makes the line fail. */
  lemma SlowPathFields(s: seq<byte>, line: Span)
    requires line.Within(s) && HasQuote(s, line)
    ensures ThreeFields(s, line).Some? <==> HasThreeBoundaries(s, line)
    ensures ThreeFields(s, line).Some? ==>
      var t := ThreeFields(s, line).value;
      && IsBoundary(s, line, t.f0.hi) && IsBoundary(s, line, t.f1.hi) && IsBoundary(s, line, t.f2.hi)
      && (forall q :: t.f0.lo <= q < t.f0.hi ==> !IsBoundary(s, line, q))
      && (forall q :: t.f1.lo <= q < t.f1.hi ==> !IsBoundary(s, line, q))
      && (forall q :: t.f2.lo <= q < t.f2.hi ==> !IsBoundary(s, line, q))
  {
    assert ThreeFields(s, line) == QuotedFields(s, line);
    QuotedFieldsBoundaries(s, line);
    if HasThreeBoundaries(s, line) {
      ThreeBoundariesFound(s, line);
    }
    if QuotedFields(s, line).Some? {
      var t := QuotedFields(s, line).value;
      assert IsBoundary(s, line, t.f0.hi) && IsBoundary(s, line, t.f1.hi) && IsBoundary(s, line, t.f2.hi);
    }
  }

  /** The slow-path fields end at the first three boundaries. */
  lemma QuotedFieldsBoundaries(s: seq<byte>, line: Span)
    requires line.Within(s)
    ensures QuotedFields(s, line).Some? ==>
      var t := QuotedFields(s, line).value;
      && IsBoundary(s, line, t.f0.hi) && IsBoundary(s, line, t.f1.hi) && IsBoundary(s, line, t.f2.hi)
      && (forall q :: t.f0.lo <= q < t.f0.hi ==> !IsBoundary(s, line, q))
      && (forall q :: t.f1.lo <= q < t.f1.hi ==> !IsBoundary(s, line, q))
      && (forall q :: t.f2.lo <= q < t.f2.hi ==> !IsBoundary(s, line, q))
  {
    var b0 := NextBoundary(s, line, line.lo);
    if b0.Some? {
      var b1 := NextBoundary(s, line, b0.value + 1);
      if b1.Some? {
        var b2 := NextBoundary(s, line, b1.value + 1);
        if b2.Some? {
          QuotedFieldsAt(s, line, b0.value, b1.value, b2.value);
        }
      }
    }
  }

  lemma ThreeBoundariesFound(s: seq<byte>, line: Span)
    requires line.Within(s) && HasThreeBoundaries(s, line)
    ensures QuotedFields(s, line).Some?
  {
    var p0: nat, p1: nat, p2: nat :| p0 < p1 < p2
      && IsBoundary(s, line, p0) && IsBoundary(s, line, p1) && IsBoundary(s, line, p2);
    NextBoundaryReaches(s, line, line.lo, p0);
    var b0 := NextBoundary(s, line, line.lo).value;
    NextBoundaryReaches(s, line, b0 + 1, p1);
    var b1 := NextBoundary(s, line, b0 + 1).value;
    NextBoundaryReaches(s, line, b1 + 1, p2);
    var b2 := NextBoundary(s, line, b1 + 1).value;
    QuotedFieldsAt(s, line, b0, b1, b2);
  }
}
