/** Byte-span helpers of the trip parser: whitespace trimming, quote
    stripping, the UTF-8 byte-order mark and the positional hour reader.
    A `const char*` pair [start, end) over a buffer is modelled as a `Span`
    of indices into a byte sequence. */
module Spans {
  import opened Bytes

  /** The half-open range [lo, hi) of positions of some byte sequence. */
  datatype Span = Span(lo: nat, hi: nat) {
    predicate Within(s: seq<byte>) {
      lo <= hi <= |s|
    }
  }

  /** Every byte up to and including the space counts as whitespace: the
      control bytes (tab, line feed, carriage return among them) and the
      space; no printable ASCII byte, not DEL and no byte of a multi-byte
      UTF-8 sequence. */
  predicate IsWhitespace(c: byte): (r: bool)
    ensures c < 0x20 || c == 0x20 ==> r
    ensures 0x21 <= c <= 0x7E ==> !r
    ensures c >= 0x7F ==> !r
  {
    c <= 0x20
  }

  /** First position of [lo, hi) that is not whitespace, or hi. */
  function TrimStart(s: seq<byte>, lo: nat, hi: nat): (r: nat)
    requires lo <= hi <= |s|
    ensures lo <= r <= hi
    ensures forall i :: lo <= i < r ==> IsWhitespace(s[i])
    ensures r < hi ==> !IsWhitespace(s[r])
    decreases hi - lo
  {
    if lo < hi && IsWhitespace(s[lo]) then TrimStart(s, lo + 1, hi) else lo
  }

  /** One past the last position of [lo, hi) that is not whitespace, or lo. */
  function TrimEnd(s: seq<byte>, lo: nat, hi: nat): (r: nat)
    requires lo <= hi <= |s|
    ensures lo <= r <= hi
    ensures forall i :: r <= i < hi ==> IsWhitespace(s[i])
    ensures lo < r ==> !IsWhitespace(s[r - 1])
    decreases hi - lo
  {
    if lo < hi && IsWhitespace(s[hi - 1]) then TrimEnd(s, lo, hi - 1) else hi
  }

  /** The span without its leading and trailing whitespace. */
  function Trimmed(s: seq<byte>, sp: Span): (t: Span)
    requires sp.Within(s)
    ensures sp.lo <= t.lo <= t.hi <= sp.hi
    ensures forall i :: sp.lo <= i < t.lo || t.hi <= i < sp.hi ==> IsWhitespace(s[i])
    ensures t.lo < t.hi ==> !IsWhitespace(s[t.lo]) && !IsWhitespace(s[t.hi - 1])
  {
    var a := TrimStart(s, sp.lo, sp.hi);
    Span(a, TrimEnd(s, a, sp.hi))
  }

  /** The first and the last non-whitespace bytes of the span are two
      distinct `"` bytes. */
  predicate Quoted(s: seq<byte>, sp: Span)
    requires sp.Within(s)
  {
    var t := Trimmed(s, sp);
    t.hi >= t.lo + 2 && s[t.lo] == QUOTE && s[t.hi - 1] == QUOTE
  }

  /** What `cleanBounds` leaves of a span: trimmed, one enclosing pair of
      quotes removed, trimmed again. The ensures clauses say exactly which
      bytes go: whitespace only, plus the two enclosing quotes when there
      are any, and the result starts and ends with a non-whitespace byte. */
  function Cleaned(s: seq<byte>, sp: Span): (r: Span)
    requires sp.Within(s)
    ensures sp.lo <= r.lo <= r.hi <= sp.hi
    ensures r.lo < r.hi ==> !IsWhitespace(s[r.lo]) && !IsWhitespace(s[r.hi - 1])
    ensures !Quoted(s, sp) ==>
      forall i :: sp.lo <= i < r.lo || r.hi <= i < sp.hi ==> IsWhitespace(s[i])
    ensures Quoted(s, sp) ==>
      var t := Trimmed(s, sp);
      && t.lo < r.lo && r.hi < t.hi
      && s[t.lo] == QUOTE && s[t.hi - 1] == QUOTE
      && forall i :: (sp.lo <= i < r.lo && i != t.lo) || (r.hi <= i < sp.hi && i != t.hi - 1) ==>
           IsWhitespace(s[i])
  {
    var t := Trimmed(s, sp);
    if Quoted(s, sp) then Trimmed(s, Span(t.lo + 1, t.hi - 1)) else t
  }

  /** The loop that advances the start past leading whitespace, which the
      parser runs in four places. */
  method SkipLeading(s: seq<byte>, sp: Span) returns (start: nat)
    requires sp.Within(s)
    ensures start == TrimStart(s, sp.lo, sp.hi)
  {
    start := sp.lo;
    while start < sp.hi && IsWhitespace(s[start])
      invariant sp.lo <= start <= sp.hi
      invariant TrimStart(s, start, sp.hi) == TrimStart(s, sp.lo, sp.hi)
    {
      start := start + 1;
    }
  }

  /** The pair of trimming loops of `cleanBounds` (run before and again
      after the quotes are stripped). */
  method TrimBounds(s: seq<byte>, sp: Span) returns (r: Span)
    requires sp.Within(s)
    ensures r == Trimmed(s, sp)
  {
    var start := SkipLeading(s, sp);
    var end := sp.hi;
    while end > start && IsWhitespace(s[end - 1])
      invariant start <= end <= sp.hi
      invariant TrimEnd(s, start, end) == TrimEnd(s, start, sp.hi)
    {
      end := end - 1;
    }
    r := Span(start, end);
  }

  /** `cleanBounds`: trim, strip one enclosing pair of quotes, trim again. */
  method CleanBounds(s: seq<byte>, sp: Span) returns (r: Span)
    requires sp.Within(s)
    ensures r == Cleaned(s, sp)
  {
    r := TrimBounds(s, sp);
    if r.hi > r.lo + 1 && s[r.lo] == QUOTE && s[r.hi - 1] == QUOTE {
      r := TrimBounds(s, Span(r.lo + 1, r.hi - 1));
    }
  }

  /** The span begins with the UTF-8 byte-order mark EF BB BF. */
  predicate StartsWithBOM(s: seq<byte>, sp: Span)
    requires sp.Within(s)
  {
    sp.hi - sp.lo >= 3 && s[sp.lo] == 0xEF && s[sp.lo + 1] == 0xBB && s[sp.lo + 2] == 0xBF
  }

  /** `skipBOM`: the start moves by exactly three when, and only when, the
      span begins with the mark; otherwise nothing changes. */
  function SkipBOM(s: seq<byte>, sp: Span): (r: Span)
    requires sp.Within(s)
    ensures r.Within(s) && r.hi == sp.hi
    ensures r.lo == sp.lo + 3 <==> StartsWithBOM(s, sp)
    ensures !StartsWithBOM(s, sp) ==> r == sp
  {
    if StartsWithBOM(s, sp) then Span(sp.lo + 3, sp.hi) else sp
  }

  /** Stripping the mark undoes prefixing it, once: a second mark behind the
      first one is kept. */
  lemma SkipBOMStripsOneMark(x: seq<byte>)
    ensures var s := [0xEF, 0xBB, 0xBF] + x;
      var r := SkipBOM(s, Span(0, |s|));
      r.Within(s) && s[r.lo..r.hi] == x
  {
    var s: seq<byte> := [0xEF, 0xBB, 0xBF] + x;
    assert StartsWithBOM(s, Span(0, |s|));
    assert s[3..|s|] == x;
  }

  predicate IsDigit(c: byte) {
    0x30 <= c <= 0x39
  }

  /** The value of two ASCII digits. */
  function TwoDigitValue(h1: byte, h2: byte): nat
    requires IsDigit(h1) && IsDigit(h2)
  {
    (h1 as int - 0x30) * 10 + (h2 as int - 0x30)
  }

  /** `extractHourValue`: after cleaning, the hour is the two digits at
      offsets 11 and 12 (the HH of `YYYY-MM-DD HH:...`). It succeeds exactly
      when the cleaned field is long enough, both bytes are digits and
      their value is at most 23; the hour is then below 24. */
  function ExtractHour(s: seq<byte>, sp: Span): (r: Option<nat>)
    requires sp.Within(s)
    ensures var c := Cleaned(s, sp);
      r.Some? <==>
        (c.hi - c.lo >= 13 && IsDigit(s[c.lo + 11]) && IsDigit(s[c.lo + 12])
         && TwoDigitValue(s[c.lo + 11], s[c.lo + 12]) <= 23)
    ensures r.Some? ==> r.value < 24
    ensures r.Some? ==> var c := Cleaned(s, sp); r.value == TwoDigitValue(s[c.lo + 11], s[c.lo + 12])
  {
    var c := Cleaned(s, sp);
    if c.hi - c.lo < 13 then None
    else
      var h1, h2 := s[c.lo + 11], s[c.lo + 12];
      if !IsDigit(h1) || !IsDigit(h2) then None
      else
        var h := TwoDigitValue(h1, h2);
        if h > 23 then None else Some(h)
  }

  /** The two ASCII digits of an hour below 24. */
  function HourDigits(h: nat): (d: seq<byte>)
    requires h < 24
    ensures |d| == 2 && IsDigit(d[0]) && IsDigit(d[1]) && TwoDigitValue(d[0], d[1]) == h
  {
    var tens := if h >= 20 then 2 else if h >= 10 then 1 else 0;
    [(0x30 + tens) as byte, (0x30 + h - 10 * tens) as byte]
  }

  /** Cleaning recovers a field padded with whitespace: when everything
      outside [a, e) is whitespace and the field starts with a byte that is
      neither whitespace nor a quote and ends with a non-whitespace byte,
      the cleaned span is exactly [a, e). */
  lemma CleanedRecoversPadded(s: seq<byte>, sp: Span, a: nat, e: nat)
    requires sp.Within(s) && sp.lo <= a < e <= sp.hi
    requires forall i :: sp.lo <= i < a || e <= i < sp.hi ==> IsWhitespace(s[i])
    requires !IsWhitespace(s[a]) && s[a] != QUOTE && !IsWhitespace(s[e - 1])
    ensures Cleaned(s, sp) == Span(a, e)
  {
    var t := Trimmed(s, sp);
    assert t.lo == a && t.hi == e;
    assert !Quoted(s, sp);
  }

  /** Reading the hour back: a timestamp whose bytes 11 and 12 are the digits
      of `h`, surrounded by any amount of whitespace, yields `h`. */
  lemma HourRoundTrip(pre: seq<byte>, ts: seq<byte>, post: seq<byte>, h: nat)
    requires h < 24
    requires forall i :: 0 <= i < |pre| ==> IsWhitespace(pre[i])
    requires forall i :: 0 <= i < |post| ==> IsWhitespace(post[i])
    requires |ts| >= 13 && ts[11..13] == HourDigits(h)
    requires !IsWhitespace(ts[0]) && ts[0] != QUOTE && !IsWhitespace(ts[|ts| - 1])
    ensures var s := pre + ts + post; ExtractHour(s, Span(0, |s|)) == Some(h)
  {
    var s := pre + ts + post;
    var a, e := |pre|, |pre| + |ts|;
    var d := HourDigits(h);
    assert Cleaned(s, Span(0, |s|)) == Span(a, e) by {
      PaddingIsWhitespace(pre, ts, post);
      MiddleBytes(pre, ts, post);
      CleanedRecoversPadded(s, Span(0, |s|), a, e);
    }
    assert s[a + 11] == d[0] && s[a + 12] == d[1] by {
      MiddleBytes(pre, ts, post);
      assert ts[11..13][0] == ts[11] && ts[11..13][1] == ts[12];
    }
    assert Cleaned(s, Span(0, |s|)).lo == a;
  }

  /** A field that cleaning leaves whole and whose bytes 11 and 12 are the
      digits of `h` reads as `h`. */
  lemma HourAt(s: seq<byte>, sp: Span, h: nat)
    requires sp.Within(s) && h < 24 && Cleaned(s, sp) == sp && sp.hi - sp.lo >= 13
    requires s[sp.lo + 11] == HourDigits(h)[0] && s[sp.lo + 12] == HourDigits(h)[1]
    ensures ExtractHour(s, sp) == Some(h)
  {
  }

  /** Position i of the middle part of pre + ts + post holds ts[i - |pre|]. */
  lemma MiddleBytes(pre: seq<byte>, ts: seq<byte>, post: seq<byte>)
    ensures var s := pre + ts + post;
      forall i :: |pre| <= i < |pre| + |ts| ==> s[i] == ts[i - |pre|]
  {
  }

  /** The bytes around `ts` in pre + ts + post are those of pre and post. */
  lemma PaddingIsWhitespace(pre: seq<byte>, ts: seq<byte>, post: seq<byte>)
    requires forall i :: 0 <= i < |pre| ==> IsWhitespace(pre[i])
    requires forall i :: 0 <= i < |post| ==> IsWhitespace(post[i])
    ensures var s := pre + ts + post;
      forall i :: 0 <= i < |pre| || |pre| + |ts| <= i < |s| ==> IsWhitespace(s[i])
  {
    var s := pre + ts + post;
    var mid := pre + ts;
    forall i | 0 <= i < |pre| || |mid| <= i < |s| ensures IsWhitespace(s[i]) {
      if i < |pre| {
        assert s[i] == mid[i] == pre[i];
      } else {
        assert s[i] == post[i - |mid|];
      }
    }
  }
}
