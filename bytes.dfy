/** Bytes of the input file, the byte constants the parser looks for, the
    `memchr` search it uses and the `std::string` ordering of zone names. */
module Bytes {

  /** One byte of the file, read as `unsigned char`. */
  newtype byte = b: int | 0 <= b < 256

  datatype Option<T> = None | Some(value: T)

  const NL: byte := 0x0A
  const CR: byte := 0x0D
  const QUOTE: byte := 0x22
  const COMMA: byte := 0x2C

  /** Position of the first `b` in s[lo..hi], or `hi` when there is none:
      what `memchr` answers, with a null result written as `hi`. */
  function Find(s: seq<byte>, lo: nat, hi: nat, b: byte): (i: nat)
    requires lo <= hi <= |s|
    ensures lo <= i <= hi
    ensures i < hi ==> s[i] == b
    ensures forall j :: lo <= j < i ==> s[j] != b
    decreases hi - lo
  {
    if lo == hi then hi
    else if s[lo] == b then lo
    else Find(s, lo + 1, hi, b)
  }

  /** The bytes `Find` passes over do not hold the byte it looks for. */
  lemma FindSkips(s: seq<byte>, lo: nat, hi: nat, b: byte)
    requires lo <= hi <= |s|
    ensures b !in s[lo..Find(s, lo, hi, b)]
  {
    var i := Find(s, lo, hi, b);
    forall j | 0 <= j < i - lo ensures s[lo..i][j] != b {
      assert s[lo..i][j] == s[lo + j];
    }
  }

  /** A position holding `b` with no `b` before it is what `Find` answers. */
  lemma {:induction false} FindIsLeast(s: seq<byte>, lo: nat, hi: nat, b: byte, p: nat)
    requires lo <= p < hi <= |s| && s[p] == b
    requires forall q :: lo <= q < p ==> s[q] != b
    ensures Find(s, lo, hi, b) == p
    decreases p - lo
  {
    if lo < p {
      FindIsLeast(s, lo + 1, hi, b, p);
    }
  }

  /** With no `b` in s[lo..hi], `Find` answers `hi`. */
  lemma {:induction false} FindAbsent(s: seq<byte>, lo: nat, hi: nat, b: byte)
    requires lo <= hi <= |s|
    requires forall q :: lo <= q < hi ==> s[q] != b
    ensures Find(s, lo, hi, b) == hi
    decreases hi - lo
  {
    if lo < hi {
      FindAbsent(s, lo + 1, hi, b);
    }
  }

  /** Byte-lexicographic order: `std::string::operator<` compares as unsigned
      bytes, and a proper prefix comes first. */
  predicate LexLess(a: seq<byte>, b: seq<byte>): (r: bool)
    ensures r ==> a != b
    ensures |a| < |b| && a == b[..|a|] ==> r
    decreases |a|
  {
    if |a| == 0 then |b| > 0
    else if |b| == 0 then false
    else if a[0] != b[0] then a[0] < b[0]
    else
      assert |a| < |b| && a == b[..|a|] ==> a[1..] == b[1..][..|a| - 1];
      LexLess(a[1..], b[1..])
  }

  lemma {:induction false} LexLessIrreflexive(a: seq<byte>)
    ensures !LexLess(a, a)
    decreases |a|
  {
    if |a| > 0 {
      LexLessIrreflexive(a[1..]);
    }
  }

  lemma {:induction false} LexLessTransitive(a: seq<byte>, b: seq<byte>, c: seq<byte>)
    requires LexLess(a, b) && LexLess(b, c)
    ensures LexLess(a, c)
    decreases |a|
  {
    if |a| > 0 && a[0] == b[0] && b[0] == c[0] {
      LexLessTransitive(a[1..], b[1..], c[1..]);
    }
  }

  lemma {:induction false} LexLessTotal(a: seq<byte>, b: seq<byte>)
    requires a != b
    ensures LexLess(a, b) || LexLess(b, a)
    decreases |a|
  {
    if |a| > 0 && |b| > 0 && a[0] == b[0] {
      assert a == [a[0]] + a[1..] && b == [b[0]] + b[1..];
      LexLessTotal(a[1..], b[1..]);
    }
  }
}
