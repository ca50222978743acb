/** Record splitting: the byte stream the `fread` loop delivers and its
    newline-terminated segments. */
module Splitter {
  import opened Bytes

  /** The bytes the read loop of `ingestFile` sees: the reads in order, up to
      the first read that returns zero bytes (end of file or a read error). */
  function Delivered(chunks: seq<seq<byte>>): (r: seq<byte>)
    ensures r <= Concat(chunks)
  {
    if chunks == [] || chunks[0] == [] then [] else chunks[0] + Delivered(chunks[1..])
  }

  function Concat(chunks: seq<seq<byte>>): seq<byte>
  {
    if chunks == [] then [] else chunks[0] + Concat(chunks[1..])
  }

  /** When no read comes back empty, the loop sees every byte, whatever the
      sizes of the chunks. */
  lemma {:induction false} DeliveredIsConcat(chunks: seq<seq<byte>>)
    requires forall i :: 0 <= i < |chunks| ==> chunks[i] != []
    ensures Delivered(chunks) == Concat(chunks)
  {
    if chunks != [] {
      DeliveredIsConcat(chunks[1..]);
    }
  }

  /** One more read appends its bytes. */
  lemma {:induction false} ConcatSnoc(chunks: seq<seq<byte>>, n: nat)
    requires n < |chunks|
    ensures Concat(chunks[..n + 1]) == Concat(chunks[..n]) + chunks[n]
    decreases n
  {
    if n > 0 {
      assert chunks[..n + 1][1..] == chunks[1..][..n];
      assert chunks[..n][1..] == chunks[1..][..n - 1];
      ConcatSnoc(chunks[1..], n - 1);
    }
  }

  /** After n non-empty reads the loop has seen their concatenation, and
      what it sees from then on is what the remaining reads deliver. */
  lemma {:induction false} DeliveredAfter(chunks: seq<seq<byte>>, n: nat)
    requires n <= |chunks|
    requires forall i :: 0 <= i < n ==> chunks[i] != []
    ensures Delivered(chunks) == Concat(chunks[..n]) + Delivered(chunks[n..])
    decreases n
  {
    if n > 0 {
      assert chunks[..n][1..] == chunks[1..][..n - 1];
      assert chunks[n..] == chunks[1..][n - 1..];
      DeliveredAfter(chunks[1..], n - 1);
    }
  }

  /** The newline-terminated segments of `b`, in order, without their
      newlines. */
  function Lines(b: seq<byte>): seq<seq<byte>>
    decreases |b|
  {
    var i := Find(b, 0, |b|, NL);
    if i == |b| then [] else [b[..i]] + Lines(b[i + 1..])
  }

  /** One segment per newline. */
  lemma {:induction false} LinesCount(b: seq<byte>)
    ensures |Lines(b)| == multiset(b)[NL]
    decreases |b|
  {
    var i := Find(b, 0, |b|, NL);
    NewlineCount(b);
    if i < |b| {
      LinesCount(b[i + 1..]);
    }
  }

  /** The newlines of `b` are the first one `Find` meets and those after it. */
  lemma NewlineCount(b: seq<byte>)
    ensures var i := Find(b, 0, |b|, NL);
      && (i == |b| ==> multiset(b)[NL] == 0)
      && (i < |b| ==> multiset(b)[NL] == 1 + multiset(b[i + 1..])[NL])
  {
    var i := Find(b, 0, |b|, NL);
    FindSkips(b, 0, |b|, NL);
    if i < |b| {
      assert b == b[..i] + [NL] + b[i + 1..];
    } else {
      assert b[0..i] == b;
    }
  }

  /** The bytes after the last newline: a final record with no terminator. */
  function Tail(b: seq<byte>): (t: seq<byte>)
    ensures NL !in t
    decreases |b|
  {
    var i := Find(b, 0, |b|, NL);
    if i == |b| then b else Tail(b[i + 1..])
  }

  /** The segments again, each followed by its newline. */
  function Join(lines: seq<seq<byte>>): seq<byte>
  {
    if lines == [] then [] else lines[0] + [NL] + Join(lines[1..])
  }

  lemma JoinCons(x: seq<byte>, lines: seq<seq<byte>>)
    ensures Join([x] + lines) == x + [NL] + Join(lines)
  {
    assert ([x] + lines)[1..] == lines;
  }

  /** The segments with their newlines, then the tail, are the input again:
      splitting loses and invents no byte. */
  lemma {:induction false} LinesJoin(b: seq<byte>)
    ensures Join(Lines(b)) + Tail(b) == b
    decreases |b|
  {
    var i := Find(b, 0, |b|, NL);
    if i < |b| {
      var head, rest := b[..i], b[i + 1..];
      assert Lines(b) == [head] + Lines(rest);
      assert Tail(b) == Tail(rest);
      LinesJoin(rest);
      JoinCons(head, Lines(rest));
      SplitAtNewline(b, i);
      Regroup(head, Join(Lines(rest)), Tail(rest), rest, b);
    }
  }

  lemma SplitAtNewline(b: seq<byte>, i: nat)
    requires i < |b| && b[i] == NL
    ensures b == b[..i] + [NL] + b[i + 1..]
  {
  }

  lemma Regroup(head: seq<byte>, joined: seq<byte>, tail: seq<byte>, rest: seq<byte>, b: seq<byte>)
    requires joined + tail == rest && b == head + [NL] + rest
    ensures head + [NL] + joined + tail == b
  {
  }

  /** No segment holds a newline. */
  lemma {:induction false} LinesHaveNoNewline(b: seq<byte>)
    ensures forall line :: line in Lines(b) ==> NL !in line
    decreases |b|
  {
    var i := Find(b, 0, |b|, NL);
    if i < |b| {
      var rest := b[i + 1..];
      LinesHaveNoNewline(rest);
      assert NL !in b[..i] by {
        forall j | 0 <= j < i ensures b[..i][j] != NL { }
      }
      assert Lines(b) == [b[..i]] + Lines(rest);
    }
  }

  /** Bytes without a newline only lengthen the tail. */
  lemma {:induction false} AppendWithoutNewline(b: seq<byte>, x: seq<byte>)
    requires NL !in x
    ensures Lines(b + x) == Lines(b)
    ensures Tail(b + x) == Tail(b) + x
    decreases |b|
  {
    var i := Find(b, 0, |b|, NL);
    var c := b + x;
    if i < |b| {
      forall q | 0 <= q < i ensures c[q] != NL {
        assert c[q] == b[q];
      }
      assert c[i] == NL;
      FindIsLeast(c, 0, |c|, NL, i);
      var rest := b[i + 1..];
      assert c[i + 1..] == rest + x;
      assert c[..i] == b[..i];
      AppendWithoutNewline(rest, x);
      assert Lines(c) == [b[..i]] + Lines(rest + x);
      assert Tail(c) == Tail(rest + x);
    } else {
      forall q | 0 <= q < |c| ensures c[q] != NL {
        if q < |b| { assert c[q] == b[q]; } else { assert c[q] == x[q - |b|]; }
      }
      FindAbsent(c, 0, |c|, NL);
    }
  }

  /** A newline closes the pending tail, with the bytes before it, as one
      more segment, and leaves an empty tail. */
  lemma {:induction false} AppendNewline(b: seq<byte>, x: seq<byte>)
    requires NL !in x
    ensures Lines(b + x + [NL]) == Lines(b) + [Tail(b) + x]
    ensures Tail(b + x + [NL]) == []
    decreases |b|
  {
    var i := Find(b, 0, |b|, NL);
    if i < |b| {
      var rest := b[i + 1..];
      NewlineInPrefix(b, x, i);
      AppendNewline(rest, x);
      assert Lines(b) == [b[..i]] + Lines(rest);
      assert Tail(b) == Tail(rest);
    } else {
      NewlineAfterPrefix(b, x);
    }
  }

  /** The first newline of b + x + [NL] is the one of b when b has one. */
  lemma NewlineInPrefix(b: seq<byte>, x: seq<byte>, i: nat)
    requires NL !in x && i == Find(b, 0, |b|, NL) && i < |b|
    ensures var c, rest := b + x + [NL], b[i + 1..];
      && Lines(c) == [b[..i]] + Lines(rest + x + [NL])
      && Tail(c) == Tail(rest + x + [NL])
  {
    var c := b + x + [NL];
    forall q | 0 <= q < i ensures c[q] != NL {
      assert c[q] == b[q];
    }
    assert c[i] == NL;
    FindIsLeast(c, 0, |c|, NL, i);
    assert c[i + 1..] == b[i + 1..] + x + [NL];
    assert c[..i] == b[..i];
  }

  /** With no newline in b, the first newline of b + x + [NL] is the last
      byte. */
  lemma NewlineAfterPrefix(b: seq<byte>, x: seq<byte>)
    requires NL !in x && Find(b, 0, |b|, NL) == |b|
    ensures Lines(b + x + [NL]) == [b + x] && Tail(b + x + [NL]) == []
    ensures Lines(b) == [] && Tail(b) == b
  {
    var c := b + x + [NL];
    var e := |b| + |x|;
    forall q | 0 <= q < e ensures c[q] != NL {
      if q < |b| { assert c[q] == b[q]; } else { assert c[q] == x[q - |b|]; }
    }
    assert c[e] == NL;
    FindIsLeast(c, 0, |c|, NL, e);
    assert c[..e] == b + x;
    assert c[e + 1..] == [];
    assert Lines(c) == [b + x] + Lines([]);
  }
}
