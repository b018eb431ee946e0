/** A stream of bytes in the chunks in which `recv` delivers it. */
module Chunks {
  import opened CString

  /** The size of the buffer that is handed to `recv`. */
  const BUFSIZE: nat := 4096

  function Flatten(chunks: seq<string>): string {
    if chunks == [] then "" else Flatten(chunks[..|chunks| - 1]) + chunks[|chunks| - 1]
  }

  /** Chunks as `recv` can deliver them. */
  predicate Proper(chunks: seq<string>) {
    forall i :: 0 <= i < |chunks| ==> 1 <= |chunks[i]| <= BUFSIZE
  }

  lemma {:induction false} FlattenAppend(a: seq<string>, b: seq<string>)
    ensures Flatten(a + b) == Flatten(a) + Flatten(b)
  {
    if b == [] {
      assert a + b == a;
    } else {
      var front := b[..|b| - 1];
      FlattenAppend(a, front);
      assert (a + b)[..|a + b| - 1] == a + front;
    }
  }

  lemma FlattenPrefix(chunks: seq<string>, j: nat)
    requires j <= |chunks|
    ensures Flatten(chunks[..j]) <= Flatten(chunks)
  {
    hide Flatten;
    FlattenAppend(chunks[..j], chunks[j..]);
    assert chunks[..j] + chunks[j..] == chunks;
  }

  lemma FlattenThree(hs: seq<string>, chunk: string, bs: seq<string>)
    ensures Flatten(hs + [chunk] + bs) == Flatten(hs) + chunk + Flatten(bs)
  {
    FlattenAppend(hs + [chunk], bs);
    assert (hs + [chunk])[..|hs|] == hs;
  }

  lemma FlattenLast(front: seq<string>, last: string)
    ensures Flatten(front + [last]) == Flatten(front) + last
  {
    assert (front + [last])[..|front|] == front;
  }

  lemma ProperParts(hs: seq<string>, chunk: string, bs: seq<string>)
    requires Proper(hs + [chunk] + bs)
    ensures Proper(hs) && 1 <= |chunk| <= BUFSIZE && Proper(bs)
  {
    var cs := hs + [chunk] + bs;
    assert forall i :: 0 <= i < |hs| ==> hs[i] == cs[i];
    assert cs[|hs|] == chunk;
    assert forall i :: 0 <= i < |bs| ==> bs[i] == cs[|hs| + 1 + i];
  }

  /** Chunks that leave room for a terminator in the buffer. */
  predicate AreShort(chunks: seq<string>) {
    forall i :: 0 <= i < |chunks| ==> |chunks[i]| < BUFSIZE
  }

  lemma {:induction false} ChunksAreShorter(chunks: seq<string>)
    ensures forall i :: 0 <= i < |chunks| ==> |chunks[i]| <= |Flatten(chunks)|
  {
    if chunks == [] {
    } else {
      ChunksAreShorter(chunks[..|chunks| - 1]);
    }
  }

  lemma PrefixOfConcat(h: string, p: string, q: string)
    requires h <= p + q
    ensures h <= p || (p <= h && h[|p|..] <= q)
  {
    if |h| <= |p| {
      assert h == (p + q)[..|h|] == p[..|h|];
    } else {
      assert p == (p + q)[..|p|] == h[..|p|];
    }
  }

  // ---------------------------------------------------------------- boundaries between chunks

  /** How many bytes the first `j` chunks hold. */
  function EndOf(chunks: seq<string>, j: nat): nat
    requires j <= |chunks|
  {
    |Flatten(chunks[..j])|
  }

  lemma WholeEnd(chunks: seq<string>)
    ensures EndOf(chunks, |chunks|) == |Flatten(chunks)|
  {
    assert chunks[..|chunks|] == chunks;
  }

  lemma NoEnd(chunks: seq<string>)
    ensures EndOf(chunks, 0) == 0
  {
    assert chunks[..0] == [];
  }

  lemma EndIsLength(chunks: seq<string>, i: nat)
    requires i <= |chunks|
    ensures EndOf(chunks, i) == |Flatten(chunks[..i])|
  {
  }

  lemma EndsOfFront(chunks: seq<string>, m: nat)
    requires m <= |chunks|
    ensures forall i :: 0 <= i <= m ==> EndOf(chunks[..m], i) == EndOf(chunks, i)
  {
    assert forall i :: 0 <= i <= m ==> chunks[..m][..i] == chunks[..i];
  }

  lemma EndsAscend(chunks: seq<string>, i: nat, j: nat)
    requires i <= j <= |chunks|
    ensures EndOf(chunks, i) <= EndOf(chunks, j)
  {
    FlattenPrefix(chunks[..j], i);
    assert chunks[..j][..i] == chunks[..i];
  }

  lemma ChunksAreNotEmpty(chunks: seq<string>, i: nat)
    requires Proper(chunks) && 1 <= i <= |chunks|
    ensures EndOf(chunks, i) >= 1
  {
    assert chunks[..i][..i - 1] == chunks[..i - 1];
    assert chunks[..i][i - 1] == chunks[i - 1];
  }

  lemma EndInSplit(hs: seq<string>, chunk: string, bs: seq<string>, j: nat)
    requires j <= |hs| + 1 + |bs|
    ensures EndOf(hs + [chunk] + bs, j)
            == if j <= |hs| then EndOf(hs, j) else |Flatten(hs)| + |chunk| + EndOf(bs, j - |hs| - 1)
  {
    hide Flatten;
    var cs := hs + [chunk] + bs;
    if j <= |hs| {
      assert cs[..j] == hs[..j];
    } else {
      var rest := bs[..j - |hs| - 1];
      assert cs[..j] == hs + [chunk] + rest;
      FlattenThree(hs, chunk, rest);
    }
  }

  /** Some chunk ends `p` bytes into the stream, or the first one starts there. */
  ghost predicate Boundary(chunks: seq<string>, p: int) {
    exists j: nat :: j <= |chunks| && EndOf(chunks, j) == p
  }

  lemma EndIsBoundary(chunks: seq<string>, i: nat)
    requires i <= |chunks|
    ensures Boundary(chunks, EndOf(chunks, i))
  {
  }

  lemma StartIsBoundary(chunks: seq<string>)
    ensures Boundary(chunks, 0)
  {
    NoEnd(chunks);
  }

  lemma BoundaryIsWithin(chunks: seq<string>, p: int)
    requires Boundary(chunks, p)
    ensures 0 <= p <= |Flatten(chunks)|
  {
    var j: nat :| j <= |chunks| && EndOf(chunks, j) == p;
    FlattenPrefix(chunks, j);
  }

  lemma ChunkUpTo(chunks: seq<string>, p: nat) returns (i: nat)
    requires p > 0 && Boundary(chunks, p)
    ensures 1 <= i <= |chunks| && EndOf(chunks, i) == |Flatten(chunks[..i])| == p
  {
    i :| i <= |chunks| && EndOf(chunks, i) == p;
    assert chunks[..0] == [];
  }

  lemma BoundarySplits(hs: seq<string>, chunk: string, bs: seq<string>, p: int)
    ensures Boundary(hs + [chunk] + bs, p)
            <==> Boundary(hs, p) || Boundary(bs, p - |Flatten(hs)| - |chunk|)
  {
    hide Flatten, EndOf;
    var cs, m := hs + [chunk] + bs, |hs| + 1;
    if Boundary(cs, p) {
      var j: nat :| j <= |cs| && EndOf(cs, j) == p;
      EndInSplit(hs, chunk, bs, j);
    }
    if Boundary(hs, p) {
      var j: nat :| j <= |hs| && EndOf(hs, j) == p;
      EndInSplit(hs, chunk, bs, j);
    }
    if Boundary(bs, p - |Flatten(hs)| - |chunk|) {
      var j: nat :| j <= |bs| && EndOf(bs, j) == p - |Flatten(hs)| - |chunk|;
      EndInSplit(hs, chunk, bs, m + j);
    }
  }

  /** The chunk that takes the stream past `lo` bytes, and what lies before and behind it. */
  lemma {:induction false} FirstPast(chunks: seq<string>, lo: nat)
    returns (hs: seq<string>, chunk: string, bs: seq<string>)
    requires |Flatten(chunks)| > lo
    ensures chunks == hs + [chunk] + bs
    ensures |Flatten(hs)| <= lo < |Flatten(hs)| + |chunk|
    ensures Flatten(chunks) == Flatten(hs) + chunk + Flatten(bs)
  {
    var front, last := chunks[..|chunks| - 1], chunks[|chunks| - 1];
    if |Flatten(front)| <= lo {
      hs, chunk, bs := front, last, [];
    } else {
      hs, chunk, bs := FirstPast(front, lo);
      bs := bs + [last];
    }
    assert chunks == hs + [chunk] + bs;
    FlattenThree(hs, chunk, bs);
  }

  /** The chunk that takes the stream from at most `lo` to at least `hi` bytes fills the buffer
      and has no NUL. */
  ghost predicate Overfills(chunks: seq<string>, lo: nat, hi: nat) {
    exists j: nat ::
      && j < |chunks| && EndOf(chunks, j) <= lo && hi <= EndOf(chunks, j + 1)
      && |chunks[j]| == BUFSIZE && NUL !in chunks[j]
  }

  /** Only one chunk can take the stream from `lo` to `hi`. */
  lemma OnlyOneCrosses(hs: seq<string>, chunk: string, bs: seq<string>, lo: nat, hi: nat, j: nat)
    requires |Flatten(hs)| <= lo < hi <= |Flatten(hs)| + |chunk| && j < |hs| + 1 + |bs|
    ensures EndOf(hs + [chunk] + bs, j) <= lo && hi <= EndOf(hs + [chunk] + bs, j + 1) <==> j == |hs|
  {
    hide EndOf, Flatten;
    EndInSplit(hs, chunk, bs, j);
    EndInSplit(hs, chunk, bs, j + 1);
    WholeEnd(hs);
    NoEnd(bs);
    if j < |hs| {
      EndsAscend(hs, j + 1, |hs|);
    }
  }

  lemma OverfillsIs(hs: seq<string>, chunk: string, bs: seq<string>, lo: nat, hi: nat)
    requires |Flatten(hs)| <= lo < hi <= |Flatten(hs)| + |chunk|
    ensures Overfills(hs + [chunk] + bs, lo, hi) <==> |chunk| == BUFSIZE && NUL !in chunk
  {
    hide EndOf, Flatten;
    var cs := hs + [chunk] + bs;
    assert cs[|hs|] == chunk;
    OnlyOneCrosses(hs, chunk, bs, lo, hi, |hs|);
    if Overfills(cs, lo, hi) {
      var j: nat :| j < |cs| && EndOf(cs, j) <= lo && hi <= EndOf(cs, j + 1) && |cs[j]| == BUFSIZE && NUL !in cs[j];
      OnlyOneCrosses(hs, chunk, bs, lo, hi, j);
    }
  }

  // ---------------------------------------------------------------- other bytes in the same chunks

  ghost predicate SameSizes(a: seq<string>, b: seq<string>) {
    |a| == |b| && forall i :: 0 <= i < |a| ==> |a[i]| == |b[i]|
  }

  lemma {:induction false} SameEnds(a: seq<string>, b: seq<string>, j: nat)
    requires SameSizes(a, b) && j <= |a|
    ensures EndOf(a, j) == EndOf(b, j)
  {
    if j == 0 {
    } else {
      SameEnds(a, b, j - 1);
      assert a[..j][..j - 1] == a[..j - 1] && b[..j][..j - 1] == b[..j - 1];
    }
  }

  lemma SameLength(a: seq<string>, b: seq<string>)
    requires SameSizes(a, b)
    ensures |Flatten(a)| == |Flatten(b)| && (Proper(a) <==> Proper(b))
  {
    SameEnds(a, b, |a|);
    WholeEnd(a);
    WholeEnd(b);
  }

  lemma SameBoundaries(a: seq<string>, b: seq<string>)
    requires SameSizes(a, b)
    ensures forall p :: Boundary(a, p) <==> Boundary(b, p)
  {
    hide EndOf;
    forall j: nat | j <= |a|
      ensures EndOf(a, j) == EndOf(b, j)
    {
      SameEnds(a, b, j);
    }
  }

  /** The text cut where `chunks` are cut. */
  function Recut(chunks: seq<string>, text: string): (r: seq<string>)
    requires |text| == |Flatten(chunks)|
    ensures |r| == |chunks|
  {
    if chunks == [] then []
    else
      var front, k := chunks[..|chunks| - 1], |text| - |chunks[|chunks| - 1]|;
      Recut(front, text[..k]) + [text[k..]]
  }

  lemma {:induction false} RecutIs(chunks: seq<string>, text: string)
    requires |text| == |Flatten(chunks)|
    ensures SameSizes(Recut(chunks, text), chunks) && Flatten(Recut(chunks, text)) == text
  {
    if chunks == [] {
    } else {
      var front, k := chunks[..|chunks| - 1], |text| - |chunks[|chunks| - 1]|;
      RecutIs(front, text[..k]);
      var r := Recut(chunks, text);
      assert r[..|r| - 1] == Recut(front, text[..k]);
    }
  }
}
