/** What the client makes of the whole answer with a file, in every split. */
module GfSplits {
  import opened Chunks
  import opened CString
  import opened Decimal
  import opened GfClient
  import opened GfDelivery

  // ---------------------------------------------------------------- breaks

  /** Inside the four characters that end the header. */
  predicate InsideEnd(p: int, n: nat) {
    |Preamble(n)| < p < |OkHeader(n)|
  }

  /** Some chunk ends inside the end of the header. */
  ghost predicate IsBroken(chunks: seq<string>, n: nat) {
    exists p :: InsideEnd(p, n) && Boundary(chunks, p)
  }

  ghost predicate FirstBreak(chunks: seq<string>, n: nat, p: int) {
    && InsideEnd(p, n) && Boundary(chunks, p)
    && forall q :: InsideEnd(q, n) && Boundary(chunks, q) ==> p <= q
  }

  /** The chunk that takes the stream past the preamble, and what lies before and behind it. */
  lemma SplitAtPreamble(chunks: seq<string>, file: string)
    returns (hs: seq<string>, chunk: string, bs: seq<string>)
    requires Flatten(chunks) <= OkHeader(|file|) + file && !(Flatten(chunks) <= Preamble(|file|))
    ensures chunks == hs + [chunk] + bs && Flatten(chunks) == Flatten(hs) + chunk + Flatten(bs)
    ensures Flatten(hs) <= Preamble(|file|) && |Flatten(hs) + chunk| > |Preamble(|file|)|
  {
    hide Flatten, Preamble, OkHeader;
    var p, q := Preamble(|file|), "\r\n\r\n" + file;
    PreambleInHeader(|file|);
    assert OkHeader(|file|) + file == p + q;
    PrefixOfConcat(Flatten(chunks), p, q);
    hs, chunk, bs := FirstPast(chunks, |p|);
    PrefixOfConcat(Flatten(hs), p, q);
  }

  /** Where the boundaries past the preamble are: the first one, and those behind it. */
  lemma BoundariesPast(hs: seq<string>, chunk: string, bs: seq<string>, p: int, n: nat)
    requires |Flatten(hs)| <= |Preamble(n)| < p
    ensures Boundary(hs + [chunk] + bs, p) <==> Boundary(bs, p - |Flatten(hs)| - |chunk|)
  {
    hide Flatten, Boundary, Preamble;
    BoundarySplits(hs, chunk, bs, p);
    if Boundary(hs, p) {
      BoundaryIsWithin(hs, p);
    }
  }

  /** The first break, if there is one, is where the chunk ends that goes past the preamble. */
  lemma BreakIs(hs: seq<string>, chunk: string, bs: seq<string>, n: nat, p: int)
    requires |Flatten(hs)| <= |Preamble(n)| < |Flatten(hs)| + |chunk|
    ensures FirstBreak(hs + [chunk] + bs, n, p)
            <==> p == |Flatten(hs)| + |chunk| && p < |OkHeader(n)|
    ensures InsideEnd(p, n) && Boundary(hs + [chunk] + bs, p) ==> p >= |Flatten(hs)| + |chunk|
  {
    hide Flatten, Boundary, Preamble, OkHeader;
    var cs, first := hs + [chunk] + bs, |Flatten(hs)| + |chunk|;
    BoundariesPast(hs, chunk, bs, first, n);
    StartIsBoundary(bs);
    forall q | InsideEnd(q, n) && Boundary(cs, q)
      ensures q >= first
    {
      BoundariesPast(hs, chunk, bs, q, n);
      BoundaryIsWithin(bs, q - first);
    }
  }

  /** A chunk that ends inside the last four characters of the header. */
  lemma ChunkThatBreaks(h: string, chunk: string, rest: string, file: string) returns (k: nat)
    requires h <= Preamble(|file|) && h + chunk + rest <= OkHeader(|file|) + file
    requires |Preamble(|file|)| < |h + chunk| < |OkHeader(|file|)|
    ensures 1 <= k <= 3 && chunk == (Preamble(|file|) + "\r\n\r"[..k])[|h|..]
  {
    var p, all := Preamble(|file|), OkHeader(|file|) + file;
    k := |h + chunk| - |p|;
    assert OkHeader(|file|) == p + "\r\n\r\n";
    assert h + chunk == all[..|h + chunk|] == p + "\r\n\r"[..k];
    assert chunk == (h + chunk)[|h|..];
  }

  /** A chunk that goes past the preamble and brings the whole end of the header. */
  lemma ChunkThatCompletes(h: string, chunk: string, rest: string, file: string) returns (h2: string, b: string)
    requires h <= Preamble(|file|) && h + chunk + rest <= OkHeader(|file|) + file
    requires |h + chunk| >= |OkHeader(|file|)|
    ensures chunk == h2 + b && h + h2 == OkHeader(|file|) && |b| + |rest| <= |file|
    ensures h + chunk + rest == OkHeader(|file|) + file || |b| + |rest| < |file|
    ensures NUL in chunk <==> NUL in b
  {
    var header := OkHeader(|file|);
    h2, b := chunk[..|header| - |h|], chunk[|header| - |h|..];
    assert chunk == h2 + b;
    assert h + h2 == (h + chunk)[..|header|] == (h + chunk + rest)[..|header|] == (header + file)[..|header|] == header;
    NumberIsWord(|file|);
    PreambleInHeader(|file|);
    NoNulInHeader(Print(|file|));
    assert NUL !in h2 by { assert forall i :: 0 <= i < |h2| ==> h2[i] == header[|h| + i]; }
    assert |h + chunk + rest| == |header| + |b| + |rest|;
  }

  lemma NotBroken(hs: seq<string>, chunk: string, bs: seq<string>, n: nat)
    requires |Flatten(hs)| <= |Preamble(n)| && |OkHeader(n)| <= |Flatten(hs)| + |chunk|
    ensures !IsBroken(hs + [chunk] + bs, n)
  {
    hide Flatten, Boundary, Preamble, OkHeader;
    PreambleInHeader(n);
    forall p | InsideEnd(p, n)
      ensures !Boundary(hs + [chunk] + bs, p)
    {
      BreakIs(hs, chunk, bs, n, p);
    }
  }

  // ---------------------------------------------------------------- with a break

  /** The client waits for the rest of a file of `n` bytes, and has passed `written` on. */
  predicate Waits(c: Client, text: string, written: string, n: nat) {
    TakingBody(c) && c.status == OK && c.filelen == n && c.fullData == text && c.written == written
  }

  lemma BodyAfterBreak(c: Client, bs: seq<string>, n: nat)
    requires Waits(c, c.fullData, "", n) && Proper(bs)
    ensures var d := Feed(c, Deliveries(bs));
            && ((forall i :: 1 <= i <= |bs| ==> EndOf(bs, i) != n) ==> Waits(d, c.fullData, Flatten(bs), n))
            && forall i :: 1 <= i <= |bs| && EndOf(bs, i) == n ==> Delivered(d, Flatten(bs[..i]))
  {
    hide Feed, EndOf, Flatten;
    if forall i :: 1 <= i <= |bs| ==> EndOf(bs, i) != n {
      BodyGoesOn(c, bs);
    }
    forall i | 1 <= i <= |bs| && EndOf(bs, i) == n
      ensures Delivered(Feed(c, Deliveries(bs)), Flatten(bs[..i]))
    {
      BodyStopsAt(c, bs, i);
      EndIsLength(bs, i);
    }
  }

  /** A boundary `k` characters behind the preamble, then the chunks `bs`: they are taken for the
      file, which is complete when some chunk ends exactly `n` bytes behind that boundary. */
  lemma AfterBreak(hs: seq<string>, k: nat, bs: seq<string>, n: nat)
    requires n <= LONG_MAX && Flatten(hs) <= Preamble(n) && 1 <= k <= 3 && Proper(bs)
    ensures var text := Preamble(n) + "\r\n\r"[..k];
            var c := Feed(START, Deliveries(hs + [text[|Flatten(hs)|..]] + bs));
            && ((forall i :: 1 <= i <= |bs| ==> EndOf(bs, i) != n) ==> Waits(c, text, Flatten(bs), n))
            && forall i :: 1 <= i <= |bs| && EndOf(bs, i) == n ==> Delivered(c, Flatten(bs[..i]))
  {
    hide Receive, Flatten, Feed, Preamble, EndOf, Delivered;
    var chunk := (Preamble(n) + "\r\n\r"[..k])[|Flatten(hs)|..];
    BrokenHeader(hs, n, k);
    FeedThree(hs, chunk, bs);
    BodyAfterBreak(Receive(Feed(START, Deliveries(hs)), Data(chunk)), bs, n);
  }

  lemma AtBreak(hs: seq<string>, chunk: string, bs: seq<string>, file: string)
    requires |file| <= LONG_MAX && Proper(hs + [chunk] + bs)
    requires Flatten(hs) <= Preamble(|file|) && Flatten(hs) + chunk + Flatten(bs) <= OkHeader(|file|) + file
    requires |Preamble(|file|)| < |Flatten(hs) + chunk| < |OkHeader(|file|)|
    ensures var cs, p := hs + [chunk] + bs, |Flatten(hs) + chunk|;
            var c, text := Feed(START, Deliveries(cs)), Flatten(cs);
            && FirstBreak(cs, |file|, p) && p <= |text|
            && if |file| > 0 && Boundary(cs, p + |file|)
               then p + |file| <= |text| && Delivered(c, text[p..p + |file|])
               else Waits(c, text[..p], text[p..], |file|)
  {
    hide Flatten, Boundary, Preamble, OkHeader, Feed, EndOf, Delivered, Waits;
    var cs, n, p := hs + [chunk] + bs, |file|, |Flatten(hs) + chunk|;
    ProperParts(hs, chunk, bs);
    BreakIs(hs, chunk, bs, n, p);
    FlattenThree(hs, chunk, bs);
    var k := ChunkThatBreaks(Flatten(hs), chunk, Flatten(bs), file);
    AfterBreak(hs, k, bs, n);
    assert Flatten(cs)[p..] == Flatten(bs);
    assert Flatten(cs)[..p] == Flatten(hs) + chunk == Preamble(n) + "\r\n\r"[..k];
    BoundariesPast(hs, chunk, bs, p + n, n);
    if n > 0 && Boundary(bs, n) {
      var i := ChunkUpTo(bs, n);
      FlattenPrefix(bs, i);
      assert Flatten(cs)[p..p + n] == Flatten(bs)[..n] == Flatten(bs[..i]);
    } else {
      forall i | 1 <= i <= |bs|
        ensures EndOf(bs, i) != n
      {
        ChunksAreNotEmpty(bs, i);
        EndIsBoundary(bs, i);
      }
    }
  }

  /** With a boundary inside the end of the header, the client passes on what comes behind the
      first one, the rest of the header included, and stops if some chunk ends `n` bytes later. */
  lemma BrokenHeaderIsWritten(chunks: seq<string>, file: string, p: nat)
    requires |file| <= LONG_MAX && Proper(chunks) && Flatten(chunks) <= OkHeader(|file|) + file
    requires FirstBreak(chunks, |file|, p)
    ensures var c, n, text := Feed(START, Deliveries(chunks)), |file|, Flatten(chunks);
            && p <= |text|
            && if n > 0 && Boundary(chunks, p + n)
               then p + n <= |text| && Delivered(c, text[p..p + n])
               else Waits(c, text[..p], text[p..], n)
    ensures p < |Flatten(chunks)| ==> Flatten(chunks)[p] == '\r' || Flatten(chunks)[p] == '\n'
  {
    hide Flatten, Boundary, Preamble, OkHeader, Feed, EndOf, Delivered, Waits;
    var n := |file|;
    BoundaryIsWithin(chunks, p);
    PreambleInHeader(n);
    var hs, chunk, bs := SplitAtPreamble(chunks, file);
    BreakIs(hs, chunk, bs, n, p);
    AtBreak(hs, chunk, bs, file);
    assert p < |Flatten(chunks)| ==> Flatten(chunks)[p] == OkHeader(n)[p] == "\r\n\r\n"[p - |Preamble(n)|];
  }

  // ---------------------------------------------------------------- when a file arrives

  predicate IsHarmless(b: string) {
    NUL !in b && '\n' !in b
  }

  /** The chunk that takes the stream to byte `h` leaves room in the buffer, and brings neither a
      NUL nor a line feed from behind that byte. */
  ghost predicate EndsCleanly(chunks: seq<string>, h: nat) {
    exists j: nat ::
      && j < |chunks| && EndOf(chunks, j) < h <= EndOf(chunks, j + 1) <= |Flatten(chunks)|
      && |chunks[j]| < BUFSIZE && IsHarmless(Flatten(chunks)[h..EndOf(chunks, j + 1)])
  }

  /** Exactly then a stream that holds the whole answer delivers the file: without a boundary
      inside the end of the header, if the chunk with that end does no harm; with one, if the
      file is what follows the first of them, and some chunk ends behind it. */
  ghost predicate Arrives(chunks: seq<string>, file: string) {
    if IsBroken(chunks, |file|) then
      exists p: nat :: FirstBreak(chunks, |file|, p) && Boundary(chunks, p + |file|)
                       && p + |file| <= |Flatten(chunks)| && Flatten(chunks)[p..p + |file|] == file
    else
      EndsCleanly(chunks, |OkHeader(|file|)|)
  }

  lemma EndsCleanlyIs(hs: seq<string>, chunk: string, bs: seq<string>, h: nat)
    requires |Flatten(hs)| < h <= |Flatten(hs) + chunk|
    ensures EndsCleanly(hs + [chunk] + bs, h)
            <==> |chunk| < BUFSIZE && IsHarmless((Flatten(hs) + chunk)[h..])
  {
    hide EndOf, Flatten, IsHarmless;
    var cs := hs + [chunk] + bs;
    assert cs[|hs|] == chunk;
    forall j: nat | j < |cs|
      ensures EndOf(cs, j) <= h - 1 && h <= EndOf(cs, j + 1) <==> j == |hs|
    {
      OnlyOneCrosses(hs, chunk, bs, h - 1, h, j);
    }
    EndInSplit(hs, chunk, bs, |hs| + 1);
    NoEnd(bs);
    FlattenThree(hs, chunk, bs);
    assert Flatten(cs)[h..EndOf(cs, |hs| + 1)] == (Flatten(hs) + chunk)[h..];
  }

  lemma ArrivesUnbroken(hs: seq<string>, chunk: string, bs: seq<string>, file: string)
    requires 1 <= |file| <= LONG_MAX && Proper(hs + [chunk] + bs)
    requires Flatten(hs) <= Preamble(|file|) && Flatten(hs) + chunk + Flatten(bs) == OkHeader(|file|) + file
    requires |Flatten(hs) + chunk| >= |OkHeader(|file|)|
    ensures Delivered(Feed(START, Deliveries(hs + [chunk] + bs)), file)
            <==> EndsCleanly(hs + [chunk] + bs, |OkHeader(|file|)|)
  {
    hide Flatten, Preamble, OkHeader, Feed, EndsCleanly, Delivered;
    PreambleInHeader(|file|);
    var h2, b := ChunkThatCompletes(Flatten(hs), chunk, Flatten(bs), file);
    var all := Flatten(hs) + h2 + (b + Flatten(bs));
    assert Flatten(hs) + chunk + Flatten(bs) == all;
    assert file == all[|OkHeader(|file|)|..] == b + Flatten(bs);
    DeliveredIff(hs, h2, b, bs, file);
    EndsCleanlyIs(hs, chunk, bs, |OkHeader(|file|)|);
    assert (Flatten(hs) + chunk)[|OkHeader(|file|)|..] == b by { assert Flatten(hs) + chunk == Flatten(hs) + h2 + b; }
  }

  /** The main result: a non-empty file arrives in exactly the splits that `Arrives` describes. */
  lemma ArrivesIff(chunks: seq<string>, file: string)
    requires 1 <= |file| <= LONG_MAX && Proper(chunks) && Flatten(chunks) == OkHeader(|file|) + file
    ensures Delivered(Feed(START, Deliveries(chunks)), file) <==> Arrives(chunks, file)
  {
    hide Flatten, Boundary, Preamble, OkHeader, Feed, EndOf, EndsCleanly;
    var n := |file|;
    PreambleInHeader(n);
    var hs, chunk, bs := SplitAtPreamble(chunks, file);
    var first := |Flatten(hs) + chunk|;
    if first < |OkHeader(n)| {
      AtBreak(hs, chunk, bs, file);
      forall p
        ensures FirstBreak(chunks, n, p) ==> p == first
      {
        BreakIs(hs, chunk, bs, n, p);
      }
      assert IsBroken(chunks, n) by { assert InsideEnd(first, n) && Boundary(chunks, first); }
    } else {
      NotBroken(hs, chunk, bs, n);
      ArrivesUnbroken(hs, chunk, bs, file);
    }
  }

  /** The file need not be lost: here it repeats the end of the header. */
  lemma BrokenHeaderCanDeliver()
    ensures Delivered(Feed(START, Deliveries(["GETFILE OK 3 \r", "\n\r\n", "\n\r\n"])), "\n\r\n")
  {
    assert Print(3) == "3";
    hide Feed, Print;
    var bs := ["\n\r\n", "\n\r\n"];
    assert (Preamble(3) + "\r\n\r"[..1])[0..] == "GETFILE OK 3 \r";
    assert bs[..1] == ["\n\r\n"] && bs[..1][..0] == [];
    assert Flatten(bs[..1]) == "\n\r\n";
    AfterBreak([], 1, bs, 3);
    assert [] + ["GETFILE OK 3 \r"] + bs == ["GETFILE OK 3 \r", "\n\r\n", "\n\r\n"];
  }

  // ---------------------------------------------------------------- splits that are safe for all files

  /** Whatever the file of `n` bytes, its answer arrives when it is cut where `chunks` are cut. */
  ghost predicate DeliversEveryFile(chunks: seq<string>, n: nat) {
    forall cs :: SameSizes(cs, chunks) && OkHeader(n) <= Flatten(cs) ==>
      Delivered(Feed(START, Deliveries(cs)), Flatten(cs)[|OkHeader(n)|..])
  }

  function Fill(c: char, n: nat): (s: string)
    ensures |s| == n && forall i :: 0 <= i < n ==> s[i] == c
  {
    seq(n, _ => c)
  }

  lemma SafeIfBoundary(cs: seq<string>, file: string)
    requires 1 <= |file| <= LONG_MAX && Proper(cs) && Flatten(cs) == OkHeader(|file|) + file
    requires !IsBroken(cs, |file|) && Boundary(cs, |OkHeader(|file|)|)
    ensures Arrives(cs, file)
  {
    hide Flatten, Preamble, OkHeader;
    var h := |OkHeader(|file|)|;
    PreambleInHeader(|file|);
    PreambleIsShort(|file|);
    var i := ChunkUpTo(cs, h);
    assert cs[..i] == cs[..i - 1] + [cs[i - 1]];
    FlattenLast(cs[..i - 1], cs[i - 1]);
    FlattenPrefix(cs, i);
    assert |cs[i - 1]| == EndOf(cs, i) - EndOf(cs, i - 1);
    assert IsHarmless(Flatten(cs)[h..EndOf(cs, i)]);
    var j := i - 1;
    assert j < |cs| && EndOf(cs, j) < h <= EndOf(cs, j + 1) <= |Flatten(cs)| && |cs[j]| < BUFSIZE;
  }

  lemma UnsafeOtherwise(chunks: seq<string>, n: nat) returns (cs: seq<string>, file: string)
    requires 1 <= n <= LONG_MAX && Proper(chunks) && |Flatten(chunks)| == |OkHeader(n)| + n
    requires IsBroken(chunks, n) || !Boundary(chunks, |OkHeader(n)|)
    ensures |file| == n && SameSizes(cs, chunks) && Flatten(cs) == OkHeader(n) + file && !Arrives(cs, file)
  {
    hide Flatten, Preamble, OkHeader, EndOf, Boundary;
    PreambleInHeader(n);
    file := Fill(if IsBroken(chunks, n) then 'x' else '\n', n);
    var text := OkHeader(n) + file;
    RecutIs(chunks, text);
    cs := Recut(chunks, text);
    SameBoundaries(cs, chunks);
    if IsBroken(chunks, n) {
      assert IsBroken(cs, n);
      forall p: nat | FirstBreak(cs, n, p) && p + n <= |text|
        ensures text[p..p + n] != file
      {
        assert text[p..p + n][0] == text[p] == "\r\n\r\n"[p - |Preamble(n)|];
      }
    } else {
      assert !IsBroken(cs, n);
      forall j: nat | j < |cs| && EndOf(cs, j) < |OkHeader(n)| <= EndOf(cs, j + 1) <= |text|
        ensures !IsHarmless(text[|OkHeader(n)|..EndOf(cs, j + 1)])
      {
        EndIsBoundary(cs, j + 1);
        assert text[|OkHeader(n)|..EndOf(cs, j + 1)][0] == file[0];
      }
    }
  }

  /** The splits that are safe for every file of `n` bytes are those with a boundary at the end of
      the header and none inside its last four characters, and no others. */
  lemma SafeSplits(chunks: seq<string>, n: nat)
    requires 1 <= n <= LONG_MAX && Proper(chunks) && |Flatten(chunks)| == |OkHeader(n)| + n
    ensures DeliversEveryFile(chunks, n) <==> !IsBroken(chunks, n) && Boundary(chunks, |OkHeader(n)|)
  {
    hide Flatten, Preamble, OkHeader, Feed, EndOf, Boundary, Delivered, Arrives;
    if !IsBroken(chunks, n) && Boundary(chunks, |OkHeader(n)|) {
      forall cs | SameSizes(cs, chunks) && OkHeader(n) <= Flatten(cs)
        ensures Delivered(Feed(START, Deliveries(cs)), Flatten(cs)[|OkHeader(n)|..])
      {
        SameBoundaries(cs, chunks);
        SameLength(cs, chunks);
        var file := Flatten(cs)[|OkHeader(n)|..];
        assert Flatten(cs) == OkHeader(n) + file;
        SafeIfBoundary(cs, file);
        ArrivesIff(cs, file);
      }
    } else {
      var cs, file := UnsafeOtherwise(chunks, n);
      ArrivesIff(cs, file);
      assert Flatten(cs)[|OkHeader(n)|..] == file;
    }
  }
}
