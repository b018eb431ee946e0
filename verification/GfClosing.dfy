/** What the client makes of a connection that closes before the whole answer has come. */
module GfClosing {
  import opened Chunks
  import opened CString
  import opened Decimal
  import opened GfClient
  import opened GfDelivery
  import opened GfSplits

  lemma FeedThenClose(chunks: seq<string>)
    ensures Feed(START, Deliveries(chunks) + [Closed]) == Receive(Feed(START, Deliveries(chunks)), Closed)
  {
    FeedAppend(START, Deliveries(chunks), [Closed]);
    FeedOne(Feed(START, Deliveries(chunks)), Closed);
  }

  // ---------------------------------------------------------------- before the end of the header

  lemma SchemeAlone(text: string)
    requires text != "" && text <= "GETFILE"
    ensures NextToken(text + [NUL], " ") == Token(text, [NUL])
  {
    assert forall c :: c in text ==> c in "GETFILE";
    LastWord(text, [NUL], " ");
  }

  lemma PreambleTail(text: string, n: nat)
    requires text <= Preamble(n)
    ensures |text| < 8 ==> text <= "GETFILE"
    ensures |text| >= 8 ==> text == "GETFILE" + " " + text[8..] && text[8..] <= "OK " + (Print(n) + " ")
  {
    hide Print;
    var tail := "OK " + (Print(n) + " ");
    assert Preamble(n) == "GETFILE" + " " + tail;
    assert text == Preamble(n)[..|text|];
  }

  /** What has come of the length. */
  function LengthSeen(text: string): string
    requires |text| >= 12
  {
    if text[|text| - 1] == ' ' then text[11..|text| - 1] else text[11..]
  }

  lemma LengthInPreamble(rest: string, n: nat)
    requires rest != "" && rest <= Print(n) + " "
    ensures var digits := if rest[|rest| - 1] == ' ' then rest[..|rest| - 1] else rest;
            NextToken(rest + [NUL], " \r\n").Token? && NextToken(rest + [NUL], " \r\n").text == digits
  {
    hide Print, NextToken;
    NumberIsWord(n);
    if |rest| <= |Print(n)| {
      assert rest == Print(n)[..|rest|];
      assert rest[|rest| - 1] in Print(n);
      LastWord(rest, [NUL], " \r\n");
    } else {
      assert rest == Print(n) + " ";
      assert rest + [NUL] == Print(n) + [' '] + [NUL];
      LengthToken(Print(n), [NUL]);
    }
  }

  lemma PartialStatusWord(text: string, n: nat)
    requires text <= Preamble(n) && 9 <= |text| <= 10
    ensures NextToken(text[8..] + [NUL], " ") == Token(if |text| == 9 then "O" else "OK", [NUL])
  {
    hide NextToken, Print, Preamble;
    PreambleTail(text, n);
    assert text[8..] == ("OK " + (Print(n) + " "))[..|text| - 8] == "OK"[..|text| - 8];
    LastWord(text[8..], [NUL], " ");
  }

  lemma FullStatusWord(text: string, n: nat)
    requires text <= Preamble(n) && |text| >= 11
    ensures NextToken(text[8..] + [NUL], " ") == Token("OK", text[11..] + [NUL])
    ensures text[11..] <= Print(n) + " "
  {
    hide NextToken, Print, Preamble;
    PreambleTail(text, n);
    var rest, all := text[8..], "OK " + (Print(n) + " ");
    assert rest[..3] == all[..3] == "OK ";
    assert rest[3..] == text[11..] && rest[3..] == all[3..|rest|] <= Print(n) + " ";
    assert rest + [NUL] == "OK" + [' '] + (text[11..] + [NUL]);
    FirstWord("OK", ' ', text[11..] + [NUL], " ");
  }

  /** The words that the closing code finds when the header stops within the status or the length. */
  lemma StatusWordStarts(text: string, n: nat)
    requires text <= Preamble(n) && |text| >= 9
    ensures var status := NextToken(text[8..] + [NUL], " ");
            && status.Token? && status.text == (if |text| == 9 then "O" else "OK") && NUL in status.rest
            && var length := NextToken(status.rest, " \r\n");
               if |text| <= 11 then length.NoToken? else length.Token? && length.text == LengthSeen(text)
  {
    hide NextToken, Print, Preamble;
    EmptyHasNoToken(" \r\n");
    if |text| <= 10 {
      PartialStatusWord(text, n);
    } else {
      FullStatusWord(text, n);
      assert (text[11..] + [NUL])[|text| - 11] == NUL;
      if |text| == 11 {
        assert text[11..] + [NUL] == [NUL];
      } else {
        LengthInPreamble(text[11..], n);
      }
    }
  }

  lemma SchemeOfBrokenPreamble(text: string, n: nat)
    requires text <= Preamble(n)
    ensures var scheme := NextToken(text + [NUL], " ");
            if |text| >= 8 then scheme == Token("GETFILE", text[8..] + [NUL])
            else !scheme.Overrun? && NextToken(scheme.rest, " ") == NoToken([NUL])
  {
    hide Preamble, Print, NextToken;
    PreambleTail(text, n);
    EmptyHasNoToken(" ");
    if text == "" {
      assert text + [NUL] == [NUL];
    } else if |text| < 8 {
      SchemeAlone(text);
    } else {
      assert text + [NUL] == "GETFILE" + " " + (text[8..] + [NUL]);
      WordsOfHeader(text[8..] + [NUL]);
    }
  }

  /** If the connection closes before the first carriage return, the client returns -1 when at
      least one character of the status has come; with less, `strcmp` gets a null pointer.  It
      reports what has come of the length as if that were all. */
  lemma ClosedInHeader(hs: seq<string>, n: nat)
    requires n <= SIZE_MAX && Flatten(hs) <= Preamble(n)
    ensures var c, text := Feed(START, Deliveries(hs) + [Closed]), Flatten(hs);
            && c.written == "" && c.outcome == (if |text| >= 9 then Returned(-1) else Unspecified)
            && (|text| >= 9 ==>
                  && c.status == (if |text| == 9 then INVALID else if |text| == 10 then FILE_NOT_FOUND else OK)
                  && c.filelen == (if |text| <= 11 then 0 else FileLength(LengthSeen(text))))
  {
    hide NextToken, ParseHeader, ReceiveBody, Preamble, Flatten, FileLength;
    var text := Flatten(hs);
    CommitsToNothingEarly(hs, n);
    FeedThenClose(hs);
    SchemeOfBrokenPreamble(text, n);
    EmptyHasNoToken(" \r\n");
    if |text| >= 9 {
      StatusWordStarts(text, n);
    } else if |text| == 8 {
      assert text[8..] + [NUL] == [NUL];
      EmptyHasNoToken(" ");
    }
  }

  // ---------------------------------------------------------------- behind the header

  /** Once the status OK is in the text, the end of the stream gives -1. */
  lemma CloseAfterStatus(c: Client, rest: string)
    requires c.outcome == Receiving && c.fullData == "GETFILE OK " + rest
    ensures var d := Receive(c, Closed);
            d.outcome == Returned(-1) && d.status == c.status && d.written == c.written
  {
    hide NextToken, ParseHeader, ReceiveBody;
    var m := rest + [NUL];
    assert c.fullData + [NUL] == "GETFILE" + " " + ("OK" + " " + m);
    WordsOfHeader("OK" + " " + m);
    FirstWord("OK", ' ', m, " ");
    NeverOverruns(m, " \r\n");
  }

  lemma CloseAfterHeader(c: Client, n: nat)
    requires c.outcome == Receiving && c.fullData == OkHeader(n) && c.status == OK
    ensures Receive(c, Closed)
            == c.(filelenstr := Print(n), filelen := FileLength(Print(n)), outcome := Returned(-1))
  {
    hide NextToken, ParseHeader, ReceiveBody, FileLength, Print, OkHeader, HeaderOf;
    PreambleInHeader(n);
    var rest := HeaderShape(Print(n), "");
    assert OkHeader(n) + "" == OkHeader(n);
    var m := rest + [NUL];
    assert c.fullData + [NUL] == "GETFILE" + " " + ("OK" + " " + m);
    WordsOfHeader("OK" + " " + m);
    FirstWord("OK", ' ', m, " ");
    NumberIsWord(n);
    LengthToken(Print(n), "\r\n\r\n" + "" + [NUL]);
  }

  lemma FeedNothing(c: Client)
    ensures Feed(c, Deliveries([])) == c
  {
  }

  /** If the connection closes before the whole file is there, and also for an empty file, the
      client returns -1; it reports the bytes that came, and they have been passed on. */
  lemma ClosedEarly(hs: seq<string>, bs: seq<string>, n: nat)
    requires n <= LONG_MAX && CleanSplit(hs, n) && Proper(bs)
    requires |Flatten(bs)| < n || (n == 0 && bs == [])
    ensures var c := Feed(START, Deliveries(hs + bs) + [Closed]);
            && c.outcome == Returned(-1) && c.status == OK && c.filelen == n
            && c.written == Flatten(bs) && c.bytesFileReceived == |Flatten(bs)|
  {
    hide Receive, Feed, OkHeader, Preamble;
    var front, last := LastHeaderChunk(hs, n);
    assert last + "" == last;
    var c := AfterHeader(front, last, "", n);
    LengthSurvives(n);
    FeedThree(front, last, bs);
    var d := Feed(START, Deliveries(hs + bs));
    if bs == [] {
      FeedNothing(c);
    } else {
      BodyArrives(c, bs);
    }
    FeedThenClose(hs + bs);
    CloseAfterHeader(d, n);
  }

  lemma ClosedInBody(c: Client, bs: seq<string>, rest: string)
    requires TakingBody(c) && c.fullData == "GETFILE OK " + rest
    requires bs == [] || |c.written| + |Flatten(bs)| < c.filelen
    ensures Receive(Feed(c, Deliveries(bs)), Closed).outcome == Returned(-1)
  {
    hide Receive, Feed, Flatten;
    forall i | 1 <= i <= |bs|
      ensures |c.written| + EndOf(bs, i) != c.filelen
    {
      FlattenPrefix(bs, i);
    }
    BodyGoesOn(c, bs);
    CloseAfterStatus(Feed(c, Deliveries(bs)), rest);
  }

  /** No boundary there, and then the end before the whole file is in, or an empty file. */
  lemma ClosedAfterHeader(hs: seq<string>, h2: string, b: string, bs: seq<string>, n: nat)
    requires n <= LONG_MAX && Flatten(hs) <= Preamble(n) && Flatten(hs) + h2 == OkHeader(n)
    requires |h2 + b| <= BUFSIZE
    requires |b| + |Flatten(bs)| < n || (b == "" && bs == [])
    ensures Feed(START, Deliveries(hs + [h2 + b] + bs) + [Closed]).outcome
            == if |h2 + b| == BUFSIZE && NUL !in b then Unspecified else Returned(-1)
  {
    hide Receive, ParseHeader, Flatten, Feed, OkHeader, HeaderOf, Preamble, FileLength, Print;
    FeedThree(hs, h2 + b, bs);
    FeedThenClose(hs + [h2 + b] + bs);
    var d := Feed(START, Deliveries(hs + [h2 + b] + bs));
    if |h2 + b| == BUFSIZE && NUL !in b {
      FullBufferIsUnspecified(hs, h2, b, n);
      OutcomeIsFinal(Receive(Feed(START, Deliveries(hs)), Data(h2 + b)), Deliveries(bs));
      OutcomeIsFinal(d, [Closed]);
      FeedOne(d, Closed);
    } else {
      var c := AfterHeader(hs, h2, b, n);
      LengthSurvives(n);
      PreambleInHeader(n);
      var rest := HeaderShape(Print(n), TextOf(b));
      assert "GETFILE" + " " + ("OK" + " " + rest) == "GETFILE OK " + rest;
      ClosedInBody(c, bs, rest);
    }
  }

  /** A connection that closes without a single byte of the file: the end of the header is
      written, and the client reports that all three bytes have arrived. */
  lemma BrokenHeaderPosesAsFile()
    ensures var c := Feed(START, [Data("GETFILE OK 3 \r"), Data("\n\r\n"), Closed]);
            c.outcome == Returned(0) && c.status == OK && c.filelen == c.bytesFileReceived == 3 && c.written == "\n\r\n"
  {
    assert Print(3) == "3";
    hide Feed, Receive, Print;
    var bs := ["\n\r\n"];
    var cs := ["GETFILE OK 3 \r", "\n\r\n"];
    assert (Preamble(3) + "\r\n\r"[..1])[0..] == "GETFILE OK 3 \r";
    assert bs[..1] == bs && bs[..0] == [];
    assert Flatten(bs[..1]) == "\n\r\n";
    AfterBreak([], 1, bs, 3);
    assert [] + ["GETFILE OK 3 \r"] + bs == cs;
    FeedThenClose(cs);
    OutcomeIsFinal(Feed(START, Deliveries(cs)), [Closed]);
    FeedOne(Feed(START, Deliveries(cs)), Closed);
    assert Deliveries(cs) + [Closed] == [Data("GETFILE OK 3 \r"), Data("\n\r\n"), Closed];
  }

  // ---------------------------------------------------------------- every stream that ends early

  /** When the client still waits for more: without a boundary inside the end of the header, if
      the buffer was not overfilled; with one, if no later chunk ends `n` bytes behind the first
      of them. */
  ghost predicate StillWaits(chunks: seq<string>, n: nat) {
    if IsBroken(chunks, n) then
      forall p :: FirstBreak(chunks, n, p) ==> n == 0 || !Boundary(chunks, p + n)
    else
      !Overfills(chunks, |Preamble(n)|, |OkHeader(n)|)
  }

  /** When it notices that the stream has ended too early: if it still waits, and at least nine
      bytes came. */
  ghost predicate ClosureIsNoticed(chunks: seq<string>, n: nat) {
    StillWaits(chunks, n) && (IsBroken(chunks, n) || |Flatten(chunks)| >= 9)
  }

  lemma ClosureInPreamble(chunks: seq<string>, n: nat)
    requires n <= SIZE_MAX && Flatten(chunks) <= Preamble(n)
    ensures !IsBroken(chunks, n) && !Overfills(chunks, |Preamble(n)|, |OkHeader(n)|)
    ensures Feed(START, Deliveries(chunks) + [Closed]).outcome
            == if |Flatten(chunks)| >= 9 then Returned(-1) else Unspecified
  {
    hide Flatten, Boundary, Preamble, OkHeader, Feed, EndOf;
    PreambleInHeader(n);
    forall p | InsideEnd(p, n)
      ensures !Boundary(chunks, p)
    {
      if Boundary(chunks, p) {
        BoundaryIsWithin(chunks, p);
      }
    }
    WholeEnd(chunks);
    if Overfills(chunks, |Preamble(n)|, |OkHeader(n)|) {
      var j: nat :| && j < |chunks| && EndOf(chunks, j) <= |Preamble(n)| && |OkHeader(n)| <= EndOf(chunks, j + 1)
                    && |chunks[j]| == BUFSIZE && NUL !in chunks[j];
      EndsAscend(chunks, j + 1, |chunks|);
    }
    ClosedInHeader(chunks, n);
  }

  lemma StatusIsOk(text: string, behind: string, file: string) returns (rest: string)
    requires text + behind <= OkHeader(|file|) + file && |text| > |Preamble(|file|)|
    ensures text == "GETFILE OK " + rest
  {
    hide Print;
    rest := text[11..];
    assert text[..11] == (text + behind)[..11] == (OkHeader(|file|) + file)[..11] == "GETFILE OK ";
    assert text == text[..11] + rest;
  }

  lemma FinalAtClose(c: Client)
    requires c.outcome != Receiving
    ensures Receive(c, Closed) == c
  {
  }

  lemma ClosureAtBreak(hs: seq<string>, chunk: string, bs: seq<string>, file: string)
    requires |file| <= LONG_MAX && Proper(hs + [chunk] + bs)
    requires Flatten(hs) <= Preamble(|file|) && Flatten(hs) + chunk + Flatten(bs) <= OkHeader(|file|) + file
    requires |Preamble(|file|)| < |Flatten(hs) + chunk| < |OkHeader(|file|)|
    ensures var cs, p := hs + [chunk] + bs, |Flatten(hs) + chunk|;
            var c := Feed(START, Deliveries(cs) + [Closed]);
            && FirstBreak(cs, |file|, p)
            && if |file| > 0 && Boundary(cs, p + |file|)
               then p + |file| <= |Flatten(cs)| && Delivered(c, Flatten(cs)[p..p + |file|])
               else c.outcome == Returned(-1)
  {
    hide Flatten, Boundary, Preamble, OkHeader, Feed, Receive, FirstBreak;
    var cs, n, p := hs + [chunk] + bs, |file|, |Flatten(hs) + chunk|;
    AtBreak(hs, chunk, bs, file);
    FeedThenClose(cs);
    if n > 0 && Boundary(cs, p + n) {
      FinalAtClose(Feed(START, Deliveries(cs)));
    } else {
      var rest := StatusIsOk(Flatten(hs) + chunk, Flatten(bs), file);
      FlattenThree(hs, chunk, bs);
      assert Flatten(cs)[..p] == Flatten(hs) + chunk;
      CloseAfterStatus(Feed(START, Deliveries(cs)), rest);
    }
  }

  lemma ClosureAfterHeader(hs: seq<string>, chunk: string, bs: seq<string>, file: string)
    requires |file| <= LONG_MAX && Proper(hs + [chunk] + bs)
    requires Flatten(hs) <= Preamble(|file|) && Flatten(hs) + chunk + Flatten(bs) <= OkHeader(|file|) + file
    requires Flatten(hs) + chunk + Flatten(bs) != OkHeader(|file|) + file || file == ""
    requires |Flatten(hs) + chunk| >= |OkHeader(|file|)|
    ensures var cs, n := hs + [chunk] + bs, |file|;
            && !IsBroken(cs, n) && |Flatten(hs) + chunk| >= 9
            && Feed(START, Deliveries(cs) + [Closed]).outcome
               == if Overfills(cs, |Preamble(n)|, |OkHeader(n)|) then Unspecified else Returned(-1)
  {
    hide Flatten, Boundary, Preamble, OkHeader, Feed, EndOf, Overfills;
    var cs, n := hs + [chunk] + bs, |file|;
    ProperParts(hs, chunk, bs);
    var h2, b := ChunkThatCompletes(Flatten(hs), chunk, Flatten(bs), file);
    PreambleInHeader(n);
    NotBroken(hs, chunk, bs, n);
    OverfillsIs(hs, chunk, bs, |Preamble(n)|, |OkHeader(n)|);
    if |b| + |Flatten(bs)| >= n {
      assert bs == [] by {
        if bs != [] {
          ChunksAreNotEmpty(bs, |bs|);
          WholeEnd(bs);
        }
      }
    }
    ClosedAfterHeader(hs, h2, b, bs, n);
  }

  /** When a stream that ends before the whole file is in, and any stream with an empty file, is
      answered with -1: exactly when `ClosureIsNoticed`.  Otherwise the client takes a part of
      the stream for the file and reports success, or C leaves open what happens. */
  lemma ClosedEarlyIff(chunks: seq<string>, file: string)
    requires |file| <= LONG_MAX && Proper(chunks) && Flatten(chunks) <= OkHeader(|file|) + file
    requires Flatten(chunks) != OkHeader(|file|) + file || file == ""
    ensures var c, n, text := Feed(START, Deliveries(chunks) + [Closed]), |file|, Flatten(chunks);
            && (c.outcome == Returned(-1) <==> ClosureIsNoticed(chunks, n))
            && (c.outcome != Returned(-1) && !IsBroken(chunks, n) ==> c.outcome == Unspecified)
            && (c.outcome != Returned(-1) && IsBroken(chunks, n) ==>
                  exists p :: FirstBreak(chunks, n, p) && p + n <= |text| && Delivered(c, text[p..p + n]))
  {
    hide Flatten, Boundary, Preamble, OkHeader, Feed, EndOf, Overfills;
    var n := |file|;
    if Flatten(chunks) <= Preamble(n) {
      ClosureInPreamble(chunks, n);
    } else {
      var hs, chunk, bs := SplitAtPreamble(chunks, file);
      var first := |Flatten(hs) + chunk|;
      if first < |OkHeader(n)| {
        ClosureAtBreak(hs, chunk, bs, file);
        forall p
          ensures FirstBreak(chunks, n, p) ==> p == first
        {
          BreakIs(hs, chunk, bs, n, p);
        }
        assert IsBroken(chunks, n) by { assert InsideEnd(first, n) && Boundary(chunks, first); }
        assert ClosureIsNoticed(chunks, n) <==> n == 0 || !Boundary(chunks, first + n);
      } else {
        ClosureAfterHeader(hs, chunk, bs, file);
      }
    }
  }

  // ---------------------------------------------------------------- recv fails

  /** A failing `recv` ends the call with -1 unless it has ended already, and nothing else changes;
      what `recv` would return later does not matter. */
  lemma FailureIsFinal(rs: seq<Recv>, later: seq<Recv>)
    ensures var c := Feed(START, rs);
            Feed(START, rs + [Failed] + later)
            == if c.outcome == Receiving then c.(outcome := Returned(-1)) else c
  {
    var c := Feed(START, rs);
    FeedAppend(START, rs + [Failed], later);
    FeedAppend(START, rs, [Failed]);
    FeedOne(c, Failed);
    OutcomeIsFinal(Receive(c, Failed), later);
  }

  lemma WaitsInBody(hs: seq<string>, h2: string, b: string, bs: seq<string>, n: nat)
    requires n <= LONG_MAX && Flatten(hs) <= Preamble(n) && Flatten(hs) + h2 == OkHeader(n)
    requires |h2 + b| <= BUFSIZE
    requires |b| + |Flatten(bs)| < n || (b == "" && bs == [])
    ensures Feed(START, Deliveries(hs + [h2 + b] + bs)).outcome
            == if |h2 + b| == BUFSIZE && NUL !in b then Unspecified else Receiving
  {
    hide Receive, ParseHeader, Flatten, Feed, OkHeader, HeaderOf, Preamble, FileLength, Print, EndOf;
    FeedThree(hs, h2 + b, bs);
    if |h2 + b| == BUFSIZE && NUL !in b {
      FullBufferIsUnspecified(hs, h2, b, n);
      OutcomeIsFinal(Receive(Feed(START, Deliveries(hs)), Data(h2 + b)), Deliveries(bs));
    } else {
      var c := AfterHeader(hs, h2, b, n);
      LengthSurvives(n);
      forall i | 1 <= i <= |bs|
        ensures |c.written| + EndOf(bs, i) != c.filelen
      {
        FlattenPrefix(bs, i);
        EndIsLength(bs, i);
      }
      BodyGoesOn(c, bs);
    }
  }

  lemma WaitsAfterHeader(hs: seq<string>, chunk: string, bs: seq<string>, file: string)
    requires |file| <= LONG_MAX && Proper(hs + [chunk] + bs)
    requires Flatten(hs) <= Preamble(|file|) && Flatten(hs) + chunk + Flatten(bs) <= OkHeader(|file|) + file
    requires Flatten(hs) + chunk + Flatten(bs) != OkHeader(|file|) + file || file == ""
    requires |Flatten(hs) + chunk| >= |OkHeader(|file|)|
    ensures var cs, n := hs + [chunk] + bs, |file|;
            && !IsBroken(cs, n)
            && Feed(START, Deliveries(cs)).outcome
               == if Overfills(cs, |Preamble(n)|, |OkHeader(n)|) then Unspecified else Receiving
  {
    hide Flatten, Boundary, Preamble, OkHeader, Feed, EndOf, Overfills;
    var n := |file|;
    ProperParts(hs, chunk, bs);
    var h2, b := ChunkThatCompletes(Flatten(hs), chunk, Flatten(bs), file);
    PreambleInHeader(n);
    NotBroken(hs, chunk, bs, n);
    OverfillsIs(hs, chunk, bs, |Preamble(n)|, |OkHeader(n)|);
    if |b| + |Flatten(bs)| >= n {
      assert bs == [] by {
        if bs != [] {
          ChunksAreNotEmpty(bs, |bs|);
          WholeEnd(bs);
        }
      }
    }
    WaitsInBody(hs, h2, b, bs, n);
  }

  /** Of an answer with a file, not all of which has come: the client still waits exactly if
      `StillWaits`; otherwise it has taken a part of the stream for the file, or C leaves open
      what happens. */
  lemma WaitsIff(chunks: seq<string>, file: string)
    requires |file| <= LONG_MAX && Proper(chunks) && Flatten(chunks) <= OkHeader(|file|) + file
    requires Flatten(chunks) != OkHeader(|file|) + file || file == ""
    ensures var c, n := Feed(START, Deliveries(chunks)), |file|;
            if StillWaits(chunks, n) then c.outcome == Receiving
            else c.outcome == if IsBroken(chunks, n) then Returned(0) else Unspecified
  {
    hide Flatten, Boundary, Preamble, OkHeader, Feed, EndOf, Overfills;
    var n := |file|;
    if Flatten(chunks) <= Preamble(n) {
      ClosureInPreamble(chunks, n);
      CommitsToNothingEarly(chunks, n);
    } else {
      var hs, chunk, bs := SplitAtPreamble(chunks, file);
      var first := |Flatten(hs) + chunk|;
      if first < |OkHeader(n)| {
        AtBreak(hs, chunk, bs, file);
        forall p
          ensures FirstBreak(chunks, n, p) ==> p == first
        {
          BreakIs(hs, chunk, bs, n, p);
        }
        assert IsBroken(chunks, n) by { assert InsideEnd(first, n) && Boundary(chunks, first); }
        assert StillWaits(chunks, n) <==> n == 0 || !Boundary(chunks, first + n);
      } else {
        WaitsAfterHeader(hs, chunk, bs, file);
      }
    }
  }

  /** `recv` fails before the whole file is in: the client returns -1 exactly if it still waits,
      with the status, the lengths and the bytes passed on that it had; and nothing changes that. */
  lemma FailedEarlyIff(chunks: seq<string>, file: string, later: seq<Recv>)
    requires |file| <= LONG_MAX && Proper(chunks) && Flatten(chunks) <= OkHeader(|file|) + file
    requires Flatten(chunks) != OkHeader(|file|) + file || file == ""
    ensures var c, d := Feed(START, Deliveries(chunks)), Feed(START, Deliveries(chunks) + [Failed] + later);
            && (d.outcome == Returned(-1) <==> StillWaits(chunks, |file|))
            && d == if StillWaits(chunks, |file|) then c.(outcome := Returned(-1)) else c
  {
    hide Feed, StillWaits, IsBroken;
    WaitsIff(chunks, file);
    FailureIsFinal(Deliveries(chunks), later);
  }

  // ---------------------------------------------------------------- answers without a file

  /** The words that the closing code finds when the answer stops within the status word. */
  lemma WordsOfErrorAnswer(text: string, status: Status)
    requires IsErrorStatus(status) && text <= "GETFILE " + StrStatus(status)
    ensures var scheme := NextToken(text + [NUL], " ");
            && !scheme.Overrun? && NUL in scheme.rest
            && if |text| >= 9 then scheme.Token? && scheme.text == "GETFILE"
                                   && NextToken(scheme.rest, " ") == Token(text[8..], [NUL])
               else NextToken(scheme.rest, " ").NoToken?
  {
    hide NextToken, StrStatus;
    NeverOverruns(text + [NUL], " ");
    EmptyHasNoToken(" ");
    if text == "" {
      assert text + [NUL] == [NUL];
    } else if |text| < 8 {
      assert text == ("GETFILE " + StrStatus(status))[..|text|] == "GETFILE"[..|text|];
      SchemeAlone(text);
    } else {
      var w := text[8..];
      assert text[..8] == ("GETFILE " + StrStatus(status))[..8] == "GETFILE ";
      assert w <= StrStatus(status);
      assert text + [NUL] == "GETFILE" + " " + (w + [NUL]);
      WordsOfHeader(w + [NUL]);
      if w == "" {
        assert w + [NUL] == [NUL];
      } else {
        StatusStopsNothing(status);
        assert forall c :: c in w ==> c in StrStatus(status);
        LastWord(w, [NUL], " ");
      }
    }
  }

  lemma CloseInErrorAnswer(c: Client, status: Status)
    requires IsErrorStatus(status) && c == START.(fullData := c.fullData, total := |c.fullData|)
    requires c.fullData <= "GETFILE " + StrStatus(status) && |c.fullData| < 8 + |StrStatus(status)|
    ensures var d := Receive(c, Closed);
            && d.written == ""
            && if |c.fullData| < 9 then d.outcome == Unspecified else d.outcome == Returned(-1) && d.status == INVALID
  {
    hide NextToken, StrStatus, ParseHeader, ReceiveBody, FileLength;
    WordsOfErrorAnswer(c.fullData, status);
    var scheme := NextToken(c.fullData + [NUL], " ");
    NeverOverruns(scheme.rest, " ");
    NeverOverruns(NextToken(scheme.rest, " ").rest, " \r\n");
    if |c.fullData| >= 9 {
      assert c.fullData[8..] == ("GETFILE " + StrStatus(status))[8..|c.fullData|] <= StrStatus(status);
      PartialIsNoStatus(c.fullData[8..], status);
    }
  }

  /** The connection closes somewhere in an answer FILE_NOT_FOUND or ERROR: with less than nine
      bytes `strcmp` gets a null pointer; from there to one byte short of the status word the
      client returns -1; from there on it takes the answer as complete and returns 0. */
  lemma ErrorClosed(hs: seq<string>, message: string, status: Status)
    requires IsErrorAnswer(message, status) && Flatten(hs) <= message
    ensures var c, k := Feed(START, Deliveries(hs) + [Closed]), |Flatten(hs)|;
            && c.written == ""
            && if k < 9 then c.outcome == Unspecified
               else if k < 8 + |StrStatus(status)| then c.outcome == Returned(-1) && c.status == INVALID
               else c.outcome == Returned(0) && c.status == status
  {
    hide Feed, Receive, Flatten, StrStatus;
    var text := Flatten(hs);
    AnswerInChunks(hs, message, status);
    FeedThenClose(hs);
    if |text| < 8 + |StrStatus(status)| {
      assert text == message[..|text|] == ("GETFILE " + StrStatus(status) + " ")[..|text|];
      CloseInErrorAnswer(Feed(START, Deliveries(hs)), status);
    } else {
      StatusStopsNothing(status);
      FinalAtClose(Feed(START, Deliveries(hs)));
    }
  }

  /** `recv` fails somewhere in such an answer: up to one byte short of the status word the client
      returns -1, and from there on it has returned 0. */
  lemma ErrorFailed(hs: seq<string>, message: string, status: Status, later: seq<Recv>)
    requires IsErrorAnswer(message, status) && Flatten(hs) <= message
    ensures var c, d := Feed(START, Deliveries(hs)), Feed(START, Deliveries(hs) + [Failed] + later);
            if |Flatten(hs)| < 8 + |StrStatus(status)|
            then d == c.(outcome := Returned(-1)) && d.written == ""
            else d == c && d.outcome == Returned(0) && d.status == status && d.written == ""
  {
    hide Feed, StrStatus;
    AnswerInChunks(hs, message, status);
    FailureIsFinal(Deliveries(hs), later);
  }

  /** The client returns 0 although the connection closes within the answer. */
  lemma CutOffErrorIsAccepted()
    ensures var c := Feed(START, [Data("GETFILE ERROR"), Closed]);
            c.outcome == Returned(0) && c.status == ERROR && c.written == ""
  {
    var hs := ["GETFILE ERROR"];
    assert hs[..0] == [];
    assert Flatten(hs) == "GETFILE ERROR";
    hide Feed;
    ErrorClosed(hs, "GETFILE ERROR ", ERROR);
    assert Deliveries(hs) + [Closed] == [Data("GETFILE ERROR"), Closed];
  }
}
