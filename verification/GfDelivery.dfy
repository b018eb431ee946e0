/** What the client makes of the answers of the server: lemmas about the receive state machine
    of GfClient over all ways to split the stream into chunks. */
module GfDelivery {
  import opened Chunks
  import opened CString
  import opened Decimal
  import opened GfClient

  // ---------------------------------------------------------------- feeding

  lemma {:induction false} FeedAppend(c: Client, a: seq<Recv>, b: seq<Recv>)
    ensures Feed(c, a + b) == Feed(Feed(c, a), b)
  {
    if b == [] {
      assert a + b == a;
    } else {
      var front := b[..|b| - 1];
      FeedAppend(c, a, front);
      assert (a + b)[..|a + b| - 1] == a + front;
    }
  }

  lemma FeedOne(c: Client, r: Recv)
    ensures Feed(c, [r]) == Receive(c, r)
  {
    assert [r][..0] == [];
  }

  lemma DeliveriesLast(chunks: seq<string>)
    requires chunks != []
    ensures var last := |chunks| - 1;
            Deliveries(chunks)[..last] == Deliveries(chunks[..last]) && Deliveries(chunks)[last] == Data(chunks[last])
  {
  }

  lemma FeedThree(hs: seq<string>, chunk: string, bs: seq<string>)
    ensures Feed(START, Deliveries(hs + [chunk] + bs))
            == Feed(Receive(Feed(START, Deliveries(hs)), Data(chunk)), Deliveries(bs))
  {
    hide Receive;
    var rs, r := Deliveries(hs), Data(chunk);
    assert Deliveries(hs + [chunk] + bs) == rs + [r] + Deliveries(bs);
    FeedAppend(START, rs + [r], Deliveries(bs));
    FeedAppend(START, rs, [r]);
    FeedOne(Feed(START, rs), r);
  }

  lemma {:induction false} OutcomeIsFinal(c: Client, rs: seq<Recv>)
    requires c.outcome != Receiving
    ensures Feed(c, rs) == c
  {
    if rs == [] {
    } else {
      OutcomeIsFinal(c, rs[..|rs| - 1]);
    }
  }

  // ---------------------------------------------------------------- the header of a file

  /** Nothing is committed to yet, but for the status, from the eleventh byte on. */
  predicate Pending(c: Client, text: string) {
    c == START.(fullData := text, total := |text|, status := if |text| > 10 then OK else FILE_NOT_FOUND)
  }

  /** A header with the length word `x` has been taken in, and nothing else. */
  function HeaderSeen(text: string, total: nat, x: string): Client {
    START.(headercheck := true, fullData := text, total := total, status := OK,
           filelen := FileLength(x), filelenstr := x)
  }

  lemma WordsOfHeader(m: string)
    ensures NextToken("GETFILE" + " " + m, " ") == Token("GETFILE", m)
    ensures NextToken("OK" + " " + m, " \r\n") == Token("OK", m)
  {
    FirstWord("GETFILE", ' ', m, " ");
    FirstWord("OK", ' ', m, " \r\n");
  }

  /** A header that is complete up to the blank before the length. */
  lemma ParseUpToStatus(c: Client, rest: string)
    requires c.fullData == "GETFILE" + " " + ("OK" + " " + rest) && c.total >= 11
    ensures ParseHeader(c) == ParseLength(c.(status := OK), rest + [NUL])
  {
    hide NextToken, ParseLength;
    var m := rest + [NUL];
    assert c.fullData + [NUL] == "GETFILE" + " " + ("OK" + " " + m);
    WordsOfHeader("OK" + " " + m);
    WordsOfHeader(m);
  }

  /** A word that `strtok` finds between blanks and line ends. */
  predicate IsWord(x: string) {
    x != "" && forall c :: c in x ==> !Stops(c, " \r\n")
  }

  lemma NumberIsWord(n: nat)
    ensures IsWord(Print(n))
  {
    assert forall c :: c in Print(n) ==> IsDigit(c);
  }

  lemma EmptyHasNoToken(delims: string)
    requires NUL !in delims
    ensures NextToken([NUL], delims) == NoToken([NUL])
  {
    NoTokenIs("", [NUL], delims);
    assert "" + [NUL] == [NUL];
  }

  /** The header with the length word `x` up to its first carriage return. */
  function PreambleOf(x: string): string {
    "GETFILE OK " + x + " "
  }

  function HeaderOf(x: string): string {
    PreambleOf(x) + "\r\n\r\n"
  }

  function Preamble(n: nat): string {
    PreambleOf(Print(n))
  }

  lemma PreambleInHeader(n: nat)
    ensures OkHeader(n) == HeaderOf(Print(n)) == Preamble(n) + "\r\n\r\n" && |Preamble(n)| >= 11
  {
  }

  lemma NothingToCommit(c: Client, rest: string, x: string)
    requires IsWord(x) && rest <= x + " "
    ensures ParseLength(c, rest + [NUL]) == c
  {
    EmptyHasNoToken(" \r\n");
    EmptyHasNoToken("\n");
    if rest == "" {
      assert rest + [NUL] == [NUL];
    } else if |rest| <= |x| {
      assert rest == x[..|rest|];
      LastWord(rest, [NUL], " \r\n");
    } else {
      assert rest + [NUL] == x + [' '] + [NUL];
      FirstWord(x, ' ', [NUL], " \r\n");
    }
  }

  lemma PreambleShape(text: string, x: string)
    requires text <= PreambleOf(x)
    ensures |text| >= 8 ==> text == "GETFILE" + " " + text[8..]
    ensures |text| >= 11 ==> text == "GETFILE" + " " + ("OK" + " " + text[11..]) && text[11..] <= x + " "
  {
    assert PreambleOf(x) == "GETFILE OK " + (x + " ");
    if |text| >= 8 {
      assert text[..8] == PreambleOf(x)[..8] == "GETFILE ";
      assert text == text[..8] + text[8..];
    }
    if |text| >= 11 {
      assert text[..11] == PreambleOf(x)[..11] == "GETFILE OK ";
      assert text == text[..11] + text[11..];
    }
  }

  lemma PreambleCommitsNothing(c: Client, text: string, x: string)
    requires IsWord(x) && text <= PreambleOf(x)
    requires c == START.(fullData := text, total := |text|, status := c.status)
    requires |text| <= 10 ==> c.status == FILE_NOT_FOUND
    ensures Pending(ParseHeader(c), text)
  {
    PreambleShape(text, x);
    if |text| >= 11 {
      ParseUpToStatus(c, text[11..]);
      NothingToCommit(c.(status := OK), text[11..], x);
    } else if |text| >= 8 {
      assert text + [NUL] == "GETFILE" + " " + (text[8..] + [NUL]);
      WordsOfHeader(text[8..] + [NUL]);
    }
  }

  lemma TextOfWhole(s: string)
    requires NUL !in s
    ensures TextOf(s) == s
  {
    TextOfIs(s, s);
  }

  lemma NoNulInHeader(x: string)
    requires IsWord(x)
    ensures NUL !in PreambleOf(x) && NUL !in HeaderOf(x)
  {
  }

  lemma PreambleIsShort(n: nat)
    requires n <= SIZE_MAX
    ensures |Preamble(n)| <= 32
  {
    assert Power10(10) == 10_000_000_000;
    assert Power10(20) == 100_000_000_000_000_000_000;
    PrintLength(n, 20);
  }

  lemma ChunkOfPreamble(c: Client, text: string, chunk: string, x: string)
    requires IsWord(x) && Pending(c, text) && text + chunk <= PreambleOf(x) && |chunk| < BUFSIZE
    ensures Pending(Receive(c, Data(chunk)), text + chunk)
  {
    NoNulInHeader(x);
    assert NUL !in text + chunk;
    TextOfWhole(chunk);
    PreambleCommitsNothing(c.(fullData := text + chunk, total := |text + chunk|), text + chunk, x);
  }

  /** However the bytes before the first carriage return are split, the client commits to nothing. */
  lemma {:induction false} CommitsToNothing(hs: seq<string>, x: string)
    requires IsWord(x) && AreShort(hs) && Flatten(hs) <= PreambleOf(x)
    ensures Pending(Feed(START, Deliveries(hs)), Flatten(hs))
  {
    if hs == [] {
    } else {
      var front, last := hs[..|hs| - 1], hs[|hs| - 1];
      CommitsToNothing(front, x);
      DeliveriesLast(hs);
      ChunkOfPreamble(Feed(START, Deliveries(front)), Flatten(front), last, x);
    }
  }

  /** In particular for every length that the server can print. */
  lemma CommitsToNothingEarly(hs: seq<string>, n: nat)
    requires n <= SIZE_MAX && Flatten(hs) <= Preamble(n)
    ensures Pending(Feed(START, Deliveries(hs)), Flatten(hs))
  {
    hide Flatten;
    NumberIsWord(n);
    PreambleIsShort(n);
    ChunksAreShorter(hs);
    CommitsToNothing(hs, Print(n));
  }

  function Commit(c: Client, x: string): Client {
    c.(filelenstr := x, filelen := FileLength(x), headercheck := true)
  }

  /** The length that the client stores is the one the server printed, if and only if it fits a `long`. */
  lemma LengthSurvives(n: nat)
    requires n <= SIZE_MAX
    ensures FileLength(Print(n)) == n <==> n <= LONG_MAX
  {
    AtolOfPrint(n);
  }

  lemma LengthToken(x: string, tail: string)
    requires IsWord(x)
    ensures NextToken(x + [' '] + tail, " \r\n") == Token(x, tail)
  {
    FirstWord(x, ' ', tail, " \r\n");
  }

  lemma CarriageReturn(m: string)
    ensures NextToken("\r" + "\n" + m, "\n") == Token("\r", m)
    ensures NextToken("\r" + [NUL], "\n") == Token("\r", [NUL])
  {
    FirstWord("\r", '\n', m, "\n");
    LastWord("\r", [NUL], "\n");
  }

  lemma LengthAndCarriageReturn(c: Client, x: string, m: string)
    requires IsWord(x)
    ensures ParseLength(c, x + [' '] + ("\r" + "\n" + m)) == ParseLines(Commit(c, x), m)
    ensures ParseLength(c, x + [' '] + ("\r" + [NUL])) == ParseLines(Commit(c, x), [NUL])
  {
    hide ParseLines, NextToken, FileLength;
    LengthToken(x, "\r" + "\n" + m);
    LengthToken(x, "\r" + [NUL]);
    CarriageReturn(m);
  }

  lemma SecondLine(c: Client, m: string)
    requires NUL in m
    ensures ParseLines(c, "\r" + "\n" + m)
            == var line := NextToken(m, "\n"); if line.Token? then ReceiveBody(c, line.text) else c
    ensures ParseLines(c, "\r" + [NUL]) == c && ParseLines(c, [NUL]) == c
  {
    hide NextToken, ReceiveBody;
    CarriageReturn(m);
    NeverOverruns(m, "\n");
    EmptyHasNoToken("\n");
  }

  /** A header that breaks off inside its last four characters counts as complete. */
  lemma BrokenEndCommits(c: Client, x: string, tail: string)
    requires IsWord(x)
    requires tail == "\r" || tail == "\r\n" || tail == "\r\n\r"
    ensures ParseLength(c, x + [' '] + (tail + [NUL])) == Commit(c, x)
  {
    hide ParseLength, ParseLines, NextToken, FileLength;
    var m := if tail == "\r\n\r" then "\r" + [NUL] else [NUL];
    assert tail + [NUL] == if tail == "\r" then "\r" + [NUL] else "\r" + "\n" + m;
    LengthAndCarriageReturn(c, x, m);
    SecondLine(Commit(c, x), [NUL]);
  }

  /** Behind a complete header the first line of the body is taken, and nothing else. */
  lemma CompleteHeaderCommits(c: Client, x: string, b: string)
    requires IsWord(x)
    ensures var line := NextToken(b + [NUL], "\n");
            ParseLength(c, x + [' '] + ("\r\n\r\n" + b + [NUL]))
            == if line.Token? then ReceiveBody(Commit(c, x), line.text) else Commit(c, x)
  {
    hide ParseLength, ParseLines, NextToken, FileLength, ReceiveBody;
    var m := b + [NUL];
    assert "\r\n\r\n" + b + [NUL] == "\r" + "\n" + ("\r" + "\n" + m);
    LengthAndCarriageReturn(c, x, "\r" + "\n" + m);
    SecondLine(Commit(c, x), m);
  }

  /** That line is the whole of `b` exactly when `b` has no line feed. */
  lemma FirstLine(b: string)
    requires NUL !in b
    ensures var line := NextToken(b + [NUL], "\n");
            if b == "" then line.NoToken?
            else if '\n' !in b then line == Token(b, [NUL])
            else line.Token? ==> |line.text| < |b|
  {
    if b == "" {
      assert b + [NUL] == [NUL];
      EmptyHasNoToken("\n");
    } else if '\n' !in b {
      LastWord(b, [NUL], "\n");
    } else if NextToken(b + [NUL], "\n").Token? {
      TokenIsPiece(b + [NUL], "\n");
      var text := NextToken(b + [NUL], "\n").text;
      var lead :| lead + text <= b + [NUL];
      assert |text| == |b| && lead == "" ==> text == b;
    }
  }

  lemma TextOfConcat(a: string, b: string)
    requires NUL !in a
    ensures TextOf(a + b) == a + TextOf(b)
  {
    TextOfIs(a + TextOf(b), a + b);
  }

  lemma HeaderShape(x: string, t: string) returns (rest: string)
    ensures HeaderOf(x) + t == "GETFILE" + " " + ("OK" + " " + rest)
    ensures rest + [NUL] == x + [' '] + ("\r\n\r\n" + t + [NUL])
  {
    rest := x + [' '] + ("\r\n\r\n" + t);
    assert "GETFILE OK " == "GETFILE" + " " + ("OK" + " ");
    assert HeaderOf(x) + t == "GETFILE OK " + rest;
  }

  /** A complete header, with the text `t` behind it. */
  lemma ParseCompleteHeader(c: Client, t: string, x: string)
    requires IsWord(x)
    requires c.fullData == HeaderOf(x) + t && c.total >= 11
    ensures var line := NextToken(t + [NUL], "\n");
            var d := Commit(c.(status := OK), x);
            ParseHeader(c) == if line.Token? then ReceiveBody(d, line.text) else d
  {
    hide ParseHeader, ParseLength, NextToken, FileLength, ReceiveBody, HeaderOf;
    var rest := HeaderShape(x, t);
    ParseUpToStatus(c, rest);
    CompleteHeaderCommits(c.(status := OK), x, t);
  }

  lemma ReceiveHeaderChunk(c: Client, chunk: string)
    requires c.outcome == Receiving && !c.headercheck
    requires |chunk| < BUFSIZE || NUL in chunk
    ensures Receive(c, Data(chunk))
            == ParseHeader(c.(total := c.total + |chunk|, fullData := c.fullData + TextOf(chunk)))
  {
    hide AtClose, ParseHeader, ReceiveBody;
  }

  lemma FullBuffer(c: Client, chunk: string)
    requires c.outcome == Receiving && !c.headercheck && |chunk| >= BUFSIZE && NUL !in chunk
    ensures Receive(c, Data(chunk)) == c.(total := c.total + |chunk|, outcome := Unspecified)
  {
  }

  lemma HeaderText(text: string, h2: string, b: string, x: string)
    requires IsWord(x) && text + h2 == HeaderOf(x)
    ensures text + TextOf(h2 + b) == HeaderOf(x) + TextOf(b)
  {
    NoNulInHeader(x);
    assert NUL !in text + h2;
    TextOfConcat(h2, b);
    assert text + (h2 + TextOf(b)) == text + h2 + TextOf(b);
  }

  /** The chunk that brings the end of the header, and `b` of the body with it. */
  lemma CompletingChunk(c: Client, text: string, h2: string, b: string, x: string)
    requires IsWord(x) && Pending(c, text) && text + h2 == HeaderOf(x)
    requires |h2 + b| < BUFSIZE || NUL in b
    ensures var line := NextToken(TextOf(b) + [NUL], "\n");
            var d := HeaderSeen(HeaderOf(x) + TextOf(b), |HeaderOf(x) + b|, x);
            Receive(c, Data(h2 + b)) == if line.Token? then ReceiveBody(d, line.text) else d
  {
    hide Receive, ParseHeader, NextToken;
    assert NUL in b ==> NUL in h2 + b;
    ReceiveHeaderChunk(c, h2 + b);
    HeaderText(text, h2, b, x);
    assert |text| + |h2 + b| == |HeaderOf(x) + b| by { assert |text + h2| == |HeaderOf(x)|; }
    var d := c.(total := |HeaderOf(x) + b|, fullData := HeaderOf(x) + TextOf(b));
    assert c.(total := c.total + |h2 + b|, fullData := c.fullData + TextOf(h2 + b)) == d;
    ParseCompleteHeader(d, TextOf(b), x);
    assert Commit(d.(status := OK), x) == HeaderSeen(HeaderOf(x) + TextOf(b), |HeaderOf(x) + b|, x);
  }

  // ---------------------------------------------------------------- the body

  /** The request state after `body` more bytes of the file, as long as the client receives. */
  function Counted(c: Client, body: string): Client {
    var w := c.written + body;
    c.(total := c.total + |body|, fileBytes := |w|, bytesFileReceived := |w|, written := w)
  }

  /** The request state after `body` more bytes of the file. */
  function AfterBody(c: Client, body: string): Client {
    var d := Counted(c, body);
    d.(outcome := if |d.written| == c.filelen then Returned(0) else Receiving)
  }

  predicate TakingBody(c: Client) {
    c.outcome == Receiving && c.headercheck && c.fileBytes == c.bytesFileReceived == |c.written|
  }

  /** However the body is split, it is passed on unchanged and in order. */
  lemma {:induction false} BodyArrives(c: Client, bs: seq<string>)
    requires TakingBody(c) && Proper(bs)
    requires |c.written| + |Flatten(bs)| <= c.filelen && |c.written| < c.filelen
    ensures Feed(c, Deliveries(bs)) == AfterBody(c, Flatten(bs))
  {
    hide AtClose, ParseHeader;
    if bs == [] {
    } else {
      DeliveriesLast(bs);
      BodyArrives(c, bs[..|bs| - 1]);
    }
  }

  /** As long as no chunk ends where the stored length is reached, the client goes on. */
  lemma {:induction false} BodyGoesOn(c: Client, bs: seq<string>)
    requires TakingBody(c)
    requires forall i :: 1 <= i <= |bs| ==> |c.written| + EndOf(bs, i) != c.filelen
    ensures Feed(c, Deliveries(bs)) == Counted(c, Flatten(bs))
  {
    hide AtClose, ParseHeader, EndOf;
    if bs == [] {
    } else {
      var front := bs[..|bs| - 1];
      EndsOfFront(bs, |front|);
      WholeEnd(bs);
      DeliveriesLast(bs);
      BodyGoesOn(c, front);
    }
  }

  /** With the first chunk that ends there, it returns. */
  lemma BodyStopsAt(c: Client, bs: seq<string>, i: nat)
    requires TakingBody(c) && c.written == "" && Proper(bs)
    requires 1 <= i <= |bs| && EndOf(bs, i) == c.filelen
    ensures Feed(c, Deliveries(bs)) == AfterBody(c, Flatten(bs[..i]))
  {
    hide Receive;
    assert bs[..i] != [] && |Flatten(bs[..i])| >= |bs[..i][i - 1]| >= 1;
    BodyArrives(c, bs[..i]);
    assert Deliveries(bs) == Deliveries(bs[..i]) + Deliveries(bs[i..]);
    FeedAppend(c, Deliveries(bs[..i]), Deliveries(bs[i..]));
    OutcomeIsFinal(AfterBody(c, Flatten(bs[..i])), Deliveries(bs[i..]));
  }

  /** The write callback never gets more than `recv` delivered. */
  lemma {:induction false} WritesAreBounded(c: Client, bs: seq<string>)
    requires c.headercheck
    ensures var d := Feed(c, Deliveries(bs));
            d.headercheck && |d.written| <= |c.written| + |Flatten(bs)| && c.written <= d.written
  {
    hide AtClose, ParseHeader;
    if bs == [] {
    } else {
      DeliveriesLast(bs);
      WritesAreBounded(c, bs[..|bs| - 1]);
    }
  }

  // ---------------------------------------------------------------- when a file arrives

  /** The header in chunks with no boundary inside the four characters that end it. */
  predicate CleanSplit(hs: seq<string>, n: nat) {
    && Proper(hs) && Flatten(hs) == OkHeader(n)
    && Flatten(hs[..|hs| - 1]) <= Preamble(n)
  }

  /** What the state is once the chunk with the end of a header is in. */
  lemma AfterHeaderOf(hs: seq<string>, h2: string, b: string, x: string) returns (c: Client)
    requires IsWord(x) && AreShort(hs) && Flatten(hs) <= PreambleOf(x) && Flatten(hs) + h2 == HeaderOf(x)
    requires |h2 + b| < BUFSIZE || NUL in b
    ensures c == Receive(Feed(START, Deliveries(hs)), Data(h2 + b))
    ensures c.headercheck && c.status == OK && c.filelen == FileLength(x)
    ensures c.fullData == HeaderOf(x) + TextOf(b) && c.fileBytes == c.bytesFileReceived == |c.written|
    ensures if NUL in b || '\n' in b then |c.written| < |b| else c.written == b
    ensures b == "" ==> c == HeaderSeen(HeaderOf(x), |HeaderOf(x)|, x)
    ensures c.outcome == if c.written != "" && |c.written| == c.filelen then Returned(0) else Receiving
  {
    hide Receive, ParseHeader, NextToken, FileLength;
    var before := Feed(START, Deliveries(hs));
    c := Receive(before, Data(h2 + b));
    CommitsToNothing(hs, x);
    CompletingChunk(before, Flatten(hs), h2, b, x);
    FirstLine(TextOf(b));
    if NextToken(TextOf(b) + [NUL], "\n").Token? {
      TokenIsPiece(TextOf(b) + [NUL], "\n");
    }
    if NUL !in b {
      TextOfWhole(b);
    } else {
      TextEnds(b);
    }
  }

  lemma AfterHeader(hs: seq<string>, h2: string, b: string, n: nat) returns (c: Client)
    requires n <= SIZE_MAX && Flatten(hs) <= Preamble(n) && Flatten(hs) + h2 == OkHeader(n)
    requires |h2 + b| < BUFSIZE || NUL in b
    ensures c == Receive(Feed(START, Deliveries(hs)), Data(h2 + b))
    ensures c.headercheck && c.status == OK && c.filelen == FileLength(Print(n))
    ensures c.fullData == OkHeader(n) + TextOf(b) && c.fileBytes == c.bytesFileReceived == |c.written|
    ensures if NUL in b || '\n' in b then |c.written| < |b| else c.written == b
    ensures b == "" ==> c == HeaderSeen(OkHeader(n), |OkHeader(n)|, Print(n))
    ensures c.outcome == if c.written != "" && |c.written| == c.filelen then Returned(0) else Receiving
  {
    hide Receive, Feed, Flatten, OkHeader, HeaderOf, PreambleOf, FileLength, Print;
    NumberIsWord(n);
    PreambleInHeader(n);
    PreambleIsShort(n);
    ChunksAreShorter(hs);
    c := AfterHeaderOf(hs, h2, b, Print(n));
  }

  lemma FullBufferIsUnspecified(hs: seq<string>, h2: string, b: string, n: nat)
    requires n <= LONG_MAX && Flatten(hs) <= Preamble(n) && Flatten(hs) + h2 == OkHeader(n)
    requires |h2 + b| == BUFSIZE && NUL !in b
    ensures Receive(Feed(START, Deliveries(hs)), Data(h2 + b)).outcome == Unspecified
  {
    hide AtClose, ParseHeader, ReceiveBody, HeaderOf, OkHeader;
    CommitsToNothingEarly(hs, n);
    NumberIsWord(n);
    PreambleInHeader(n);
    NoNulInHeader(Print(n));
    assert NUL !in Flatten(hs) + h2;
  }

  /** The main result: a non-empty file whose header is not split inside its last four
      characters arrives, however everything else is split, exactly when the bytes `b` of the
      file that share a `recv` with the end of the header contain no line feed and no NUL and
      leave room in the buffer. */
  lemma DeliveredIff(hs: seq<string>, h2: string, b: string, bs: seq<string>, file: string)
    requires file == b + Flatten(bs) && 1 <= |file| <= LONG_MAX
    requires Flatten(hs) <= Preamble(|file|) && Flatten(hs) + h2 == OkHeader(|file|)
    requires Proper(hs + [h2 + b] + bs)
    ensures Delivered(Feed(START, Deliveries(hs + [h2 + b] + bs)), file)
            <==> |h2 + b| < BUFSIZE && NUL !in b && '\n' !in b
  {
    hide AtClose, ParseHeader, OkHeader, Preamble, Feed;
    var n := |file|;
    FeedThree(hs, h2 + b, bs);
    ProperParts(hs, h2 + b, bs);
    if |h2 + b| < BUFSIZE || NUL in b {
      var c := AfterHeader(hs, h2, b, n);
      LengthSurvives(n);
      if NUL in b || '\n' in b {
        WritesAreBounded(c, bs);
      } else if |b| == n {
        OutcomeIsFinal(c, Deliveries(bs));
      } else {
        BodyArrives(c, bs);
      }
    } else {
      FullBufferIsUnspecified(hs, h2, b, n);
      OutcomeIsFinal(Receive(Feed(START, Deliveries(hs)), Data(h2 + b)), Deliveries(bs));
    }
  }

  /** The last chunk of a clean split brings the whole end of the header. */
  lemma LastHeaderChunk(hs: seq<string>, n: nat) returns (front: seq<string>, last: string)
    requires n <= SIZE_MAX && CleanSplit(hs, n)
    ensures hs == front + [last] && |last| < BUFSIZE
    ensures Flatten(front) <= Preamble(n) && Flatten(front) + last == OkHeader(n)
  {
    assert OkHeader(n) == Preamble(n) + "\r\n\r\n";
    front, last := hs[..|hs| - 1], hs[|hs| - 1];
    PreambleIsShort(n);
  }

  /** A clean split, and any split of a non-empty body behind it, deliver the file. */
  lemma CleanSplitDelivers(hs: seq<string>, bs: seq<string>, file: string)
    requires 1 <= |file| <= LONG_MAX && CleanSplit(hs, |file|)
    requires Proper(bs) && Flatten(bs) == file
    ensures Delivered(Feed(START, Deliveries(hs + bs)), file)
  {
    hide Feed, OkHeader, Preamble, Flatten, Receive;
    var front, last := LastHeaderChunk(hs, |file|);
    assert last + "" == last && "" + Flatten(bs) == file;
    DeliveredIff(front, last, "", bs, file);
  }

  /** For every length the server can print and every clean split of its header, the client
      has stored exactly that length, and nothing else, if and only if it fits a `long`. */
  lemma StoresLengthIff(hs: seq<string>, n: nat)
    requires n <= SIZE_MAX && CleanSplit(hs, n)
    ensures var c := Feed(START, Deliveries(hs));
            && c == HeaderSeen(OkHeader(n), |OkHeader(n)|, Print(n))
            && (c.filelen == n <==> n <= LONG_MAX)
  {
    hide Receive, OkHeader, Preamble;
    var front, last := LastHeaderChunk(hs, n);
    assert last + "" == last && hs[..|hs| - 1] == front;
    var c := AfterHeader(front, last, "", n);
    LengthSurvives(n);
    DeliveriesLast(hs);
  }

  // ---------------------------------------------------------------- a boundary inside CRLFCRLF

  lemma BrokenHeaderParses(c: Client, x: string, tail: string)
    requires IsWord(x) && c.fullData == PreambleOf(x) + tail && c.total >= 11
    requires tail == "\r" || tail == "\r\n" || tail == "\r\n\r"
    ensures ParseHeader(c) == Commit(c.(status := OK), x)
  {
    hide ParseHeader, ParseLength, NextToken, FileLength;
    var rest := x + [' '] + tail;
    assert "GETFILE OK " == "GETFILE" + " " + ("OK" + " ");
    assert c.fullData == "GETFILE" + " " + ("OK" + " " + rest);
    ParseUpToStatus(c, rest);
    assert rest + [NUL] == x + [' '] + (tail + [NUL]);
    BrokenEndCommits(c.(status := OK), x, tail);
  }

  /** After a chunk that ends inside the last four characters of the header, the rest of the
      header is taken for the body. */
  lemma BrokenHeader(hs: seq<string>, n: nat, k: nat)
    requires n <= LONG_MAX && Flatten(hs) <= Preamble(n) && 1 <= k <= 3
    ensures var h := Flatten(hs);
            var c := Receive(Feed(START, Deliveries(hs)), Data((Preamble(n) + "\r\n\r"[..k])[|h|..]));
            && TakingBody(c) && c.written == ""
            && c.status == OK && c.filelen == n && c.fullData == Preamble(n) + "\r\n\r"[..k]
  {
    var h, tail := Flatten(hs), "\r\n\r"[..k];
    var chunk := (Preamble(n) + tail)[|h|..];
    var c0 := Feed(START, Deliveries(hs));
    CommitsToNothingEarly(hs, n);
    PreambleIsShort(n);
    NumberIsWord(n);
    NoNulInHeader(Print(n));
    assert NUL !in tail;
    TextOfWhole(chunk);
    assert h + chunk == Preamble(n) + tail;
    assert |chunk| < BUFSIZE;
    LengthSurvives(n);
    PreambleInHeader(n);
    BrokenHeaderParses(c0.(total := c0.total + |chunk|, fullData := Preamble(n) + tail), Print(n), tail);
    hide ParseHeader, AtClose;
    ReceiveHeaderChunk(c0, chunk);
  }

  // ---------------------------------------------------------------- the words of the protocol

  /** Every answer is the scheme, the status, for a file its length, a blank, and the marker that
      ends it; the server sends a terminator behind an answer without a file. */
  lemma AnswersEndInMarker(n: nat, status: Status)
    ensures OkHeader(n) == "GETFILE " + StrStatus(OK) + " " + Print(n) + " " + "\r\n\r\n"
    ensures ErrorHeader(status) == "GETFILE " + StrStatus(status) + " " + "\r\n\r\n" + [NUL]
  {
  }

  lemma StatusNamesDiffer(a: Status, b: Status)
    ensures StrStatus(a) == StrStatus(b) <==> a == b
  {
    assert StrStatus(OK)[0] == 'O' && StrStatus(FILE_NOT_FOUND)[0] == 'F';
    assert StrStatus(ERROR)[0] == 'E' && StrStatus(INVALID)[0] == 'I';
  }

  lemma LengthKeepsStatus(c: Client, m: string)
    ensures ParseLength(c, m).status == c.status
  {
    hide NextToken;
  }

  /** The parser reads back the name of each status that a server may send; INVALID is no such name. */
  lemma StatusIsReadBack(c: Client, status: Status, m: string)
    requires c.outcome == Receiving
    ensures var d := ParseStatus(c, StrStatus(status) + [' '] + m);
            if status == INVALID then d == c
            else d.status == status && (status != OK ==> d.outcome == Returned(0))
  {
    hide NextToken, ParseLength;
    FirstWord(StrStatus(status), ' ', m, " \r\n");
    LengthKeepsStatus(c.(status := OK), m);
  }

  // ---------------------------------------------------------------- the other two statuses

  predicate IsErrorStatus(status: Status) {
    status == FILE_NOT_FOUND || status == ERROR
  }

  /** The answer without a file: the status word, a blank, and anything behind it. */
  predicate IsErrorAnswer(message: string, status: Status) {
    && IsErrorStatus(status)
    && "GETFILE " + StrStatus(status) + " " <= message
    && |message| < BUFSIZE
  }

  function ErrorSeen(c: Client, status: Status): Client {
    c.(status := status, outcome := Returned(0))
  }

  lemma StatusStopsNothing(status: Status)
    ensures forall c :: c in StrStatus(status) ==> !Stops(c, " \r\n")
    ensures IsErrorStatus(status) ==> |StrStatus(status)| >= 5
  {
  }

  /** A beginning of the status word, behind which the memory ends. */
  lemma PartialStatus(w: string, status: Status)
    requires w != "" && w <= StrStatus(status)
    ensures NextToken(w + [NUL], " \r\n") == Token(w, [NUL])
  {
    hide StrStatus;
    StatusStopsNothing(status);
    assert forall c :: c in w ==> c in StrStatus(status);
    LastWord(w, [NUL], " \r\n");
  }

  lemma FullStatus(u: string, status: Status) returns (rest: string)
    requires u == "" || u[0] == ' '
    requires StrStatus(status) != ""
    ensures NextToken(StrStatus(status) + u + [NUL], " \r\n") == Token(StrStatus(status), rest)
  {
    hide StrStatus;
    var w := StrStatus(status);
    StatusStopsNothing(status);
    if u == "" {
      rest := [NUL];
      assert w + u + [NUL] == w + [NUL];
      LastWord(w, [NUL], " \r\n");
    } else {
      rest := u[1..] + [NUL];
      assert w + u + [NUL] == w + [' '] + rest;
      FirstWord(w, ' ', rest, " \r\n");
    }
  }

  predicate NoStatus(word: string) {
    word != "OK" && word != "FILE_NOT_FOUND" && word != "ERROR"
  }

  lemma PartialIsNoStatus(w: string, status: Status)
    requires IsErrorStatus(status) && w != "" && w <= StrStatus(status) && |w| < |StrStatus(status)|
    ensures NoStatus(w)
  {
    assert w[0] == StrStatus(status)[0];
  }

  lemma ParseStatusWord(c: Client, m: string, word: string, rest: string)
    requires c.fullData + [NUL] == "GETFILE" + " " + m && NextToken(m, " \r\n") == Token(word, rest)
    ensures c.total > 10 && word == "FILE_NOT_FOUND" ==> ParseHeader(c) == ErrorSeen(c, FILE_NOT_FOUND)
    ensures c.total > 10 && word == "ERROR" ==> ParseHeader(c) == ErrorSeen(c, ERROR)
    ensures NoStatus(word) ==> ParseHeader(c) == c
  {
    WordsOfHeader(m);
    hide NextToken, ParseLength;
  }

  lemma ParseScheme(c: Client, m: string)
    requires c.fullData + [NUL] == "GETFILE" + " " + m && c.total <= 10
    ensures ParseHeader(c) == c
  {
    WordsOfHeader(m);
    hide NextToken, ParseStatus;
  }

  /** As long as the status word is not complete, the client waits. */
  lemma IncompleteAnswer(c: Client, text: string, status: Status)
    requires IsErrorStatus(status) && text <= "GETFILE " + StrStatus(status) && |text| < 8 + |StrStatus(status)|
    requires c.fullData == text && c.total == |text|
    ensures ParseHeader(c) == c
  {
    hide NextToken, ParseStatus, StrStatus, NoStatus;
    if |text| > 7 {
      var w := text[8..];
      assert text[..8] == ("GETFILE " + StrStatus(status))[..8] == "GETFILE ";
      assert w <= StrStatus(status);
      assert c.fullData + [NUL] == "GETFILE" + " " + (w + [NUL]);
      if |text| <= 10 {
        ParseScheme(c, w + [NUL]);
      } else {
        PartialStatus(w, status);
        PartialIsNoStatus(w, status);
        ParseStatusWord(c, w + [NUL], w, [NUL]);
      }
    }
  }

  /** Once it is, the client returns. */
  lemma CompleteAnswer(c: Client, u: string, status: Status)
    requires IsErrorStatus(status) && (u == "" || u[0] == ' ')
    requires c.fullData == "GETFILE " + StrStatus(status) + u && c.total > 10
    ensures ParseHeader(c) == ErrorSeen(c, status)
  {
    hide NextToken, ParseHeader;
    var m := StrStatus(status) + u + [NUL];
    assert c.fullData + [NUL] == "GETFILE" + " " + m;
    var rest := FullStatus(u, status);
    ParseStatusWord(c, m, StrStatus(status), rest);
  }

  /** One more chunk of an answer without a file. */
  lemma ChunkOfAnswer(c: Client, text: string, chunk: string, message: string, status: Status)
    requires IsErrorAnswer(message, status) && text + chunk <= message
    requires |text| < 8 + |StrStatus(status)| && c == START.(fullData := text, total := |text|)
    ensures var d := Receive(c, Data(chunk));
            if |text + chunk| < 8 + |StrStatus(status)|
            then d == START.(fullData := text + chunk, total := |text + chunk|)
            else d.outcome == Returned(0) && d.status == status && d.written == ""
  {
    var word := "GETFILE " + StrStatus(status);
    StatusStopsNothing(status);
    hide Receive, ParseHeader, NextToken, StrStatus;
    ReceiveHeaderChunk(c, chunk);
    assert word + " " == message[..|word| + 1];
    assert NUL !in word;
    if |text + chunk| < |word| {
      assert text + chunk <= word by { assert text + chunk == message[..|text + chunk|] == word[..|text + chunk|]; }
      assert NUL !in chunk by { assert forall i :: 0 <= i < |chunk| ==> chunk[i] == word[|text| + i]; }
      TextOfWhole(chunk);
      IncompleteAnswer(START.(fullData := text + chunk, total := |text + chunk|), text + chunk, status);
    } else {
      var a, t := chunk[..|word| - |text|], chunk[|word| - |text|..];
      assert chunk == a + t;
      assert text + a == word by { assert text + a == message[..|word|]; }
      TextOfConcat(a, t);
      var u := TextOf(t);
      assert t != "" ==> t[0] == message[|word|] == ' ';
      assert u == "" || u[0] == ' ';
      assert text + TextOf(chunk) == word + u;
      CompleteAnswer(START.(fullData := word + u, total := |text + chunk|), u, status);
    }
  }

  lemma {:induction false} AnswerInChunks(hs: seq<string>, message: string, status: Status)
    requires IsErrorAnswer(message, status) && Flatten(hs) <= message
    ensures var c := Feed(START, Deliveries(hs));
            if |Flatten(hs)| < 8 + |StrStatus(status)|
            then c == START.(fullData := Flatten(hs), total := |Flatten(hs)|)
            else c.outcome == Returned(0) && c.status == status && c.written == ""
  {
    hide StrStatus, ParseHeader, AtClose, ReceiveBody;
    if hs == [] {
    } else {
      var front, last := hs[..|hs| - 1], hs[|hs| - 1];
      AnswerInChunks(front, message, status);
      DeliveriesLast(hs);
      if |Flatten(front)| < 8 + |StrStatus(status)| {
        ChunkOfAnswer(Feed(START, Deliveries(front)), Flatten(front), last, message, status);
      }
    }
  }

  /** However an answer with FILE_NOT_FOUND or ERROR is split, the client reports the status,
      returns 0 and passes nothing on. */
  lemma ErrorStatusArrives(hs: seq<string>, message: string, status: Status)
    requires IsErrorAnswer(message, status) && Flatten(hs) == message
    ensures var c := Feed(START, Deliveries(hs));
            c.outcome == Returned(0) && c.status == status && c.written == ""
  {
    AnswerInChunks(hs, message, status);
  }

  /** The answers of the server are of that kind. */
  lemma ServerAnswers(status: Status)
    requires IsErrorStatus(status)
    ensures IsErrorAnswer(ErrorHeader(status), status)
  {
  }
}
