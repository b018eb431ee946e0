/** What the client makes of an answer with an invalid header, for which a negative result is
    promised: another word than GETFILE, an unknown status, or a length that is no number. */
module GfInvalid {
  import opened Chunks
  import opened CString
  import opened Decimal
  import opened GfClient
  import opened GfClosing
  import opened GfDelivery
  import opened GfSplits

  /** The bytes `p` of an answer that starts with `head` and a blank have come, and the client has
      drawn no conclusion from them.  Of what follows, bytes behind a NUL may be missing. */
  predicate Undecided(c: Client, p: string, head: string) {
    && c.outcome == Receiving && !c.headercheck && c.written == "" && c.total == |p|
    && if |p| <= |head| + 1 then c.fullData == p else head + " " <= c.fullData
  }

  /** `q` is a beginning of `head`, or `head` and a blank a beginning of `q`. */
  predicate Begins(q: string, head: string) {
    if |q| <= |head| then q <= head else head + " " <= q
  }

  lemma TextGrows(text: string, chunk: string, head: string, message: string)
    requires NUL !in head && head + " " <= message && text + chunk <= message && |text| <= |head| + 1
    ensures var t := text + TextOf(chunk);
            if |text + chunk| <= |head| + 1 then t == text + chunk else head + " " <= t
  {
    var start := head + " ";
    assert start == message[..|start|] && NUL !in start;
    var k := if |text + chunk| <= |start| then |chunk| else |start| - |text|;
    var a, b := chunk[..k], chunk[k..];
    assert chunk == a + b;
    assert text + a == (text + chunk)[..|text| + k] == message[..|text| + k] == start[..|text| + k];
    assert NUL !in a by { assert forall i :: 0 <= i < k ==> a[i] == start[|text| + i]; }
    TextOfConcat(a, b);
    if |text + chunk| <= |start| {
      assert b == "" && TextOf(b) == "";
    } else {
      assert text + TextOf(chunk) == start + TextOf(b);
    }
  }

  lemma BeginsIs(q: string, head: string, message: string)
    requires head + " " <= message && q <= message
    ensures Begins(q, head)
  {
    var start := head + " ";
    assert q == message[..|q|];
    if |q| <= |head| {
      assert q == start[..|q|] == head[..|q|];
    } else {
      assert start == message[..|start|] == q[..|start|];
    }
  }

  /** One more chunk, before it is parsed. */
  lemma StaysUndecided(c: Client, p: string, chunk: string, head: string, message: string)
    requires NUL !in head && head + " " <= message && p + chunk <= message && Undecided(c, p, head)
    ensures var d := c.(total := c.total + |chunk|, fullData := c.fullData + TextOf(chunk));
            Undecided(d, p + chunk, head)
    ensures Begins(p + chunk, head)
  {
    var q, start := p + chunk, head + " ";
    if |p| <= |head| + 1 {
      TextGrows(p, chunk, head, message);
    } else {
      assert start <= c.fullData + TextOf(chunk);
    }
    BeginsIs(q, head, message);
  }

  // ---------------------------------------------------------------- another word than GETFILE

  predicate OtherWord(word: string) {
    word != "" && word != "GETFILE" && forall c :: c in word ==> !Stops(c, " ")
  }

  lemma OtherWordIsInvalid(c: Client, p: string, word: string)
    requires OtherWord(word) && Undecided(c, p, word) && |p| > 7 && Begins(p, word)
    ensures var d := ParseHeader(c);
            d.outcome == Returned(-1) && d.status == INVALID && d.written == "" && d.bytesFileReceived == |p|
  {
    if |p| <= |word| {
      assert forall x :: x in p ==> x in word;
      LastWord(p, [NUL], " ");
    } else {
      var rest := c.fullData[|word| + 1..] + [NUL];
      assert c.fullData + [NUL] == word + [' '] + rest;
      FirstWord(word, ' ', rest, " ");
    }
    hide NextToken, ParseStatus;
  }

  lemma ChunkOfOther(c: Client, p: string, chunk: string, word: string, message: string)
    requires OtherWord(word) && word + " " <= message && p + chunk <= message
    requires Undecided(c, p, word) && |p| <= 7 && (|chunk| < BUFSIZE || NUL in chunk)
    ensures var d := Receive(c, Data(chunk));
            if |p + chunk| <= 7 then Undecided(d, p + chunk, word)
            else && d.outcome == Returned(-1) && d.status == INVALID && d.written == ""
                 && d.bytesFileReceived == |p + chunk|
  {
    hide NextToken, ParseStatus, Receive;
    ReceiveHeaderChunk(c, chunk);
    StaysUndecided(c, p, chunk, word, message);
    if |p + chunk| <= 7 {
    } else {
      var d := c.(total := c.total + |chunk|, fullData := c.fullData + TextOf(chunk));
      OtherWordIsInvalid(d, p + chunk, word);
    }
  }

  lemma {:induction false} UndecidedInChunks(hs: seq<string>, word: string, message: string)
    requires OtherWord(word) && word + " " <= message && Flatten(hs) <= message && |Flatten(hs)| <= 7
    ensures Undecided(Feed(START, Deliveries(hs)), Flatten(hs), word)
  {
    hide ParseHeader, AtClose, ReceiveBody;
    if hs == [] {
    } else {
      var front, last := hs[..|hs| - 1], hs[|hs| - 1];
      UndecidedInChunks(front, word, message);
      DeliveriesLast(hs);
      ChunkOfOther(Feed(START, Deliveries(front)), Flatten(front), last, word, message);
    }
  }

  /** However an answer is split that does not start with the word GETFILE, the client waits for
      eight bytes and then rejects it, reporting the bytes that have come up to then, unless the
      chunk with the eighth overfills the buffer. */
  lemma WrongSchemeIsInvalid(hs: seq<string>, word: string, message: string)
    requires OtherWord(word) && word + " " <= message && Proper(hs) && Flatten(hs) <= message
    ensures var c := Feed(START, Deliveries(hs));
            && c.written == ""
            && if |Flatten(hs)| <= 7 then c.outcome == Receiving
               else if Overfills(hs, 7, 8) then c.outcome == Unspecified
               else && c.outcome == Returned(-1) && c.status == INVALID
                    && exists j: nat :: j < |hs| && EndOf(hs, j) <= 7 < EndOf(hs, j + 1) == c.bytesFileReceived
  {
    hide Receive, Flatten, Feed, Overfills, EndOf;
    if |Flatten(hs)| <= 7 {
      UndecidedInChunks(hs, word, message);
      return;
    }
    var front, chunk, rest := FirstPast(hs, 7);
    ProperParts(front, chunk, rest);
    UndecidedInChunks(front, word, message);
    OverfillsIs(front, chunk, rest, 7, 8);
    FeedThree(front, chunk, rest);
    var c := Feed(START, Deliveries(front));
    if |chunk| == BUFSIZE && NUL !in chunk {
      FullBuffer(c, chunk);
    } else {
      ChunkOfOther(c, Flatten(front), chunk, word, message);
    }
    OutcomeIsFinal(Receive(c, Data(chunk)), Deliveries(rest));
    EndInSplit(front, chunk, rest, |front|);
    EndInSplit(front, chunk, rest, |front| + 1);
    WholeEnd(front);
    NoEnd(rest);
  }

  lemma {:induction false} TooShortToParse(hs: seq<string>)
    requires |Flatten(hs)| <= 7 && NUL !in Flatten(hs)
    ensures Feed(START, Deliveries(hs)) == START.(fullData := Flatten(hs), total := |Flatten(hs)|)
  {
    hide AtClose, ReceiveBody;
    if hs == [] {
    } else {
      var front, last := hs[..|hs| - 1], hs[|hs| - 1];
      TooShortToParse(front);
      DeliveriesLast(hs);
      TextOfWhole(last);
    }
  }

  predicate IsField(s: string) {
    s != "" && forall c :: c in s ==> !Stops(c, " ")
  }

  lemma NothingMore(blanks: string)
    requires forall c :: c in blanks ==> c == ' '
    ensures var m := blanks + [NUL];
            var rest := if m[0] == NUL then m else m[1..];
            && Stops(m[0], " ") && NUL in rest
            && NextToken(rest, " ") == NoToken([NUL])
            && NextToken([NUL], " \r\n") == NoToken([NUL])
  {
    var m := blanks + [NUL];
    assert m[|m| - 1] == NUL;
    EmptyHasNoToken(" \r\n");
    if blanks == "" {
      assert blanks + [NUL] == [NUL];
      EmptyHasNoToken(" ");
    } else {
      assert m[0] == blanks[0] && blanks[0] in blanks;
      assert forall c :: c in blanks[1..] ==> c in blanks;
      assert m[1..] == blanks[1..] + [NUL] && (blanks[1..] + [NUL])[|blanks| - 1] == NUL;
      NoTokenIs(blanks[1..], [NUL], " ");
    }
  }

  /** The words that the closing code finds in one or two words and blanks. */
  lemma WordsAtClose(s: string, v: string, tail: string)
    requires IsField(s) && (IsField(v) || v == "") && forall c :: c in tail ==> c == ' '
    ensures var text := if v == "" then s + tail else s + [' '] + v + tail;
            var scheme := NextToken(text + [NUL], " ");
            && scheme.Token? && scheme.text == s
            && var status := NextToken(scheme.rest, " ");
               if v == "" then status == NoToken([NUL]) else status.Token? && status.text == v && NUL in status.rest
  {
    hide NextToken;
    var m := tail + [NUL];
    NothingMore(tail);
    if v == "" {
      assert s + tail + [NUL] == "" + s + m;
      TokenIs(s + tail + [NUL], "", s, m, " ");
    } else {
      assert s + [' '] + v + tail + [NUL] == s + [' '] + (v + m);
      FirstWord(s, ' ', v + m, " ");
      assert v + m == "" + v + m;
      TokenIs(v + m, "", v, m, " ");
    }
  }

  /** A connection that closes within the first seven bytes: with two words the client returns -1
      with status INVALID, even if the second is OK; without a second one `strcmp` gets a null
      pointer. */
  lemma ShortAnswerClosed(hs: seq<string>, s: string, v: string, tail: string)
    requires IsField(s) && (IsField(v) || v == "") && forall c :: c in tail ==> c == ' '
    requires Flatten(hs) == (if v == "" then s + tail else s + [' '] + v + tail) && |Flatten(hs)| <= 7
    ensures var c := Feed(START, Deliveries(hs) + [Closed]);
            && c.written == ""
            && if v == "" then c.outcome == Unspecified else c.outcome == Returned(-1) && c.status == INVALID
  {
    hide NextToken, ParseHeader, ReceiveBody, FileLength, Flatten, Feed;
    TooShortToParse(hs);
    FeedThenClose(hs);
    WordsAtClose(s, v, tail);
    EmptyHasNoToken(" \r\n");
    var status := NextToken(NextToken(Flatten(hs) + [NUL], " ").rest, " ");
    if v != "" {
      NeverOverruns(status.rest, " \r\n");
    }
  }

  // ---------------------------------------------------------------- an unknown status

  function StatusHead(w: string): string {
    "GETFILE " + w
  }

  predicate IsUnknown(w: string) {
    IsWord(w) && NoStatus(w)
  }

  /** The status word `w` starts with that of `s`, and some chunk ends right behind that. */
  ghost predicate Misread(hs: seq<string>, w: string, s: Status) {
    IsErrorStatus(s) && StrStatus(s) <= w && Boundary(hs, 8 + |StrStatus(s)|)
  }

  /** Before the status, the client waits. */
  lemma WaitsForStatus(c: Client, q: string, w: string)
    requires Undecided(c, q, StatusHead(w)) && |q| <= 10 && Begins(q, StatusHead(w))
    ensures ParseHeader(c) == c
  {
    if |q| > 7 {
      assert c.fullData[..8] == "GETFILE ";
      var m := c.fullData[8..] + [NUL];
      assert c.fullData + [NUL] == "GETFILE" + " " + m;
      ParseScheme(c, m);
    }
  }

  /** Only what has come of `w` can be taken for another status. */
  lemma BeginningIs(q: string, w: string, s: Status)
    requires Begins(q, StatusHead(w)) && q == StatusHead(StrStatus(s))
    ensures StrStatus(s) <= w && |q| == 8 + |StrStatus(s)| <= |StatusHead(w)|
  {
    StatusStopsNothing(s);
    hide StrStatus;
    assert StrStatus(s) == q[8..];
    forall i | 8 <= i < |q|
      ensures q[i] != ' '
    {
      assert q[i] == q[8..][i - 8];
      assert q[i] in StrStatus(s);
    }
    assert (StatusHead(w) + " ")[|StatusHead(w)|] == ' ';
    if |q| <= |StatusHead(w)| {
      assert q == StatusHead(w)[..|q|];
      assert q[8..] == w[..|q| - 8];
    }
  }

  /** Then it looks at what has come of the status word. */
  lemma LooksAtStatus(c: Client, q: string, w: string)
    requires IsUnknown(w) && Undecided(c, q, StatusHead(w)) && |q| > 10 && Begins(q, StatusHead(w))
    ensures forall s :: IsErrorStatus(s) && q == StatusHead(StrStatus(s)) ==> ParseHeader(c) == ErrorSeen(c, s)
    ensures (forall s :: IsErrorStatus(s) ==> q != StatusHead(StrStatus(s))) ==> ParseHeader(c) == c
  {
    hide NextToken, ParseHeader;
    assert c.fullData[..8] == "GETFILE ";
    var m := c.fullData[8..] + [NUL];
    assert c.fullData + [NUL] == "GETFILE" + " " + m;
    if |q| <= |StatusHead(w)| {
      var v := q[8..];
      assert v <= w && q == StatusHead(v);
      assert forall x :: x in v ==> x in w;
      LastWord(v, [NUL], " \r\n");
      ParseStatusWord(c, m, v, [NUL]);
      assert v == StrStatus(FILE_NOT_FOUND) || v == StrStatus(ERROR) || NoStatus(v);
    } else {
      var rest := c.fullData[|w| + 9..] + [NUL];
      assert m == w + [' '] + rest;
      FirstWord(w, ' ', rest, " \r\n");
      ParseStatusWord(c, m, w, rest);
      forall s | IsErrorStatus(s)
        ensures q != StatusHead(StrStatus(s))
      {
        if q == StatusHead(StrStatus(s)) {
          BeginningIs(q, w, s);
        }
      }
    }
  }

  /** One more chunk of an answer with an unknown status. */
  lemma ChunkOfUnknown(c: Client, p: string, chunk: string, w: string, message: string)
    requires IsUnknown(w) && StatusHead(w) + " " <= message && p + chunk <= message
    requires Undecided(c, p, StatusHead(w)) && (|chunk| < BUFSIZE || NUL in chunk)
    ensures var d := Receive(c, Data(chunk));
            && (forall s :: IsErrorStatus(s) && p + chunk == StatusHead(StrStatus(s)) ==>
                  d.outcome == Returned(0) && d.status == s && d.written == "")
            && ((forall s :: IsErrorStatus(s) ==> p + chunk != StatusHead(StrStatus(s))) ==>
                  Undecided(d, p + chunk, StatusHead(w)))
  {
    hide Receive, ParseHeader, NextToken, StrStatus;
    var q := p + chunk;
    ReceiveHeaderChunk(c, chunk);
    StaysUndecided(c, p, chunk, StatusHead(w), message);
    var d := c.(total := c.total + |chunk|, fullData := c.fullData + TextOf(chunk));
    StatusStopsNothing(FILE_NOT_FOUND);
    StatusStopsNothing(ERROR);
    if |q| <= 10 {
      WaitsForStatus(d, q, w);
    } else {
      LooksAtStatus(d, q, w);
    }
  }

  /** Chunks that `strcat` can append: terminated in the buffer. */
  predicate LeaveRoom(hs: seq<string>) {
    forall i :: 0 <= i < |hs| ==> |hs[i]| < BUFSIZE || NUL in hs[i]
  }

  lemma NoMisreadBefore(front: seq<string>, last: string, w: string, message: string, s: Status)
    requires !Misread(front + [last], w, s)
    requires StatusHead(w) + " " <= message && Flatten(front) + last <= message
    ensures !Misread(front, w, s)
    ensures IsErrorStatus(s) ==> Flatten(front) + last != StatusHead(StrStatus(s))
  {
    hide Flatten, StrStatus, Boundary;
    BoundarySplits(front, last, [], 8 + |StrStatus(s)|);
    StartIsBoundary([]);
    assert front + [last] + [] == front + [last];
    BeginsIs(Flatten(front) + last, StatusHead(w), message);
    if Flatten(front) + last == StatusHead(StrStatus(s)) {
      BeginningIs(Flatten(front) + last, w, s);
    }
  }

  lemma {:induction false} UnknownInChunks(hs: seq<string>, w: string, message: string)
    requires IsUnknown(w) && StatusHead(w) + " " <= message && Flatten(hs) <= message && LeaveRoom(hs)
    requires forall s :: !Misread(hs, w, s)
    ensures Undecided(Feed(START, Deliveries(hs)), Flatten(hs), StatusHead(w))
  {
    hide Receive, StrStatus, Boundary, Misread;
    if hs == [] {
    } else {
      var front, last := hs[..|hs| - 1], hs[|hs| - 1];
      assert hs == front + [last];
      forall s: Status
        ensures !Misread(front, w, s)
        ensures IsErrorStatus(s) ==> Flatten(front) + last != StatusHead(StrStatus(s))
      {
        NoMisreadBefore(front, last, w, message, s);
      }
      UnknownInChunks(front, w, message);
      DeliveriesLast(hs);
      ChunkOfUnknown(Feed(START, Deliveries(front)), Flatten(front), last, w, message);
    }
  }

  lemma OneStatus(w: string, r: Status, s: Status)
    requires IsErrorStatus(r) && IsErrorStatus(s) && StrStatus(r) <= w && StrStatus(s) <= w
    ensures r == s
  {
    assert w[0] == StrStatus(r)[0] == StrStatus(s)[0];
  }

  lemma MisreadInChunks(hs: seq<string>, w: string, message: string, s: Status)
    requires IsUnknown(w) && StatusHead(w) + " " <= message && Flatten(hs) == message
    requires Proper(hs) && LeaveRoom(hs) && Misread(hs, w, s)
    ensures var c := Feed(START, Deliveries(hs)); c.outcome == Returned(0) && c.status == s && c.written == ""
  {
    hide Receive, Feed, Flatten, StrStatus, Boundary;
    var q := StatusHead(StrStatus(s));
    var i := ChunkUpTo(hs, |q|);
    var front, chunk, rest := hs[..i - 1], hs[i - 1], hs[i..];
    assert hs == front + [chunk] + rest;
    assert hs[..i] == front + [chunk];
    FlattenLast(front, chunk);
    FlattenPrefix(hs, i);
    assert Flatten(front) + chunk == message[..|q|] == (StatusHead(w) + " ")[..|q|] == q;
    forall r: Status
      ensures !Misread(front, w, r)
    {
      if Misread(front, w, r) {
        OneStatus(w, r, s);
        BoundaryIsWithin(front, |q|);
      }
    }
    UnknownInChunks(front, w, message);
    ChunkOfUnknown(Feed(START, Deliveries(front)), Flatten(front), chunk, w, message);
    FeedThree(front, chunk, rest);
    OutcomeIsFinal(Receive(Feed(START, Deliveries(front)), Data(chunk)), Deliveries(rest));
  }

  lemma CloseOnUnknown(c: Client, p: string, w: string)
    requires IsUnknown(w) && Undecided(c, p, StatusHead(w)) && StatusHead(w) + " " <= p && Begins(p, StatusHead(w))
    ensures var d := Receive(c, Closed); d.outcome == Returned(-1) && d.status == INVALID && d.written == ""
  {
    hide NextToken, ParseHeader, ReceiveBody, FileLength;
    assert c.fullData[..|w| + 9] == StatusHead(w) + " ";
    var rest := c.fullData[|w| + 9..] + [NUL];
    var m := w + [' '] + rest;
    assert c.fullData + [NUL] == "GETFILE" + " " + m;
    WordsOfHeader(m);
    FirstWord(w, ' ', rest, " ");
    NeverOverruns(rest, " \r\n");
  }

  /** An answer with an unknown status: the client waits for the connection to close, and returns
      -1 then; unless some chunk ends behind a known status that the unknown one starts with. */
  lemma UnknownStatusIff(hs: seq<string>, w: string, message: string)
    requires IsUnknown(w) && StatusHead(w) + " " <= message && Flatten(hs) == message
    requires Proper(hs) && LeaveRoom(hs)
    ensures var c, d := Feed(START, Deliveries(hs)), Feed(START, Deliveries(hs) + [Closed]);
            && d.written == ""
            && (forall s :: Misread(hs, w, s) ==> d == c && c.outcome == Returned(0) && c.status == s)
            && ((forall s :: !Misread(hs, w, s)) ==>
                  c.outcome == Receiving && d.outcome == Returned(-1) && d.status == INVALID)
  {
    hide Receive, Feed, Flatten, Misread;
    FeedThenClose(hs);
    if s :| Misread(hs, w, s) {
      forall s | Misread(hs, w, s)
        ensures var c := Feed(START, Deliveries(hs)); c.outcome == Returned(0) && c.status == s && c.written == ""
      {
        MisreadInChunks(hs, w, message, s);
      }
      FinalAtClose(Feed(START, Deliveries(hs)));
    } else {
      UnknownInChunks(hs, w, message);
      BeginsIs(message, StatusHead(w), message);
      CloseOnUnknown(Feed(START, Deliveries(hs)), message, w);
    }
  }

  // ---------------------------------------------------------------- a length that is no number

  lemma CloseInBody(c: Client, bs: seq<string>, rest: string, n: nat)
    requires Waits(c, "GETFILE OK " + rest, "", n) && Proper(bs)
    ensures var d := Receive(Feed(c, Deliveries(bs)), Closed);
            && d.status == OK
            && if n > 0 && Boundary(bs, n)
               then n <= |Flatten(bs)| && d.outcome == Returned(0) && d.written == Flatten(bs)[..n]
               else d.outcome == Returned(-1) && d.written == Flatten(bs)
  {
    hide Receive, Feed, Flatten, Boundary, EndOf;
    BodyAfterBreak(c, bs, n);
    var d := Feed(c, Deliveries(bs));
    if n > 0 && Boundary(bs, n) {
      var i := ChunkUpTo(bs, n);
      FlattenPrefix(bs, i);
      FinalAtClose(d);
    } else {
      forall i | 1 <= i <= |bs|
        ensures EndOf(bs, i) != n
      {
        ChunksAreNotEmpty(bs, i);
        EndIsBoundary(bs, i);
      }
      CloseAfterStatus(d, rest);
    }
  }

  lemma AfterAnyHeader(front: seq<string>, last: string, x: string) returns (rest: string)
    requires IsWord(x) && AreShort(front) && |last| < BUFSIZE
    requires Flatten(front) <= PreambleOf(x) && Flatten(front) + last == HeaderOf(x)
    ensures Waits(Receive(Feed(START, Deliveries(front)), Data(last)), "GETFILE OK " + rest, "", FileLength(x))
  {
    hide Receive, Feed, Flatten, HeaderOf, PreambleOf, FileLength;
    assert last + "" == last;
    var c := AfterHeaderOf(front, last, "", x);
    rest := HeaderShape(x, "");
    assert HeaderOf(x) + "" == HeaderOf(x);
    assert "GETFILE" + " " + ("OK" + " " + rest) == "GETFILE OK " + rest;
  }

  /** Whatever word stands for the length, the client accepts it, with the value that `atol` makes
      of it: it returns -1 when the connection closes, unless some chunk ends exactly that many
      bytes behind the header, and then it returns 0. */
  lemma AnyLengthIff(front: seq<string>, last: string, x: string, bs: seq<string>)
    requires IsWord(x) && AreShort(front) && |last| < BUFSIZE && Proper(bs)
    requires Flatten(front) <= PreambleOf(x) && Flatten(front) + last == HeaderOf(x)
    ensures var c, n := Feed(START, Deliveries(front + [last] + bs) + [Closed]), FileLength(x);
            && c.status == OK
            && if n > 0 && Boundary(bs, n)
               then n <= |Flatten(bs)| && c.outcome == Returned(0) && c.written == Flatten(bs)[..n]
               else c.outcome == Returned(-1) && c.written == Flatten(bs)
  {
    hide Receive, Feed, Flatten, HeaderOf, PreambleOf, FileLength, Boundary, Waits;
    var rest := AfterAnyHeader(front, last, x);
    FeedThree(front, last, bs);
    FeedThenClose(front + [last] + bs);
    CloseInBody(Receive(Feed(START, Deliveries(front)), Data(last)), bs, rest, FileLength(x));
  }

  lemma LineBehind(c: Client, t: string, more: string)
    requires t != "" && t != "\r" && '\n' !in t && NUL !in t && (more == "" || more[0] == '\n')
    ensures ParseLines(c, t + more + [NUL]) == ReceiveBody(c, t)
  {
    hide NextToken, ReceiveBody;
    var tail := more + [NUL];
    var m := "" + t + tail;
    assert m == t + more + [NUL];
    TokenIs(m, "", t, tail, "\n");
    var rest := if tail[0] == NUL then tail else tail[1..];
    assert rest[|rest| - 1] == NUL;
    NeverOverruns(rest, "\n");
  }

  lemma ParseOneLineEnd(c: Client, x: string, t: string, more: string)
    requires IsWord(x) && c.fullData == PreambleOf(x) + "\r\n" + t + more && c.total >= 11
    requires t != "" && t != "\r" && '\n' !in t && NUL !in t && (more == "" || more[0] == '\n')
    ensures ParseHeader(c) == ReceiveBody(Commit(c.(status := OK), x), t)
  {
    hide ParseHeader, ParseLength, ParseLines, NextToken, ReceiveBody, FileLength;
    var m := t + more + [NUL];
    var rest := x + [' '] + ("\r\n" + t + more);
    assert "GETFILE OK " == "GETFILE" + " " + ("OK" + " ");
    assert c.fullData == "GETFILE" + " " + ("OK" + " " + rest);
    ParseUpToStatus(c, rest);
    assert rest + [NUL] == x + [' '] + ("\r" + "\n" + m);
    LengthAndCarriageReturn(c.(status := OK), x, m);
    LineBehind(Commit(c.(status := OK), x), t, more);
  }

  /** A header that ends with one line end in place of two: the first line behind it, `t`, is taken
      for the beginning of the file, and the lines behind that are dropped. */
  lemma OneLineEnd(hs: seq<string>, last: string, x: string, t: string, more: string)
    requires IsWord(x) && AreShort(hs) && |last| < BUFSIZE && Flatten(hs) <= PreambleOf(x)
    requires Flatten(hs) + last == PreambleOf(x) + "\r\n" + t + more
    requires t != "" && t != "\r" && '\n' !in t && NUL !in t && NUL !in more && (more == "" || more[0] == '\n')
    ensures var c := Receive(Feed(START, Deliveries(hs)), Data(last));
            && c.headercheck && c.status == OK && c.filelen == FileLength(x) && c.written == t
            && c.outcome == if |t| == FileLength(x) then Returned(0) else Receiving
  {
    hide Receive, ParseHeader, FileLength, Flatten;
    var c0, text := Feed(START, Deliveries(hs)), Flatten(hs) + last;
    CommitsToNothing(hs, x);
    NoNulInHeader(x);
    assert NUL !in text;
    assert NUL !in last by { assert forall i :: 0 <= i < |last| ==> last[i] == text[|Flatten(hs)| + i]; }
    TextOfWhole(last);
    ReceiveHeaderChunk(c0, last);
    ParseOneLineEnd(c0.(total := |text|, fullData := text), x, t, more);
  }

  /** Words for the length that are no numbers: no digits count as 0, digits in front as their
      value, and a negative number wraps around. */
  lemma LengthsThatAreNoNumbers()
    ensures FileLength("abc") == 0 && FileLength("3x") == 3 && FileLength("-1") == SIZE_MAX
  {
    assert LeadingDigits("1") == "1" by { assert "1"[1..] == ""; }
    assert Value("1") == 1 by { assert "1"[..0] == ""; }
    assert "-1"[1..] == "1";
    assert LeadingDigits("abc") == "" && LeadingDigits("x") == "";
    assert LeadingDigits("3x") == "3" by { assert "3x"[1..] == "x"; }
    assert Value("3") == 3 by { assert "3"[..0] == ""; }
  }
}
