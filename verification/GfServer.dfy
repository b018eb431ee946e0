/** The request side of the server (pr1/gflib/gfserver.c: `gfserver_serve`) and the request
    printer of the client (pr1/gflib/gfclient.c: `clientscheme`). */
module GfServer {
  import opened CString

  const BUFSIZE: nat := 4096

  /** `clientscheme`. */
  function Request(path: string): string {
    "GETFILE GET " + path + " \r\n\r\n"
  }

  /** The answer to a rejected request; it has one blank more than that of `gfs_sendheader`. */
  const REJECTION := "GETFILE FILE_NOT_FOUND  \r\n\r\n" + [NUL]

  /** What ends every message of the protocol. */
  const MARKER := "\r\n\r\n"

  /** The request is the three words, a blank and the marker. */
  lemma RequestEndsInMarker(path: string)
    ensures Request(path)[|Request(path)| - 4..] == MARKER
    ensures Request(path)[..|Request(path)| - 4] == "GETFILE" + " " + "GET" + " " + path + " "
  {
    assert Request(path) == ("GETFILE GET " + path + " ") + MARKER;
    assert "GETFILE GET " + path + " " == "GETFILE" + " " + "GET" + " " + path + " ";
  }

  /** The rejection is the words, two blanks, the marker and a terminator. */
  lemma RejectionEndsInMarker()
    ensures REJECTION == "GETFILE" + " " + "FILE_NOT_FOUND" + " " + " " + MARKER + [NUL]
  {
  }

  /** `readData` after a `recv` into it: what lies behind the new bytes stays. */
  function Received(readData: string, data: string): string
    requires |readData| == BUFSIZE
  {
    var n := if |data| <= BUFSIZE then |data| else BUFSIZE;
    data[..n] + readData[n..]
  }

  /** The handler is called with a path; or the request is answered with FILE_NOT_FOUND; or C
      leaves open what happens, because `strtok` runs past the buffer or because the third
      token, which is dereferenced before it is compared with NULL, is missing. */
  datatype Served = Handled(path: string) | Rejected | Unspecified

  /** The reaction to a buffer: three calls of `strtok` and the tests on the tokens. */
  ghost function Serve(mem: string): Served {
    var scheme := NextToken(mem, " ");
    if scheme.Overrun? then Unspecified else
    var verb := NextToken(scheme.rest, " ");
    if verb.Overrun? then Unspecified else
    var path := NextToken(verb.rest, " ");
    if !path.Token? then Unspecified
    else if scheme.Token? && scheme.text == "GETFILE" && verb.Token? && verb.text == "GET" && ['/'] <= path.text
    then Handled(path.text)
    else Rejected
  }

  // ---------------------------------------------------------------- the reaction to any buffer

  predicate IsBlank(l: string) {
    forall c :: c in l ==> c == ' '
  }

  predicate IsField(s: string) {
    s != "" && forall c :: c in s ==> c != ' ' && c != NUL
  }

  /** Three words, each with any number of blanks before it, and a character that ends the third. */
  predicate AreWords(l1: string, s: string, l2: string, v: string, l3: string, p: string, tail: string) {
    && IsBlank(l1) && IsBlank(l2) && IsBlank(l3)
    && IsField(s) && IsField(v) && IsField(p)
    && tail != "" && (tail[0] == ' ' || tail[0] == NUL)
  }

  function InBuffer(l1: string, s: string, l2: string, v: string, l3: string, p: string, tail: string): string {
    l1 + s + (" " + (l2 + v + (" " + (l3 + p + tail))))
  }

  /** Whatever bytes follow: only GETFILE GET and a path that starts with a slash reach the handler. */
  lemma ServeIs(l1: string, s: string, l2: string, v: string, l3: string, p: string, tail: string)
    requires AreWords(l1, s, l2, v, l3, p, tail)
    ensures Serve(InBuffer(l1, s, l2, v, l3, p, tail))
            == if s == "GETFILE" && v == "GET" && ['/'] <= p then Handled(p) else Rejected
  {
    hide NextToken;
    var third := l3 + p + tail;
    var second := l2 + v + (" " + third);
    TokenIs(l1 + s + (" " + second), l1, s, " " + second, " ");
    TokenIs(second, l2, v, " " + third, " ");
    TokenIs(third, l3, p, tail, " ");
  }

  ghost predicate HasThreeWords(mem: string) {
    exists l1, s, l2, v, l3, p, tail ::
      AreWords(l1, s, l2, v, l3, p, tail) && mem == InBuffer(l1, s, l2, v, l3, p, tail)
  }

  lemma NothingBehindNothing(m: string)
    ensures var r := NextToken(m, " "); r.NoToken? ==> NextToken(r.rest, " ") == r
  {
    var r := NextToken(m, " ");
    if r.NoToken? {
      NoTokenIs("", r.rest, " ");
      assert "" + r.rest == r.rest;
    }
  }

  /** Without a token, `strtok` stays where it is: if there is a third one, there are all three. */
  lemma ThreeTokens(mem: string)
    requires Serve(mem) != Unspecified
    ensures var scheme := NextToken(mem, " ");
            scheme.Token? && var verb := NextToken(scheme.rest, " "); verb.Token? && NextToken(verb.rest, " ").Token?
  {
    NothingBehindNothing(mem);
    NothingBehindNothing(NextToken(mem, " ").rest);
  }

  lemma WordsBefore(mem: string, text: string, rest: string)
    requires NextToken(mem, " ") == Token(text, rest) && NextToken(rest, " ").Token?
    ensures exists lead :: IsBlank(lead) && IsField(text) && mem == lead + text + (" " + rest)
  {
    var lead, tail := TokenShape(mem, " ");
    assert "" + tail == tail;
    if tail[0] == NUL {
      NoTokenIs("", tail, " ");
    }
    assert tail == " " + rest;
    assert mem == lead + text + (" " + rest);
  }

  /** C leaves open what happens exactly when the buffer does not hold three words, each ended by
      a blank, the third perhaps by a NUL. */
  lemma UnspecifiedIff(mem: string)
    ensures Serve(mem) == Unspecified <==> !HasThreeWords(mem)
  {
    if HasThreeWords(mem) {
      var l1, s, l2, v, l3, p, tail :|
        AreWords(l1, s, l2, v, l3, p, tail) && mem == InBuffer(l1, s, l2, v, l3, p, tail);
      ServeIs(l1, s, l2, v, l3, p, tail);
    }
    if Serve(mem) != Unspecified {
      var scheme := NextToken(mem, " ");
      var verb := NextToken(scheme.rest, " ");
      var path := NextToken(verb.rest, " ");
      ThreeTokens(mem);
      WordsBefore(mem, scheme.text, scheme.rest);
      WordsBefore(scheme.rest, verb.text, verb.rest);
      var l3, tail := TokenShape(verb.rest, " ");
      var l1 :| IsBlank(l1) && mem == l1 + scheme.text + (" " + scheme.rest);
      var l2 :| IsBlank(l2) && scheme.rest == l2 + verb.text + (" " + verb.rest);
      assert AreWords(l1, scheme.text, l2, verb.text, l3, path.text, tail);
      assert mem == InBuffer(l1, scheme.text, l2, verb.text, l3, path.text, tail);
    }
  }

  /** The reaction to a request of three words. */
  function Reaction(s: string, v: string, p: string): Served {
    if s == "GETFILE" && v == "GET" && ['/'] <= p then Handled(p) else Rejected
  }

  lemma PlainRequest(s: string, v: string, p: string, rest: string)
    requires IsField(s) && IsField(v) && IsField(p)
    ensures Serve(s + " " + v + " " + p + " " + rest) == Reaction(s, v, p)
  {
    hide Serve, IsField;
    ServeIs("", s, "", v, "", p, " " + rest);
    assert InBuffer("", s, "", v, "", p, " " + rest) == s + " " + v + " " + p + " " + rest;
  }

  /** Other methods and other schemes are rejected. */
  lemma OtherRequestsAreRejected(stale: string)
    ensures Serve("GETFILE" + " " + "PUT" + " " + "/a" + " " + stale) == Rejected
    ensures Serve("HTTP" + " " + "GET" + " " + "/a" + " " + stale) == Rejected
  {
    hide Serve;
    PlainRequest("GETFILE", "PUT", "/a", stale);
    PlainRequest("HTTP", "GET", "/a", stale);
  }

  /** Three words that end within the buffer. */
  predicate IsRequest(data: string, s: string, v: string, p: string, rest: string) {
    && IsField(s) && IsField(v) && IsField(p) && |s| + |v| + |p| + 3 <= BUFSIZE
    && data == s + " " + v + " " + p + " " + rest
  }

  ghost predicate Reacts(data: string, served: Served) {
    forall s, v, p, rest :: IsRequest(data, s, v, p, rest) ==> served == Reaction(s, v, p)
  }

  /** Whatever the buffer held, a request of three words gets that reaction. */
  lemma AnyWordsReact(readData: string, data: string)
    requires |readData| == BUFSIZE
    ensures Reacts(data, Serve(Received(readData, data)))
  {
    hide Serve, IsField;
    forall s, v, p, rest | IsRequest(data, s, v, p, rest)
      ensures Serve(Received(readData, data)) == Reaction(s, v, p)
    {
      var words, mem := s + " " + v + " " + p + " ", Received(readData, data);
      assert words == data[..|words|] == mem[..|words|];
      assert mem == words + mem[|words|..];
      PlainRequest(s, v, p, mem[|words|..]);
    }
  }

  // ---------------------------------------------------------------- the requests of the client

  /** A path that can stand in a request. */
  predicate GoodPath(path: string) {
    ['/'] <= path && ' ' !in path
  }

  /** Whatever the buffer held, the first two tokens are right and the third starts with the path. */
  lemma RequestShape(readData: string, path: string) returns (mem: string)
    requires |readData| == BUFSIZE
    ensures Received(readData, Request(path)) == "GETFILE" + " " + ("GET" + " " + mem)
    ensures |mem| == BUFSIZE - 12
    ensures if |path| < |mem| then path + " " <= mem else mem <= path
  {
    var all := Received(readData, Request(path));
    mem := all[12..];
    assert Request(path) == "GETFILE GET " + (path + " \r\n\r\n");
    assert all[..12] == "GETFILE GET ";
    assert all == all[..12] + mem;
    assert "GETFILE GET " == "GETFILE" + " " + ("GET" + " ");
  }

  lemma ServeThird(mem: string)
    ensures Serve("GETFILE" + " " + ("GET" + " " + mem))
            == var path := NextToken(mem, " ");
               if !path.Token? then Unspecified
               else if ['/'] <= path.text then Handled(path.text)
               else Rejected
  {
    FirstWord("GETFILE", ' ', "GET" + " " + mem, " ");
    FirstWord("GET", ' ', mem, " ");
  }

  predicate Fits(path: string) {
    GoodPath(path) && |path| < BUFSIZE - 12
  }

  /** Request round trip over a dirty buffer: whatever the buffer held, a path is recovered
      exactly when it starts with a slash, has no space, and ends within the buffer. */
  lemma RequestRoundTrip(readData: string, path: string)
    requires |readData| == BUFSIZE && NUL !in path
    ensures Serve(Received(readData, Request(path))) == Handled(path) <==> Fits(path)
  {
    var mem := RequestShape(readData, path);
    ServeThird(mem);
    if Fits(path) {
      var rest := mem[|path| + 1..];
      assert mem == path + [' '] + rest;
      FirstWord(path, ' ', rest, " ");
    }
    if NextToken(mem, " ").Token? {
      TokenIsPiece(mem, " ");
    }
  }

  ghost predicate RoundTrips(data: string, served: Served) {
    forall path: string :: NUL !in path && data == Request(path) ==> (served == Handled(path) <==> Fits(path))
  }

  lemma AnyRequestRoundTrips(readData: string, data: string)
    requires |readData| == BUFSIZE
    ensures RoundTrips(data, Serve(Received(readData, data)))
  {
    forall path: string | NUL !in path && data == Request(path)
      ensures Serve(Received(readData, data)) == Handled(path) <==> Fits(path)
    {
      RequestRoundTrip(readData, path);
    }
  }

  /** The server's buffer, which no request clears. */
  class Server {
    const readData: array<char>

    ghost predicate Valid() {
      readData.Length == BUFSIZE
    }

    constructor ()
      ensures Valid() && fresh(readData)
      ensures forall i :: 0 <= i < BUFSIZE ==> readData[i] == NUL
    {
      readData := new char[BUFSIZE](_ => NUL);
    }

    method Recv(data: string)
      requires Valid()
      modifies readData
      ensures readData[..] == Received(old(readData[..]), data)
    {
      var n := if |data| <= BUFSIZE then |data| else BUFSIZE;
      forall i | 0 <= i < n {
        readData[i] := data[i];
      }
    }

    /** The three calls of `strtok`, which cut the buffer in place, and the tests. */
    method Tokenise() returns (r: Served)
      requires Valid()
      modifies readData
      ensures r == Serve(old(readData[..]))
      ensures forall i :: 0 <= i < BUFSIZE ==> readData[i] == old(readData[i]) || readData[i] == NUL
    {
      var library := new Strtok(readData);
      assert readData[0..] == readData[..];
      var scheme := library.NextWord(" ");
      if scheme.Overran? {
        return Unspecified;
      }
      var verb := library.NextWord(" ");
      if verb.Overran? {
        return Unspecified;
      }
      var path := library.NextWord(" ");
      if !path.Word? {
        return Unspecified;
      }
      r := if scheme != Word("GETFILE") || verb != Word("GET") || !(['/'] <= path.text) then Rejected
           else Handled(path.text);
    }

    /** One round of the loop of `gfserver_serve`, with a `recv` that delivers `data`. */
    method ServeOne(data: string) returns (r: Served)
      requires Valid()
      modifies readData
      ensures r == Serve(Received(old(readData[..]), data))
      ensures forall i :: 0 <= i < BUFSIZE ==>
                readData[i] == Received(old(readData[..]), data)[i] || readData[i] == NUL
    {
      Recv(data);
      ghost var mem := readData[..];
      r := Tokenise();
      assert forall i :: 0 <= i < BUFSIZE ==> readData[i] == mem[i] || readData[i] == NUL;
    }

    /** Requests one after the other through the same buffer: each good path is recovered,
        whatever the earlier requests left behind. */
    method ServeAll(requests: seq<string>) returns (served: seq<Served>)
      requires Valid()
      modifies readData
      ensures |served| == |requests|
      ensures forall i :: 0 <= i < |requests| ==> RoundTrips(requests[i], served[i]) && Reacts(requests[i], served[i])
    {
      served := [];
      for k := 0 to |requests|
        invariant |served| == k
        invariant forall i :: 0 <= i < k ==> RoundTrips(requests[i], served[i]) && Reacts(requests[i], served[i])
      {
        hide Serve, Received, RoundTrips, Reacts;
        AnyWordsReact(readData[..], requests[k]);
        AnyRequestRoundTrips(readData[..], requests[k]);
        var r := ServeOne(requests[k]);
        served := served + [r];
      }
    }
  }
}
