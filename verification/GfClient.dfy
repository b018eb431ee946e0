/** The receive state machine of the client (pr1/gflib/gfclient.c: `gfc_perform`) and the
    response headers of the server (pr1/gflib/gfserver.c: `gfs_sendheader`). */
module GfClient {
  import opened Chunks
  import opened CString
  import opened Decimal

  const SIZE_MAX: nat := 0xffff_ffff_ffff_ffff

  datatype Status = OK | FILE_NOT_FOUND | ERROR | INVALID

  /** `gfc_strstatus`. */
  function StrStatus(status: Status): string {
    match status
    case OK => "OK"
    case FILE_NOT_FOUND => "FILE_NOT_FOUND"
    case ERROR => "ERROR"
    case INVALID => "INVALID"
  }

  /** The header that `gfs_sendheader` prints for a file of `n` bytes. */
  function OkHeader(n: nat): string {
    "GETFILE OK " + Print(n) + " \r\n\r\n"
  }

  /** What it writes for the other two statuses; the terminator is written, too. */
  function ErrorHeader(status: Status): string {
    "GETFILE " + StrStatus(status) + " \r\n\r\n" + [NUL]
  }

  /** `gfc_perform` still receives, or has returned; or C leaves open what happens, because
      `strcmp` gets a null pointer or `strcat` an unterminated buffer. */
  datatype Outcome = Receiving | Returned(code: int) | Unspecified

  /** The locals of `gfc_perform` and the fields of the request that it sets.  `written` is what
      the write callback has been given so far. */
  datatype Client = Client(
    outcome: Outcome,
    headercheck: bool, fullData: string, total: nat, fileBytes: nat,
    status: Status, filelen: nat, filelenstr: string, bytesFileReceived: nat,
    written: string)

  const START := Client(Receiving, false, "", 0, 0, FILE_NOT_FOUND, 0, "", 0, "")

  /** What `recv` returns: an error, the end of the stream, or bytes. */
  datatype Recv = Failed | Closed | Data(bytes: string)

  /** A `long` stored in a `size_t`. */
  function AsSize(v: int): nat
    requires 0 - LONG_MAX - 1 <= v <= LONG_MAX
  {
    if v < 0 then v + SIZE_MAX + 1 else v
  }

  function FileLength(s: string): nat {
    AsSize(Atol(s))
  }

  /** Lines 332-344. */
  ghost function ReceiveBody(c: Client, bytes: string): Client {
    var n := c.fileBytes + |bytes|;
    c.(fileBytes := n, bytesFileReceived := n, written := c.written + bytes,
       outcome := if n == c.filelen then Returned(0) else Receiving)
  }

  /** Lines 285-286 and 295-325. */
  ghost function ParseLines(c: Client, m: string): Client {
    var temp2 := NextToken(m, "\n");
    if temp2.Overrun? then c.(outcome := Unspecified) else
    var line := NextToken(temp2.rest, "\n");
    if line.Overrun? then c.(outcome := Unspecified) else
    var fileData := if temp2.Token? && temp2.text != "\r" then temp2 else line;
    if fileData.Token? then ReceiveBody(c, fileData.text) else c
  }

  /** Lines 283-325: the length, and what of the file has come along with the header. */
  ghost function ParseLength(c: Client, m: string): Client {
    var filelen := NextToken(m, " \r\n");
    if filelen.Overrun? then c.(outcome := Unspecified) else
    var temp1 := NextToken(filelen.rest, "\n");
    if temp1.Overrun? then c.(outcome := Unspecified) else
    ParseLines(if filelen.Token? && temp1.Token?
               then c.(filelenstr := filelen.text, filelen := FileLength(filelen.text), headercheck := true)
               else c, temp1.rest)
  }

  /** Lines 262-281: the status. */
  ghost function ParseStatus(c: Client, m: string): Client {
    match NextToken(m, " \r\n")
    case Token(status, rest) =>
      if status == "OK" then ParseLength(c.(status := OK), rest)
      else if status == "FILE_NOT_FOUND" then c.(status := FILE_NOT_FOUND, outcome := Returned(0))
      else if status == "ERROR" then c.(status := ERROR, outcome := Returned(0))
      else c
    case _ => c.(outcome := Unspecified)
  }

  /** Lines 253-261: the scheme. */
  ghost function ParseHeader(c: Client): Client {
    if c.total <= 7 then c
    else match NextToken(c.fullData + [NUL], " ")
      case Token(scheme, rest) =>
        if scheme != "GETFILE" then
          c.(status := INVALID, bytesFileReceived := c.total, outcome := Returned(-1))
        else if c.total <= 10 then c
        else ParseStatus(c, rest)
      case _ => c.(outcome := Unspecified)
  }

  function CloseWith(c: Client, scheme: Word, status: Word, filelen: Word): Client {
    var d := if filelen.Word? then c.(filelenstr := filelen.text, filelen := FileLength(filelen.text)) else c;
    if !status.Word? then d.(outcome := Unspecified)
    else if status.text != "OK" || scheme != Word("GETFILE") then d.(status := INVALID, outcome := Returned(-1))
    else d.(outcome := Returned(-1))
  }

  /** Lines 222-239: the stream ended. */
  ghost function AtClose(c: Client): Client {
    var scheme := NextToken(c.fullData + [NUL], " ");
    if scheme.Overrun? then c.(outcome := Unspecified) else
    var status := NextToken(scheme.rest, " ");
    if status.Overrun? then c.(outcome := Unspecified) else
    var filelen := NextToken(status.rest, " \r\n");
    if filelen.Overrun? then c.(outcome := Unspecified) else
    CloseWith(c, WordOf(scheme), WordOf(status), WordOf(filelen))
  }

  /** The reaction to one `recv`. */
  ghost function Receive(c: Client, r: Recv): Client {
    if c.outcome != Receiving then c
    else match r
      case Failed => c.(outcome := Returned(-1))
      case Closed => AtClose(c)
      case Data(bytes) =>
        var d := c.(total := c.total + |bytes|);
        if c.headercheck then ReceiveBody(d, bytes)
        else if |bytes| >= BUFSIZE && NUL !in bytes then d.(outcome := Unspecified)
        else ParseHeader(d.(fullData := c.fullData + TextOf(bytes)))
  }

  /** The reaction to a sequence of calls of `recv`. */
  ghost function Feed(c: Client, rs: seq<Recv>): Client {
    if rs == [] then c else Receive(Feed(c, rs[..|rs| - 1]), rs[|rs| - 1])
  }

  function Deliveries(chunks: seq<string>): (rs: seq<Recv>)
    ensures |rs| == |chunks|
  {
    seq(|chunks|, i requires 0 <= i < |chunks| => Data(chunks[i]))
  }

  /** The file has arrived: what the callers of `gfc_perform` are promised. */
  predicate Delivered(c: Client, file: string) {
    c.outcome == Returned(0) && c.status == OK && c.written == file && c.filelen == c.bytesFileReceived == |file|
  }

  lemma {:induction false} FeedStops(rs: seq<Recv>, k: nat)
    requires k <= |rs| && (k == |rs| || Feed(START, rs[..k]).outcome != Receiving)
    ensures Feed(START, rs) == Feed(START, rs[..k])
  {
    if k == |rs| {
      assert rs[..k] == rs;
    } else {
      var front := rs[..|rs| - 1];
      assert front[..k] == rs[..k];
      FeedStops(front, k);
    }
  }

  // ---------------------------------------------------------------- the request

  /** A request: the fields that `gfc_perform` sets, and its locals while it runs. */
  class Request {
    var outcome: Outcome
    var headercheck: bool
    var fullData: string
    var total: nat
    var fileBytes: nat
    var status: Status
    var filelen: nat
    var filelenstr: string
    var bytesFileReceived: nat
    var written: string

    function View(): Client
      reads this
    {
      Client(outcome, headercheck, fullData, total, fileBytes, status, filelen, filelenstr, bytesFileReceived, written)
    }

    /** `gfc_create`. */
    constructor ()
      ensures View() == START
    {
      outcome, headercheck, fullData, total, fileBytes := Receiving, false, "", 0, 0;
      status, filelen, filelenstr, bytesFileReceived, written := FILE_NOT_FOUND, 0, "", 0, "";
    }

    /** Bytes of the file: they are counted and passed to the write callback. */
    method TakeBody(bytes: string)
      requires outcome == Receiving
      modifies this
      ensures View() == ReceiveBody(old(View()), bytes)
    {
      fileBytes := fileBytes + |bytes|;
      written := written + bytes;
      bytesFileReceived := fileBytes;
      if fileBytes == filelen {
        outcome := Returned(0);
      }
    }

    /** The text so far, terminated, in memory of its own (`checkformat`). */
    method CopyText() returns (library: Strtok)
      ensures fresh(library) && fresh(library.buf) && library.saved == 0
      ensures library.buf[..] == fullData + [NUL]
    {
      var text := fullData;
      var checkformat := new char[|text| + 1](i requires 0 <= i => if i < |text| then text[i] else NUL);
      library := new Strtok(checkformat);
    }

    /** Lines 285-286 and 295-325. */
    method TakeLines(library: Strtok)
      requires outcome == Receiving && library.saved <= library.buf.Length
      modifies this, library`saved, library.buf
      ensures View() == ParseLines(old(View()), old(library.buf[library.saved..]))
    {
      hide NextToken;
      var temp2 := library.NextWord("\n");
      if temp2.Overran? {
        outcome := Unspecified;
        return;
      }
      var fileData := library.NextWord("\n");
      if fileData.Overran? {
        outcome := Unspecified;
        return;
      }
      if temp2.Word? && temp2.text != "\r" {
        fileData := temp2;
      }
      if fileData.Word? {
        TakeBody(fileData.text);
      }
    }

    /** Lines 283-325. */
    method TakeLength(library: Strtok)
      requires outcome == Receiving && library.saved <= library.buf.Length && NUL in library.buf[library.saved..]
      modifies this, library`saved, library.buf
      ensures View() == ParseLength(old(View()), old(library.buf[library.saved..]))
    {
      hide NextToken, ParseLines;
      library.StartOver();
      assert library.buf[library.saved..] == library.buf[..][library.saved..] == old(library.buf[..])[library.saved..];
      var length := library.NextWord(" \r\n");
      if length.Overran? {
        outcome := Unspecified;
        return;
      }
      var temp1 := library.NextWord("\n");
      if temp1.Overran? {
        outcome := Unspecified;
        return;
      }
      if length.Word? && temp1.Word? {
        filelenstr := length.text;
        filelen := FileLength(length.text);
        headercheck := true;
      }
      TakeLines(library);
    }

    /** Lines 262-327. */
    method TakeStatus(library: Strtok)
      requires outcome == Receiving && library.saved <= library.buf.Length && NUL in library.buf[library.saved..]
      modifies this, library`saved, library.buf
      ensures View() == ParseStatus(old(View()), old(library.buf[library.saved..]))
    {
      NeverOverruns(library.buf[library.saved..], " \r\n");
      hide NextToken, ParseLength;
      var statusStr := library.NextWord(" \r\n");
      if !statusStr.Word? {
        outcome := Unspecified;
        return;
      }
      if statusStr.text != "OK" {
        if statusStr.text == "FILE_NOT_FOUND" {
          status := FILE_NOT_FOUND;
          outcome := Returned(0);
        } else if statusStr.text == "ERROR" {
          status := ERROR;
          outcome := Returned(0);
        }
      } else {
        status := OK;
        TakeLength(library);
      }
    }

    /** Lines 250-328: the text so far is parsed from its beginning. */
    method ParseText()
      requires outcome == Receiving
      modifies this
      ensures View() == ParseHeader(old(View()))
    {
      if total > 7 {
        var library := CopyText();
        ghost var mem := library.buf[..];
        assert library.buf[0..] == mem && mem[|mem| - 1] == NUL;
        NeverOverruns(mem, " ");
        hide NextToken, ParseStatus;
        var scheme := library.NextWord(" ");
        if !scheme.Word? {
          outcome := Unspecified;
          return;
        }
        if scheme.text != "GETFILE" {
          status := INVALID;
          bytesFileReceived := total;
          outcome := Returned(-1);
          return;
        }
        if total > 10 {
          TakeStatus(library);
        }
      }
    }

    /** Lines 244-328: the new bytes, up to the first NUL, are appended to the text so far. */
    method TakeHeader(bytes: string)
      requires outcome == Receiving && (|bytes| < BUFSIZE || NUL in bytes)
      modifies this
      ensures View() == ParseHeader(old(View()).(fullData := old(fullData) + TextOf(bytes)))
    {
      hide ParseHeader;
      var buf := new char[|bytes|](i requires 0 <= i < |bytes| => bytes[i]);
      var text := new Strtok(buf);
      assert buf[0..] == bytes;
      var received := text.ReadText(0);
      fullData := fullData + received;
      ParseText();
    }

    /** Lines 228-239. */
    method CloseOn(scheme: Word, statusStr: Word, length: Word)
      requires outcome == Receiving
      modifies this
      ensures View() == CloseWith(old(View()), scheme, statusStr, length)
    {
      if length.Word? {
        filelen := FileLength(length.text);
        filelenstr := length.text;
      }
      if !statusStr.Word? {
        outcome := Unspecified;
        return;
      }
      if statusStr.text != "OK" || scheme != Word("GETFILE") {
        status := INVALID;
      }
      outcome := Returned(-1);
    }

    /** Lines 222-239: the stream ended. */
    method Close()
      requires outcome == Receiving
      modifies this
      ensures View() == AtClose(old(View()))
    {
      var library := CopyText();
      assert library.buf[0..] == library.buf[..];
      hide NextToken, CloseWith;
      var scheme := library.NextWord(" ");
      if scheme.Overran? {
        outcome := Unspecified;
        return;
      }
      var statusStr := library.NextWord(" ");
      if statusStr.Overran? {
        outcome := Unspecified;
        return;
      }
      var length := library.NextWord(" \r\n");
      if length.Overran? {
        outcome := Unspecified;
        return;
      }
      CloseOn(scheme, statusStr, length);
    }

    /** `gfc_perform`: one round of its loop for each result of `recv`, until it returns. */
    method Perform(rs: seq<Recv>)
      requires View() == START
      modifies this
      ensures View() == Feed(START, rs)
    {
      hide ParseHeader, AtClose;
      var k := 0;
      while k < |rs| && outcome == Receiving
        invariant k <= |rs| && View() == Feed(START, rs[..k])
      {
        assert rs[..k + 1][..k] == rs[..k];
        match rs[k] {
          case Failed =>
            outcome := Returned(-1);
          case Closed =>
            Close();
          case Data(bytes) =>
            total := total + |bytes|;
            if headercheck {
              TakeBody(bytes);
            } else if |bytes| >= BUFSIZE && NUL !in bytes {
              outcome := Unspecified;
            } else {
              TakeHeader(bytes);
            }
        }
        k := k + 1;
      }
      FeedStops(rs, k);
    }
  }
}
