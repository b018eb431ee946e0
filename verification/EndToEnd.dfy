/** A whole transfer: request, lookup, answer, and the client's reaction. */
module EndToEnd {
  import opened Chunks
  import opened CString
  import opened Decimal
  import opened GfClient
  import opened GfDelivery
  import opened GfSplits
  import Content
  import GfServer
  import Handler

  /** The index leads from the path to a descriptor of `file`, and to no other. */
  ghost predicate Serves(index: Content.Index, disk: map<int, string>, path: string, file: string)
    reads index, index.items
  {
    && index.Valid()
    && (exists i :: 0 <= i < index.nitems && index.items[i].key == path)
    && forall i :: 0 <= i < index.nitems && index.items[i].key == path ==>
         index.items[i].fildes in disk && disk[index.items[i].fildes] == file
  }

  /** The first `write`, that of the header, is taken whole; the source does not look at its result. */
  ghost predicate HeaderIsTaken(ctx: Handler.Context, header: string)
    reads ctx
  {
    ctx.env.writable(ctx.writeCalls) >= |header|
  }

  /** The server's half: the request is recovered from the buffer, the path looked up, and the
      header and the file are sent. */
  method Answer(path: string, server: GfServer.Server, index: Content.Index, disk: map<int, string>,
                ctx: Handler.Context, sender: Handler.Sender, ghost file: string)
    requires server.Valid() && NUL !in path && GfServer.Fits(path)
    requires Serves(index, disk, path, file) && index.items as object != server.readData
    requires Handler.ReadsGoOn(ctx.env) && ctx.sent == "" && HeaderIsTaken(ctx, OkHeader(|file|))
    requires sender == Handler.SendAll ==> Handler.WritesGoOn(ctx.env)
    requires sender == Handler.OneWrite ==> Handler.WritesAreFull(ctx.env)
    modifies server.readData, ctx
    ensures ctx.sent == OkHeader(|file|) + file
  {
    hide OkHeader, GfServer.Serve, GfServer.Received, GfServer.Request, GfServer.Fits;
    GfServer.RequestRoundTrip(server.readData[..], path);
    var served := server.ServeOne(GfServer.Request(path));
    var fd := index.Get(served.path);
    assert Handler.Taken(ctx.env, ctx.writeCalls, OkHeader(|file|)) == OkHeader(|file|);
    var r := Handler.HandlerGet(ctx, sender, Handler.File(disk[fd]));
    assert r == |file|;
    assert "" + OkHeader(|file|) + file == OkHeader(|file|) + file;
  }

  /** The client asks for `path` over a connection on which the server's answer arrives in the
      given chunks.  Whatever the server's buffer held before, however many bytes each `pread`
      delivers and each partial send takes, and however the answer is split: the client gets
      exactly the file, returns 0 and reports the right status and lengths if and only if the
      split is one of those that `Arrives` describes. */
  method Fetch(path: string, server: GfServer.Server, index: Content.Index, disk: map<int, string>,
               ctx: Handler.Context, sender: Handler.Sender, chunks: seq<string>, ghost file: string)
    returns (request: Request)
    requires server.Valid() && NUL !in path && GfServer.Fits(path)
    requires Serves(index, disk, path, file) && index.items as object != server.readData
    requires 1 <= |file| <= LONG_MAX
    requires Handler.ReadsGoOn(ctx.env) && ctx.sent == "" && HeaderIsTaken(ctx, OkHeader(|file|))
    requires sender == Handler.SendAll ==> Handler.WritesGoOn(ctx.env)
    requires sender == Handler.OneWrite ==> Handler.WritesAreFull(ctx.env)
    requires Proper(chunks) && Flatten(chunks) == OkHeader(|file|) + file
    modifies server.readData, ctx
    ensures ctx.sent == Flatten(chunks)
    ensures fresh(request) && (Delivered(request.View(), file) <==> Arrives(chunks, file))
  {
    hide Feed, Receive, OkHeader, Preamble, Flatten, Arrives;
    Answer(path, server, index, disk, ctx, sender, file);
    request := new Request();
    request.Perform(Deliveries(chunks));
    ArrivesIff(chunks, file);
  }

  /** If the index has no entry for the path, the client learns that from any split of the answer. */
  method FetchMissing(path: string, server: GfServer.Server, index: Content.Index,
                      ctx: Handler.Context, sender: Handler.Sender, chunks: seq<string>)
    returns (request: Request)
    requires server.Valid() && NUL !in path && GfServer.Fits(path)
    requires index.Valid() && index.items as object != server.readData
    requires forall i :: 0 <= i < index.nitems ==> index.items[i].key != path
    requires ctx.sent == "" && HeaderIsTaken(ctx, ErrorHeader(FILE_NOT_FOUND))
    requires sender == Handler.SendAll ==> Handler.WritesGoOn(ctx.env)
    requires Flatten(chunks) == ErrorHeader(FILE_NOT_FOUND)
    modifies server.readData, ctx
    ensures ctx.sent == Flatten(chunks)
    ensures fresh(request)
    ensures request.outcome == Returned(0) && request.status == FILE_NOT_FOUND && request.written == ""
  {
    hide Feed, Receive, ErrorHeader, Flatten;
    hide GfServer.Serve, GfServer.Received, GfServer.Request, GfServer.Fits;
    GfServer.RequestRoundTrip(server.readData[..], path);
    var served := server.ServeOne(GfServer.Request(path));
    var fd := index.Get(served.path);
    assert fd == -1;
    var _ := Handler.HandlerGet(ctx, sender, Handler.NotFound);
    ServerAnswers(FILE_NOT_FOUND);
    ErrorStatusArrives(chunks, ErrorHeader(FILE_NOT_FOUND), FILE_NOT_FOUND);
    request := new Request();
    request.Perform(Deliveries(chunks));
  }

  /** A client whose request is rejected learns that, however the rejection is split. */
  lemma RejectionArrives(chunks: seq<string>)
    requires Flatten(chunks) == GfServer.REJECTION
    ensures var c := Feed(START, Deliveries(chunks));
            c.outcome == Returned(0) && c.status == FILE_NOT_FOUND && c.written == ""
  {
    hide Feed;
    assert "GETFILE " + StrStatus(FILE_NOT_FOUND) + " " == "GETFILE FILE_NOT_FOUND ";
    hide StrStatus;
    ErrorStatusArrives(chunks, GfServer.REJECTION, FILE_NOT_FOUND);
  }
}
