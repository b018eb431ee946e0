/** Sending a file (pr1/gflib/handler.c: `handler_get`) over a connection, with the single
    `write` of pr1/gflib/gfserver.c or the partial-send loop of pr1/gflib/copy/gfserver.c. */
module Handler {
  import opened GfClient

  const BUFFER_SIZE: nat := 4096

  function Min(a: int, b: int): int {
    if a < b then a else b
  }

  /** What the environment is ready to do: how many bytes the i-th `pread` would deliver (none,
      if that is not positive) and how many the i-th `write` or `send` would take. */
  datatype Environment = Environment(readable: nat -> int, writable: nat -> nat)

  ghost predicate ReadsGoOn(e: Environment) {
    forall i: nat :: e.readable(i) >= 1
  }

  ghost predicate WritesGoOn(e: Environment) {
    forall i: nat :: e.writable(i) >= 1
  }

  ghost predicate WritesAreFull(e: Environment) {
    forall i: nat :: e.writable(i) >= BUFFER_SIZE
  }

  /** What the i-th `write` takes of `data`. */
  function Taken(e: Environment, i: nat, data: string): string {
    data[..Min(e.writable(i), |data|)]
  }

  /** Which `gfs_send` is linked. */
  datatype Sender = OneWrite | SendAll

  /** A connection: the bytes sent so far, and how often the environment has been asked. */
  class Context {
    const env: Environment
    var sent: string
    var open: bool
    var readCalls: nat
    var writeCalls: nat

    constructor (env: Environment)
      ensures this.env == env && sent == "" && open
    {
      this.env, sent, open, readCalls, writeCalls := env, "", true, 0, 0;
    }

    /** `pread` from a file that does not change, up to its end. */
    method PRead(file: string, count: nat, offset: nat) returns (len: int, buffer: string)
      requires offset <= |file|
      modifies this`readCalls
      ensures len == (if env.readable(old(readCalls)) <= 0 then env.readable(old(readCalls))
                      else Min(env.readable(old(readCalls)), Min(count, |file| - offset)))
      ensures readCalls == old(readCalls) + 1
      ensures buffer == if len > 0 then file[offset..offset + len] else ""
    {
      var ready := env.readable(readCalls);
      len := if ready <= 0 then ready else Min(ready, Min(count, |file| - offset));
      buffer := if len > 0 then file[offset..offset + len] else "";
      readCalls := readCalls + 1;
    }

    /** One `write` or `send`. */
    method Write(data: string) returns (n: nat)
      modifies this`sent, this`writeCalls
      ensures n == Min(env.writable(old(writeCalls)), |data|)
      ensures sent == old(sent) + data[..n] && writeCalls == old(writeCalls) + 1
    {
      n := Min(env.writable(writeCalls), |data|);
      sent := sent + data[..n];
      writeCalls := writeCalls + 1;
    }

    /** The partial-send loop: it ends when everything has been sent. */
    method WriteAll(data: string) returns (total: nat)
      requires WritesGoOn(env)
      modifies this`sent, this`writeCalls
      ensures total == |data| && sent == old(sent) + data
    {
      total := 0;
      var bytesRemain: nat := |data|;
      while total < |data|
        invariant total + bytesRemain == |data|
        invariant sent == old(sent) + data[..total]
        decreases |data| - total
      {
        var n := Write(data[total..]);
        assert data[..total + n] == data[..total] + data[total..][..n];
        total, bytesRemain := total + n, bytesRemain - n;
      }
      assert data[..total] == data;
    }

    /** `gfs_send`. */
    method Send(sender: Sender, data: string) returns (n: nat)
      requires sender == SendAll ==> WritesGoOn(env)
      modifies this`sent, this`writeCalls
      ensures n <= |data| && sent == old(sent) + data[..n]
      ensures sender == SendAll || env.writable(old(writeCalls)) >= |data| ==> n == |data|
      ensures sender == OneWrite ==>
                n == Min(env.writable(old(writeCalls)), |data|) && writeCalls == old(writeCalls) + 1
    {
      match sender {
        case OneWrite => n := Write(data);
        case SendAll =>
          n := WriteAll(data);
          assert data[..n] == data;
      }
    }

    /** `gfs_sendheader`: a single `write`, whatever it takes. */
    method SendHeader(status: Status, fileLen: nat) returns (size: nat)
      requires status == OK || status == FILE_NOT_FOUND || status == ERROR
      modifies this`sent, this`open, this`writeCalls
      ensures writeCalls == old(writeCalls) + 1
      ensures var header := if status == OK then OkHeader(fileLen) else ErrorHeader(status);
              sent == old(sent) + Taken(env, old(writeCalls), header)
      ensures size == |sent| - |old(sent)|
      ensures open == (status == OK && old(open))
    {
      var header := if status == OK then OkHeader(fileLen) else ErrorHeader(status);
      size := Write(header);
      if status != OK {
        open := false;
      }
    }
  }

  datatype Found = File(contents: string) | NotFound

  /** `sent` has grown by a beginning of the file. */
  ghost predicate GrewByBeginning(before: string, sent: string, file: string) {
    exists k :: 0 <= k <= |file| && sent == before + file[..k]
  }

  lemma NextPiece(file: string, t: nat, len: nat, w: nat)
    requires t + len <= |file| && w <= len
    ensures file[..t] + file[t..t + len][..w] == file[..t + w]
  {
  }

  /** From byte `t` of a file of `size` bytes on, with the `i`-th `pread` and the `j`-th `write`
      next: each read delivers something, and a single `write` takes all of it. */
  ghost predicate AllGoesWell(e: Environment, sender: Sender, size: nat, t: nat, i: nat, j: nat)
    decreases size - t
  {
    if t >= size then true
    else
      var len := Min(e.readable(i), Min(BUFFER_SIZE, size - t));
      && len > 0 && (sender == SendAll || e.writable(j) >= len)
      && AllGoesWell(e, sender, size, t + len, i + 1, if sender == SendAll then j else j + 1)
  }

  lemma OneRound(e: Environment, sender: Sender, size: nat, t: nat, i: nat, j: nat)
    ensures t >= size ==> AllGoesWell(e, sender, size, t, i, j)
    ensures t < size ==>
              var len := Min(e.readable(i), Min(BUFFER_SIZE, size - t));
              AllGoesWell(e, sender, size, t, i, j)
              <==> len > 0 && (sender == SendAll || e.writable(j) >= len)
                   && AllGoesWell(e, sender, size, t + len, i + 1, if sender == SendAll then j else j + 1)
  {
  }

  /** `handler_get`: the header, or what a single `write` takes of it, and then the file chunk by
      chunk.  It returns the length of the file, having sent all of it once and in order, or -1,
      having sent a beginning of it and closed the connection, if a read delivers nothing or a
      `gfs_send` takes less than was read. */
  method HandlerGet(ctx: Context, sender: Sender, found: Found) returns (r: int)
    requires sender == SendAll ==> WritesGoOn(ctx.env)
    modifies ctx
    ensures found.NotFound? ==>
              && ctx.sent == old(ctx.sent) + Taken(ctx.env, old(ctx.writeCalls), ErrorHeader(FILE_NOT_FOUND))
              && !ctx.open && r == |ctx.sent| - |old(ctx.sent)|
    ensures found.File? ==>
              var file := found.contents;
              var start := old(ctx.sent) + Taken(ctx.env, old(ctx.writeCalls), OkHeader(|file|));
              && (r == |file| || r == -1)
              && (r == |file| <==>
                    AllGoesWell(ctx.env, sender, |file|, 0, old(ctx.readCalls), old(ctx.writeCalls) + 1))
              && (r >= 0 ==> ctx.sent == start + file && ctx.open == old(ctx.open))
              && (r == -1 ==> !ctx.open && GrewByBeginning(start, ctx.sent, file))
              && (ReadsGoOn(ctx.env) && (sender == SendAll || WritesAreFull(ctx.env)) ==> r == |file|)
  {
    hide OkHeader, ErrorHeader, AllGoesWell;
    if found == NotFound {
      r := ctx.SendHeader(FILE_NOT_FOUND, 0);
      return;
    }
    var file := found.contents;
    var fileLen := |file|;
    var _ := ctx.SendHeader(OK, fileLen);
    ghost var start, writes := ctx.sent, ctx.writeCalls;
    var transferred: nat := 0;
    while transferred < fileLen
      invariant transferred <= fileLen
      invariant ctx.sent == start + file[..transferred] && ctx.open == old(ctx.open)
      invariant AllGoesWell(ctx.env, sender, fileLen, 0, old(ctx.readCalls), writes)
                <==> AllGoesWell(ctx.env, sender, fileLen, transferred, ctx.readCalls,
                                 if sender == SendAll then writes else ctx.writeCalls)
      decreases fileLen - transferred
    {
      ghost var j := if sender == SendAll then writes else ctx.writeCalls;
      OneRound(ctx.env, sender, fileLen, transferred, ctx.readCalls, j);
      var readLen, buffer := ctx.PRead(file, BUFFER_SIZE, transferred);
      if readLen <= 0 {
        ctx.open := false;
        return -1;
      }
      var writeLen := ctx.Send(sender, buffer);
      NextPiece(file, transferred, readLen, writeLen);
      assert ctx.sent == start + file[..transferred + writeLen];
      if writeLen != readLen {
        ctx.open := false;
        return -1;
      }
      transferred := transferred + writeLen;
    }
    assert file[..transferred] == file;
    ghost var j := if sender == SendAll then writes else ctx.writeCalls;
    OneRound(ctx.env, sender, fileLen, fileLen, ctx.readCalls, j);
    r := transferred;
  }
}
