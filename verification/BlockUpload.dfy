/** Synchronous blockwise upload (`golioth_blockwise_post`, RFC 7959 section 2): the block size can
    shrink in the middle of a transfer, and the block number is rescaled when it does. */
module BlockUpload {
  import opened Basics
  import opened Machine32

  /** BLOCKSIZE_TO_SZX. */
  function BlockSizeToSzx(size: nat): int {
    if size == 16 then 0 else if size == 32 then 1 else if size == 64 then 2
    else if size == 128 then 3 else if size == 256 then 4 else if size == 512 then 5
    else if size == 1024 then 6 else -1
  }

  /** SZX_TO_BLOCKSIZE. */
  function SzxToBlockSize(szx: nat): (size: nat)
    ensures size >= 1
  {
    Pow2(szx + 4)
  }

  type Szx = s: nat | s <= 6 witness 0

  lemma SzxRoundTrip(szx: Szx)
    ensures BlockSizeToSzx(SzxToBlockSize(szx)) == szx
    ensures 16 <= SzxToBlockSize(szx) <= 1024
  {
    assert Pow2(4) == 2 * Pow2(3) && Pow2(3) == 2 * Pow2(2);
    assert Pow2(6) == 2 * Pow2(5) && Pow2(8) == 2 * Pow2(7) && Pow2(10) == 2 * Pow2(9);
    assert Pow2(5) == 2 * Pow2(4) && Pow2(7) == 2 * Pow2(6) && Pow2(9) == 2 * Pow2(8);
  }

  lemma {:induction false} Pow2Sum(a: nat, b: nat)
    ensures Pow2(a + b) == Pow2(a) * Pow2(b)
  {
    if a > 0 {
      Pow2Sum(a - 1, b);
    }
  }

  /** `recalculate_next_block_idx`: the index of the next block, counted in smaller blocks. */
  function NextBlockIdx(from: nat, larger: nat, smaller: nat): (next: nat)
    requires smaller <= larger
    ensures next * SzxToBlockSize(smaller) == (from + 1) * SzxToBlockSize(larger)
  {
    var multiplier := Pow2(larger - smaller);
    Pow2Sum(larger - smaller, smaller + 4);
    assert ((from + 1) * multiplier) * SzxToBlockSize(smaller)
        == (from + 1) * (multiplier * SzxToBlockSize(smaller));
    (from + 1) * multiplier
  }

  /** The rescaled index fits the `int` it is computed in, for any source a `size_t` can count. */
  lemma NextBlockIdxFitsInt(from: nat, larger: Szx, smaller: Szx)
    requires smaller <= larger && from * SzxToBlockSize(larger) < TWO32
    ensures NextBlockIdx(from, larger, smaller) < TWO31
  {
    SzxRoundTrip(larger);
    SzxRoundTrip(smaller);
    var next := NextBlockIdx(from, larger, smaller);
    assert (from + 1) * SzxToBlockSize(larger) == from * SzxToBlockSize(larger) + SzxToBlockSize(larger);
    assert next * (SzxToBlockSize(smaller) - 16) >= 0;
  }

  /** What a read callback hands back through its status and its output pointers: `data` is the part of
      the buffer it says it has filled. */
  datatype Read = Read(status: Status, isLast: bool, data: seq<Byte>)

  /** A read callback: what its k-th call returns for a block index and a buffer size. */
  type Reader = (nat, nat, nat) -> Read

  /** A block that can be sent: not empty, and full unless it is the last. */
  predicate Acceptable(read: Read, blockSize: nat) {
    read.status.OK? && 0 < |read.data| <= blockSize && (read.isLast || |read.data| == blockSize)
  }

  /** What `call_read_block_callback` makes of it. */
  function ReadStatus(read: Read, blockSize: nat): Status {
    if !read.status.OK? || Acceptable(read, blockSize) then read.status else INVALID_BLOCK_SIZE
  }

  /** One block as handed to `golioth_coap_client_set_block`. */
  datatype Block = Block(num: nat, szx: Szx, isLast: bool, payload: seq<Byte>)

  /** What becomes of a block: the queue refuses it, or its request completes with a status and
      possibly a block size the server asks for in its answer. */
  datatype Delivery = Refused(error: Status) | Answered(status: Status, askedSzx: Option<nat>)

  function StatusOf(d: Delivery): Status {
    if d.Refused? then d.error else d.status
  }

  predicate Delivered(d: Delivery) {
    d.Answered? && d.status.OK?
  }

  /** The client only ever lowers the size it sent (src/zephyr_coap_req.c:271-280). */
  function Negotiate(sent: Szx, asked: Option<nat>): Szx {
    if asked.Some? && asked.value < sent then asked.value else sent
  }

  ghost function Payload(sent: seq<Block>): seq<Byte> {
    if sent == [] then []
    else Payload(sent[..|sent| - 1]) + sent[|sent| - 1].payload
  }

  lemma PayloadSnoc(sent: seq<Block>, b: Block)
    ensures Payload(sent + [b]) == Payload(sent) + b.payload
  {
    assert (sent + [b])[..|sent|] == sent;
  }

  /** Block i starts where the bytes before it end, counted in its own block size; it is full unless
      it is the last, and only the final block is marked last. */
  ghost predicate InPlace(sent: seq<Block>, i: nat)
    requires i < |sent|
  {
    && sent[i].num * SzxToBlockSize(sent[i].szx) == |Payload(sent[..i])|
    && 0 < |sent[i].payload| <= SzxToBlockSize(sent[i].szx)
    && (!sent[i].isLast ==> |sent[i].payload| == SzxToBlockSize(sent[i].szx))
    && (sent[i].isLast ==> i == |sent| - 1)
  }

  /** The block is what the reader returned when asked for it. */
  ghost predicate FromReader(sent: seq<Block>, reader: Reader, i: nat)
    requires i < |sent|
  {
    var size := SzxToBlockSize(sent[i].szx);
    var read := reader(i, sent[i].num, size);
    Acceptable(read, size) && sent[i].payload == read.data && sent[i].isLast == read.isLast
  }

  /** The first block has the configured size. Each later one follows a block that was delivered, and has
      the size the server asked for in its answer if that is smaller, or else the size used before. */
  ghost predicate FollowsServer(sent: seq<Block>, net: nat -> Delivery, maxSzx: Szx, i: nat)
    requires i < |sent|
  {
    if i == 0 then sent[0].szx == maxSzx
    else
      && Delivered(net(i - 1))
      && match net(i - 1).askedSzx
         case Some(asked) =>
           && (asked < sent[i - 1].szx ==> sent[i].szx == asked)
           && (asked >= sent[i - 1].szx ==> sent[i].szx == sent[i - 1].szx)
         case None => sent[i].szx == sent[i - 1].szx
  }

  /** A correct upload of what the reader returns, complete or cut short. */
  ghost predicate Upload(sent: seq<Block>, reader: Reader, net: nat -> Delivery, maxSzx: Szx) {
    && (forall i :: 0 <= i < |sent| ==> InPlace(sent, i))
    && (forall i :: 0 <= i < |sent| ==> FromReader(sent, reader, i))
    && (forall i :: 0 <= i < |sent| ==> FollowsServer(sent, net, maxSzx, i))
  }

  /** The size of the next block. */
  ghost function NextSzx(sent: seq<Block>, net: nat -> Delivery, maxSzx: Szx): Szx {
    if sent == [] then maxSzx
    else
      var d := net(|sent| - 1);
      if d.Answered? then Negotiate(sent[|sent| - 1].szx, d.askedSzx) else sent[|sent| - 1].szx
  }

  /** Adding the block that the reader returns next. */
  lemma UploadSnoc(sent: seq<Block>, b: Block, reader: Reader, net: nat -> Delivery, maxSzx: Szx)
    requires Upload(sent, reader, net, maxSzx)
    requires sent != [] ==> !sent[|sent| - 1].isLast && Delivered(net(|sent| - 1))
    requires b.szx == NextSzx(sent, net, maxSzx)
    requires b.num * SzxToBlockSize(b.szx) == |Payload(sent)|
    requires var read := reader(|sent|, b.num, SzxToBlockSize(b.szx));
             Acceptable(read, SzxToBlockSize(b.szx)) && b.payload == read.data && b.isLast == read.isLast
    ensures Upload(sent + [b], reader, net, maxSzx)
    ensures Payload(sent + [b]) == Payload(sent) + b.payload
  {
    var t := sent + [b];
    PayloadSnoc(sent, b);
    assert t[..|sent|] == sent;
    forall i | 0 <= i < |t|
      ensures InPlace(t, i) && FromReader(t, reader, i) && FollowsServer(t, net, maxSzx, i)
    {
      if i < |sent| {
        BlockStays(sent, b, reader, net, maxSzx, i);
      }
    }
  }

  lemma BlockStays(sent: seq<Block>, b: Block, reader: Reader, net: nat -> Delivery, maxSzx: Szx, i: nat)
    requires Upload(sent, reader, net, maxSzx) && i < |sent| && !sent[|sent| - 1].isLast
    ensures InPlace(sent + [b], i) && FromReader(sent + [b], reader, i)
    ensures FollowsServer(sent + [b], net, maxSzx, i)
  {
    var t := sent + [b];
    assert t[..i] == sent[..i];
    assert InPlace(sent, i) && FromReader(sent, reader, i) && FollowsServer(sent, net, maxSzx, i);
  }

  /** Everything handed over so far was delivered; `szx` and `isLast` are up to date. */
  ghost predicate UploadSoFar(sent: seq<Block>, reader: Reader, net: nat -> Delivery, maxSzx: Szx,
                              szx: Szx, isLast: bool)
  {
    && Upload(sent, reader, net, maxSzx)
    && szx == NextSzx(sent, net, maxSzx)
    && (if sent == [] then !isLast else Delivered(net(|sent| - 1)) && isLast == sent[|sent| - 1].isLast)
  }

  /** Handing over the block read next, and hearing what became of it. */
  lemma UploadStep(sent: seq<Block>, b: Block, reader: Reader, net: nat -> Delivery, maxSzx: Szx)
    requires UploadSoFar(sent, reader, net, maxSzx, b.szx, false)
    requires b.num * SzxToBlockSize(b.szx) == |Payload(sent)|
    requires var read := reader(|sent|, b.num, SzxToBlockSize(b.szx));
             Acceptable(read, SzxToBlockSize(b.szx)) && b.payload == read.data && b.isLast == read.isLast
    ensures Upload(sent + [b], reader, net, maxSzx)
    ensures Payload(sent + [b]) == Payload(sent) + b.payload
    ensures Delivered(net(|sent|)) ==>
              UploadSoFar(sent + [b], reader, net, maxSzx, Negotiate(b.szx, net(|sent|).askedSzx), b.isLast)
  {
    UploadSnoc(sent, b, reader, net, maxSzx);
  }

  /** The reader, asked for the block that follows all those delivered, returns none that can be sent;
      `status` is what the upload then ends with. */
  ghost predicate ReaderStops(sent: seq<Block>, reader: Reader, net: nat -> Delivery, maxSzx: Szx, num: nat,
                              status: Status)
  {
    var size := SzxToBlockSize(NextSzx(sent, net, maxSzx));
    var read := reader(|sent|, num, size);
    && (sent != [] ==> Delivered(net(|sent| - 1)) && !sent[|sent| - 1].isLast)
    && num * size == |Payload(sent)|
    && if !read.status.OK? then status == read.status
       else
         && (|read.data| == 0 || |read.data| > size || (!read.isLast && |read.data| != size))
         && status == INVALID_BLOCK_SIZE
  }

  /** The last block handed over was not delivered; `status` is what became of it. */
  ghost predicate NetworkStops(sent: seq<Block>, net: nat -> Delivery, status: Status) {
    sent != [] &&
    match net(|sent| - 1)
    case Refused(error) => status == error
    case Answered(answer, _) => !answer.OK? && status == answer
  }

  /** A reader that returns a last block, or an error, in its call number `calls`. */
  ghost predicate EndsAfter(reader: Reader, calls: nat) {
    forall idx: nat, szx: Szx ::
      reader(calls, idx, SzxToBlockSize(szx)).isLast || !reader(calls, idx, SzxToBlockSize(szx)).status.OK?
  }

  /** A reader that does so for every block that reaches byte `limit`. */
  ghost predicate EndsAt(reader: Reader, limit: nat) {
    forall k: nat, idx: nat, szx: Szx ::
      var size := SzxToBlockSize(szx);
      idx * size <= limit <= idx * size + size ==>
        reader(k, idx, size).isLast || !reader(k, idx, size).status.OK?
  }

  /** `struct post_block_ctx`, the fields that change during a transfer. */
  class PostBlockCtx {
    var status: Status
    var negotiatedSzx: Szx
    var isLast: bool
    var blockSize: nat
    var blockIdx: nat

    /** Block numbers count the bytes sent so far in units of the current block size. */
    ghost predicate Valid(bytesSent: nat)
      reads this
    {
      && blockSize == SzxToBlockSize(negotiatedSzx)
      && blockIdx * blockSize == bytesSent
    }

    constructor (maxSzx: Szx)
      ensures Valid(0) && status == FAIL && !isLast && negotiatedSzx == maxSzx
    {
      status, isLast := FAIL, false;
      blockSize, blockIdx, negotiatedSzx := SzxToBlockSize(maxSzx), 0, maxSzx;
    }

    /** `call_read_block_callback`, applied to what the callback returned. */
    method CallReadBlockCallback(read: Read) returns (r: Status)
      modifies this`isLast
      ensures r == ReadStatus(read, blockSize) && isLast == read.isLast
      ensures r.OK? <==> Acceptable(read, blockSize)
    {
      isLast := read.isLast;
      if !read.status.OK? {
        return read.status;
      }
      if (!isLast && |read.data| != blockSize) || |read.data| > blockSize || |read.data| == 0 {
        return INVALID_BLOCK_SIZE;
      }
      return read.status;
    }

    /** `on_block_sent`: the block size reported back becomes the negotiated one. */
    method OnBlockSent(answer: Status, reportedSize: nat)
      requires 0 <= BlockSizeToSzx(reportedSize)
      modifies this`status, this`negotiatedSzx
      ensures status == answer && negotiatedSzx == BlockSizeToSzx(reportedSize)
    {
      status := answer;
      negotiatedSzx := BlockSizeToSzx(reportedSize);
    }

    /** `upload_single_block` and the increment in `process_blockwise_uploads`. */
    method UploadSingleBlock(payload: seq<Byte>, d: Delivery, ghost bytesSent: nat)
        returns (r: Status, b: Block)
      requires Valid(bytesSent)
      modifies this`status, this`negotiatedSzx, this`blockIdx, this`blockSize
      ensures r == StatusOf(d)
      ensures b == Block(old(blockIdx), old(negotiatedSzx), isLast, payload)
      ensures d.Answered? ==> status == d.status && negotiatedSzx == Negotiate(b.szx, d.askedSzx)
      ensures r.OK? && d.Answered? ==> Valid(bytesSent + old(blockSize))
    {
      b := Block(blockIdx, negotiatedSzx, isLast, payload);
      assert BlockSizeToSzx(blockSize) == negotiatedSzx by { SzxRoundTrip(negotiatedSzx); }
      match d
      case Refused(error) =>
        r := error;
      case Answered(answer, asked) =>
        var newSzx := Negotiate(negotiatedSzx, asked);
        assert BlockSizeToSzx(SzxToBlockSize(newSzx)) == newSzx by { SzxRoundTrip(newSzx); }
        OnBlockSent(answer, SzxToBlockSize(newSzx));
        r := status;
        if negotiatedSzx < BlockSizeToSzx(blockSize) {
          var next := NextBlockIdx(blockIdx, BlockSizeToSzx(blockSize), negotiatedSzx);
          blockIdx := next - 1;
          blockSize := SzxToBlockSize(negotiatedSzx);
        }
        if r.OK? {
          blockIdx := blockIdx + 1;
        }
    }

    /** The fields agree with the blocks delivered so far. */
    ghost predicate Tracks(sent: seq<Block>, reader: Reader, net: nat -> Delivery, maxSzx: Szx)
      reads this
    {
      && UploadSoFar(sent, reader, net, maxSzx, negotiatedSzx, isLast)
      && (!isLast ==> Valid(|Payload(sent)|))
    }

    /** `process_blockwise_uploads`: read the next block and send it. */
    method ProcessBlockwiseUploads(reader: Reader, net: nat -> Delivery, sent: seq<Block>, ghost maxSzx: Szx)
        returns (r: Status, sent': seq<Block>)
      requires Tracks(sent, reader, net, maxSzx) && !isLast
      requires net(|sent|).Refused? ==> !net(|sent|).error.OK?
      modifies this
      ensures Turn(sent, sent', reader, net, old(blockIdx), old(negotiatedSzx), r)
      ensures Upload(sent', reader, net, maxSzx) && (r.OK? ==> Tracks(sent', reader, net, maxSzx))
    {
      var read := reader(|sent|, blockIdx, blockSize);
      r := CallReadBlockCallback(read);
      sent' := sent;
      if r.OK? {
        var b;
        r, b := UploadSingleBlock(read.data, net(|sent|), |Payload(sent)|);
        UploadStep(sent, b, reader, net, maxSzx);
        sent' := sent + [b];
      }
    }
  }

  /** How `golioth_blockwise_post` starts out. */
  datatype Setup = NullArgument | PathTooLong | NoMemory | Ready

  /** What `golioth_blockwise_post` has come to after handing over `sent`. */
  ghost predicate Outcome(sent: seq<Block>, reader: Reader, net: nat -> Delivery, maxSzx: Szx, status: Status) {
    && Upload(sent, reader, net, maxSzx)
    && (status.OK? ==> sent != [] && sent[|sent| - 1].isLast && Delivered(net(|sent| - 1)))
    && (!status.OK? ==>
          NetworkStops(sent, net, status) || exists num :: ReaderStops(sent, reader, net, maxSzx, num, status))
  }

  /** What one turn of the loop does with the next block. */
  ghost predicate Turn(before: seq<Block>, sent: seq<Block>, reader: Reader, net: nat -> Delivery, num: nat, szx: Szx,
                       status: Status)
  {
    var size := SzxToBlockSize(szx);
    var read := reader(|before|, num, size);
    if Acceptable(read, size)
    then sent == before + [Block(num, szx, read.isLast, read.data)] && status == StatusOf(net(|before|))
    else sent == before && !status.OK? && status == ReadStatus(read, size)
  }

  lemma FailedTurn(before: seq<Block>, sent: seq<Block>, reader: Reader, net: nat -> Delivery, maxSzx: Szx,
                   num: nat, szx: Szx, status: Status)
    requires UploadSoFar(before, reader, net, maxSzx, szx, false)
    requires num * SzxToBlockSize(szx) == |Payload(before)|
    requires Turn(before, sent, reader, net, num, szx, status) && !status.OK? && Upload(sent, reader, net, maxSzx)
    ensures Outcome(sent, reader, net, maxSzx, status)
  {
    if sent == before {
      assert ReaderStops(sent, reader, net, maxSzx, num, status);
    } else {
      assert NetworkStops(sent, net, status);
    }
  }

  /** `golioth_blockwise_post`. `net(i)` is what becomes of the i-th block: it is refused by the queue, or
      its callback comes with any status and any block size. (A block that is queued and then dropped
      without a callback leaves the source waiting for ever.) `sent` lists the blocks handed to the client
      and `reports` the statuses passed to the caller's set callback, if there is one. The upload ends
      because the reader does, by position or by count. */
  method BlockwisePost(setup: Setup, reader: Reader, maxSzx: Szx, net: nat -> Delivery, hasSetCb: bool,
                       ghost limit: nat, ghost calls: nat)
      returns (status: Status, sent: seq<Block>, reports: seq<Status>)
    requires EndsAt(reader, limit) || EndsAfter(reader, calls)
    requires forall i :: net(i).Refused? ==> !net(i).error.OK?
    ensures !setup.Ready? ==> sent == [] && reports == [] && (status == if setup.NoMemory? then MEM_ALLOC else FAIL)
    ensures setup.Ready? ==> reports == if hasSetCb then [status] else []
    // whatever server and reader do, every block sent is in its place; the transfer is complete, or
    // stops at the first block that is not delivered or cannot be sent
    ensures setup.Ready? ==> Outcome(sent, reader, net, maxSzx, status)
  {
    sent, reports := [], [];
    if setup.NullArgument? || setup.PathTooLong? {
      return FAIL, sent, reports;
    }
    if setup.NoMemory? {
      return MEM_ALLOC, sent, reports;
    }
    var ctx := new PostBlockCtx(maxSzx);
    status := OK;
    ghost var byPosition := EndsAt(reader, limit);
    while !ctx.isLast
      invariant fresh(ctx)
      invariant status.OK? && ctx.Tracks(sent, reader, net, maxSzx)
      invariant !ctx.isLast ==> if byPosition then |Payload(sent)| <= limit else |sent| <= calls
      decreases if byPosition then limit - |Payload(sent)| else calls - |sent|, !ctx.isLast
    {
      ghost var before, num, szx := sent, ctx.blockIdx, ctx.negotiatedSzx;
      status, sent := ctx.ProcessBlockwiseUploads(reader, net, sent, maxSzx);
      if byPosition {
        ReadAdvances(before, reader, limit, num, szx);
      }
      if !status.OK? {
        FailedTurn(before, sent, reader, net, maxSzx, num, szx, status);
        break;
      }
    }
    if hasSetCb {
      reports := [status];
    }
  }

  /** A block that is sent and is not the last ends before `limit`. */
  lemma ReadAdvances(sent: seq<Block>, reader: Reader, limit: nat, num: nat, szx: Szx)
    requires EndsAt(reader, limit) && |Payload(sent)| <= limit
    requires num * SzxToBlockSize(szx) == |Payload(sent)|
    ensures var size := SzxToBlockSize(szx);
            var read := reader(|sent|, num, size);
            var b := Block(num, szx, read.isLast, read.data);
            && Payload(sent + [b]) == Payload(sent) + read.data
            && (Acceptable(read, size) && !read.isLast ==> |Payload(sent)| < |Payload(sent + [b])| < limit)
  {
    var size := SzxToBlockSize(szx);
    var read := reader(|sent|, num, size);
    PayloadSnoc(sent, Block(num, szx, read.isLast, read.data));
  }

  // ---------------------------------------------------------------- the location example's reader

  /** `block_upload_read_chunk`, with `size_t` arithmetic on a 32-bit machine. Before every call
      `*is_last` is false. */
  function ReadChunk(source: seq<Byte>, blockIdx: nat, maxSize: nat): Read
    requires |source| < TWO32
  {
    var offset := U32(blockIdx * maxSize);
    var remaining := U32(|source| - offset);
    if offset >= |source| then Read(NO_MORE_DATA, true, [])
    else if remaining <= maxSize then Read(OK, true, source[offset..])
    else Read(OK, false, source[offset..][..maxSize])
  }

  function SourceReader(source: seq<Byte>): Reader
    requires |source| < TWO32
  {
    (_: nat, blockIdx: nat, maxSize: nat) => ReadChunk(source, blockIdx, maxSize)
  }

  /** The stretch of the source from `offset` on, at most `maxSize` bytes long. */
  function NextRead(source: seq<Byte>, offset: nat, maxSize: nat): Read
    requires offset <= |source|
  {
    if offset == |source| then Read(NO_MORE_DATA, true, [])
    else if |source| - offset <= maxSize then Read(OK, true, source[offset..])
    else Read(OK, false, source[offset..offset + maxSize])
  }

  /** Asked for the block that follows the bytes already sent, the reader delivers exactly those
      that come next; none of its word-sized computations wraps. */
  lemma ReadChunkInOrder(source: seq<Byte>, blockIdx: nat, maxSize: nat, offset: nat)
    requires |source| < TWO32 && blockIdx * maxSize == offset <= |source|
    ensures ReadChunk(source, blockIdx, maxSize) == NextRead(source, offset, maxSize)
  {
    assert U32(offset) == offset && U32(|source| - offset) == |source| - offset;
    if offset + maxSize < |source| {
      assert source[offset..][..maxSize] == source[offset..offset + maxSize];
    }
  }

  lemma SourceReaderEnds(source: seq<Byte>)
    requires |source| < TWO32
    ensures EndsAt(SourceReader(source), |source|)
  {
    forall k: nat, idx: nat, szx: Szx | idx * SzxToBlockSize(szx) <= |source| <= idx * SzxToBlockSize(szx) + SzxToBlockSize(szx)
      ensures var read := SourceReader(source)(k, idx, SzxToBlockSize(szx)); read.isLast || !read.status.OK?
    {
      ReadChunkInOrder(source, idx, SzxToBlockSize(szx), idx * SzxToBlockSize(szx));
    }
  }

  /** The block is marked last exactly when it completes the source. */
  ghost predicate LastCompletes(sent: seq<Block>, source: seq<Byte>, i: nat)
    requires i < |sent|
  {
    sent[i].isLast <==> Payload(sent[..i + 1]) == source
  }

  lemma NextStretch(before: seq<Byte>, source: seq<Byte>, maxSize: nat)
    requires before <= source && before != source && maxSize > 0
    ensures var read := NextRead(source, |before|, maxSize);
            && Acceptable(read, maxSize) && before + read.data <= source
            && (read.isLast <==> before + read.data == source)
  {
    var read := NextRead(source, |before|, maxSize);
    assert before + read.data == source[..|before| + |read.data|];
  }

  lemma UploadPrefix(sent: seq<Block>, reader: Reader, net: nat -> Delivery, maxSzx: Szx, k: nat)
    requires Upload(sent, reader, net, maxSzx) && k <= |sent|
    ensures Upload(sent[..k], reader, net, maxSzx)
    ensures k < |sent| ==> forall i :: 0 <= i < k ==> !sent[i].isLast
  {
    forall i | 0 <= i < k
      ensures InPlace(sent[..k], i) && FromReader(sent[..k], reader, i) && FollowsServer(sent[..k], net, maxSzx, i)
      ensures k < |sent| ==> !sent[i].isLast
    {
      assert InPlace(sent, i) && FromReader(sent, reader, i) && FollowsServer(sent, net, maxSzx, i);
      assert sent[..k][..i] == sent[..i];
    }
  }

  /** Reading from a source: whatever sizes are negotiated, the payloads are a prefix of it, in order,
      and a block is marked last exactly when it completes it. */
  lemma {:induction false} UploadOfSource(sent: seq<Block>, source: seq<Byte>, net: nat -> Delivery, maxSzx: Szx)
    requires |source| < TWO32 && Upload(sent, SourceReader(source), net, maxSzx)
    ensures Payload(sent) <= source
    ensures forall i :: 0 <= i < |sent| ==> LastCompletes(sent, source, i)
    decreases |sent|
  {
    if sent != [] {
      var k := |sent| - 1;
      var front, b := sent[..k], sent[k];
      UploadPrefix(sent, SourceReader(source), net, maxSzx, k);
      UploadOfSource(front, source, net, maxSzx);
      SourceBlock(sent, source, net, maxSzx);
      assert front + [b] == sent;
      PayloadSnoc(front, b);
      forall i | 0 <= i < |sent| ensures LastCompletes(sent, source, i) {
        assert sent[..|sent|] == sent;
        if i < k {
          assert LastCompletes(front, source, i);
          assert front[..i + 1] == sent[..i + 1];
        }
      }
    }
  }

  /** The final block of an upload from a source. */
  lemma SourceBlock(sent: seq<Block>, source: seq<Byte>, net: nat -> Delivery, maxSzx: Szx)
    requires |source| < TWO32 && Upload(sent, SourceReader(source), net, maxSzx) && sent != []
    requires Payload(sent[..|sent| - 1]) <= source
    ensures var before, b := Payload(sent[..|sent| - 1]), sent[|sent| - 1];
            before + b.payload <= source && (b.isLast <==> before + b.payload == source)
  {
    var k := |sent| - 1;
    var before, size := Payload(sent[..k]), SzxToBlockSize(sent[k].szx);
    assert InPlace(sent, k) && FromReader(sent, SourceReader(source), k);
    ReadChunkInOrder(source, sent[k].num, size, |before|);
    if before != source {
      NextStretch(before, source, size);
    }
  }

  /** The reader never stops an upload of a source that is not empty. */
  lemma SourceNeverStops(sent: seq<Block>, source: seq<Byte>, net: nat -> Delivery, maxSzx: Szx, num: nat,
                         status: Status)
    requires |source| < TWO32 && Upload(sent, SourceReader(source), net, maxSzx)
    requires ReaderStops(sent, SourceReader(source), net, maxSzx, num, status)
    ensures source == [] && sent == [] && status == NO_MORE_DATA
  {
    var size := SzxToBlockSize(NextSzx(sent, net, maxSzx));
    UploadOfSource(sent, source, net, maxSzx);
    ReadChunkInOrder(source, num, size, |Payload(sent)|);
    if sent != [] {
      assert LastCompletes(sent, source, |sent| - 1);
      assert sent[..|sent|] == sent;
    }
    if Payload(sent) != source {
      NextStretch(Payload(sent), source, size);
    }
  }

  /** Uploading a buffer: the payloads of the blocks sent are the buffer, up to the first block that is
      not delivered; an empty buffer is refused by the reader. */
  method UploadBuffer(setup: Setup, source: seq<Byte>, maxSzx: Szx, net: nat -> Delivery, hasSetCb: bool)
      returns (status: Status, sent: seq<Block>, reports: seq<Status>)
    requires |source| < TWO32
    requires forall i :: net(i).Refused? ==> !net(i).error.OK?
    ensures setup.Ready? ==> Upload(sent, SourceReader(source), net, maxSzx)
    ensures setup.Ready? ==> Payload(sent) <= source && forall i :: 0 <= i < |sent| ==> LastCompletes(sent, source, i)
    ensures setup.Ready? && source == [] ==> status == NO_MORE_DATA && sent == []
    ensures setup.Ready? && source != [] ==>
              && sent != [] && status == StatusOf(net(|sent| - 1))
              && (status.OK? ==> Payload(sent) == source && sent[|sent| - 1].isLast)
              && (!status.OK? ==> !Delivered(net(|sent| - 1)))
  {
    SourceReaderEnds(source);
    status, sent, reports := BlockwisePost(setup, SourceReader(source), maxSzx, net, hasSetCb, |source|, 0);
    if setup.Ready? {
      SourceOutcome(sent, source, net, maxSzx, status);
    }
  }

  lemma SourceOutcome(sent: seq<Block>, source: seq<Byte>, net: nat -> Delivery, maxSzx: Szx, status: Status)
    requires |source| < TWO32 && Outcome(sent, SourceReader(source), net, maxSzx, status)
    ensures Payload(sent) <= source && forall i :: 0 <= i < |sent| ==> LastCompletes(sent, source, i)
    ensures if source == [] then status == NO_MORE_DATA && sent == []
            else
              && sent != [] && status == StatusOf(net(|sent| - 1))
              && (status.OK? ==> Payload(sent) == source && sent[|sent| - 1].isLast)
              && (!status.OK? ==> !Delivered(net(|sent| - 1)))
  {
    UploadOfSource(sent, source, net, maxSzx);
    if sent != [] {
      assert LastCompletes(sent, source, |sent| - 1) && InPlace(sent, |sent| - 1);
      assert sent[..|sent|] == sent;
      assert |Payload(sent)| > 0 by { PayloadSnoc(sent[..|sent| - 1], sent[|sent| - 1]); }
    }
    if !status.OK? && !NetworkStops(sent, net, status) {
      var num :| ReaderStops(sent, SourceReader(source), net, maxSzx, num, status);
      SourceNeverStops(sent, source, net, maxSzx, num, status);
    }
  }

  /** Block numbers of an upload of up to 16 MiB fit the 20 bits RFC 7959 section 2.2 gives them. */
  lemma BlockNumberFits(sent: seq<Block>, reader: Reader, net: nat -> Delivery, maxSzx: Szx, i: nat)
    requires Upload(sent, reader, net, maxSzx) && |Payload(sent)| <= 0x100_0000
    requires i < |sent|
    ensures sent[i].num < 0x10_0000
  {
    SzxRoundTrip(sent[i].szx);
    assert InPlace(sent, i);
    BlockInside(sent, i);
    MulLowerBound(sent[i].num, SzxToBlockSize(sent[i].szx));
  }

  lemma BlockInside(sent: seq<Block>, i: nat)
    requires i < |sent| && |sent[i].payload| > 0
    ensures |Payload(sent[..i])| < |Payload(sent)|
  {
    PayloadPrefix(sent, i + 1);
    PayloadSnoc(sent[..i], sent[i]);
    assert sent[..i] + [sent[i]] == sent[..i + 1];
  }

  lemma MulLowerBound(num: nat, size: nat)
    requires size >= 16 && num * size < 0x100_0000
    ensures num < 0x10_0000
  {
    assert num * size >= num * 16 by {
      assert num * (size - 16) >= 0;
    }
  }

  lemma {:induction false} PayloadPrefix(sent: seq<Block>, k: nat)
    requires k <= |sent|
    ensures Payload(sent[..k]) <= Payload(sent)
    decreases |sent| - k
  {
    if k < |sent| {
      PayloadPrefix(sent, k + 1);
      PayloadSnoc(sent[..k], sent[k]);
      assert sent[..k] + [sent[k]] == sent[..k + 1];
    } else {
      assert sent[..k] == sent;
    }
  }

  /** `golioth_coap_req_append_block1_option`: the three fields or-ed into one option value. */
  function EncodeBlock1(num: bv32, isLast: bool, szx: bv32): bv32 {
    szx | (if isLast then 0 else 0x08) | (num << 4)
  }

  /** RFC 7959 section 2.2: number, more flag and size exponent. */
  function DecodeBlock1(v: bv32): (bv32, bool, bv32) {
    (v >> 4, v & 0x08 != 0, v & 0x07)
  }

  /** The option value is at most three bytes long and gives back what was put in. */
  lemma Block1RoundTrip(num: bv32, isLast: bool, szx: bv32)
    requires num < 0x10_0000 && szx < 7
    ensures DecodeBlock1(EncodeBlock1(num, isLast, szx)) == (num, !isLast, szx)
    ensures EncodeBlock1(num, isLast, szx) < 0x100_0000
  {
  }
}
