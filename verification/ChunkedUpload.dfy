/** The resumable upload driver: the chunk layout, and the retry and resync loop against a board that
    may answer anything. */
module ChunkedUpload {
  import opened Options
  import opened Crc32
  import Sha256Spec

  // ---------------------------------------------------------------- the layout

  datatype Layout = Layout(chunkSize: int, lastChunkLen: int)

  /** Python's `//`: rounds towards minus infinity. */
  function FloorDiv(a: int, b: int): (q: int)
    requires b != 0
    ensures b > 0 ==> b * q <= a < b * q + b
    ensures b < 0 ==> b * q + b < a <= b * q
  {
    if b > 0 then a / b else (-a) / (-b)
  }

  /** `compute_chunk_layout`. */
  function ComputeChunkLayout(totalLen: nat, chunkCount: int): Result<Layout> {
    if chunkCount == 0 then Err("ZeroDivisionError")
    else
      var rawChunkSize := FloorDiv(totalLen + chunkCount - 1, chunkCount);
      var chunkSize := FloorDiv(rawChunkSize + 511, 512) * 512;
      var lastChunkLen := totalLen - chunkSize * (chunkCount - 1);
      if lastChunkLen <= 0 then Err("ValueError") else Ok(Layout(chunkSize, lastChunkLen))
  }

  /** Where chunk `i` begins, and how long it is. */
  function Offset(l: Layout, i: int): int {
    i * l.chunkSize
  }

  function Length(l: Layout, chunkCount: int, i: int): int {
    if i == chunkCount - 1 then l.lastChunkLen else l.chunkSize
  }

  predicate InChunk(l: Layout, chunkCount: int, i: int, x: int) {
    0 <= i < chunkCount && Offset(l, i) <= x < Offset(l, i) + Length(l, chunkCount, i)
  }

  lemma ProductAtLeast(a: int, b: int, c: int)
    requires a >= 0 && b <= c
    ensures a * b <= a * c
  {
  }

  lemma Distribute(a: int, b: int)
    ensures a * (b - 1) == a * b - a && (b + 1) * a == b * a + a
  {
  }

  /** The shape of a layout that was not refused. */
  lemma LayoutShape(totalLen: nat, chunkCount: int)
    requires chunkCount >= 1 && ComputeChunkLayout(totalLen, chunkCount).Ok?
    ensures var l := ComputeChunkLayout(totalLen, chunkCount).value;
            && l.chunkSize > 0 && l.chunkSize % 512 == 0 && 0 < l.lastChunkLen <= l.chunkSize
            && Offset(l, chunkCount - 1) + l.lastChunkLen == totalLen
  {
    var raw := FloorDiv(totalLen + chunkCount - 1, chunkCount);
    var l := ComputeChunkLayout(totalLen, chunkCount).value;
    NotEmpty(totalLen, chunkCount);
    PositiveFactor(chunkCount, raw);
    assert raw <= l.chunkSize < raw + 512;
    ProductAtLeast(chunkCount, raw, l.chunkSize);
    Distribute(l.chunkSize, chunkCount);
  }

  lemma NotEmpty(totalLen: nat, chunkCount: int)
    requires chunkCount >= 1 && ComputeChunkLayout(totalLen, chunkCount).Ok?
    ensures totalLen > 0
  {
    if totalLen == 0 {
      ZeroQuotient(chunkCount - 1, chunkCount);
    }
  }

  lemma ZeroQuotient(a: int, b: int)
    requires 0 <= a < b
    ensures FloorDiv(a, b) == 0
  {
  }

  lemma PositiveFactor(a: int, b: int)
    requires a >= 1 && a * b >= 1
    ensures b >= 1
  {
  }

/** The chunk size the board computes: the least positive multiple of 512 with which `chunkCount`
      chunks cover the image. */
  ghost predicate LeastChunk(totalLen: nat, chunkCount: int, m: int) {
    && m > 0 && m % 512 == 0 && totalLen <= chunkCount * m
    && forall w :: 0 < w < m && w % 512 == 0 ==> chunkCount * w < totalLen
  }

  /** A layout has that chunk size, and the last chunk is what is left of the image; it is refused exactly
      if nothing is left. */
  lemma LayoutExactly(totalLen: nat, chunkCount: int, m: int)
    requires chunkCount >= 1 && LeastChunk(totalLen, chunkCount, m)
    ensures var left := totalLen - (chunkCount - 1) * m;
            ComputeChunkLayout(totalLen, chunkCount) == if left > 0 then Ok(Layout(m, left)) else Err("ValueError")
  {
    if totalLen == 0 {
      ZeroQuotient(chunkCount - 1, chunkCount);
      ProductAtLeast(chunkCount - 1, 0, m);
    } else {
      hide FloorDiv;
      var size := SizeIsLeast(totalLen, chunkCount);
      LeastIsUnique(totalLen, chunkCount, m, size);
    }
  }

  /** The size the driver computes is the least one. */
  lemma SizeIsLeast(totalLen: nat, chunkCount: int) returns (size: int)
    requires chunkCount >= 1 && totalLen > 0
    ensures size == FloorDiv(FloorDiv(totalLen + chunkCount - 1, chunkCount) + 511, 512) * 512
    ensures LeastChunk(totalLen, chunkCount, size)
  {
    hide FloorDiv;
    var raw := FloorDiv(totalLen + chunkCount - 1, chunkCount);
    var blocks := FloorDiv(raw + 511, 512);
    size := blocks * 512;
    PositiveFactor(chunkCount, raw);
    ProductAtLeast(chunkCount, raw, size);
    forall w | 0 < w < size && w % 512 == 0 ensures chunkCount * w < totalLen {
      WholeBlocks(w, blocks, raw);
      ProductAtLeast(chunkCount, w, raw - 1);
      Distribute(chunkCount, raw);
    }
  }

  lemma WholeBlocks(w: int, blocks: int, raw: int)
    requires w < blocks * 512 && w % 512 == 0 && 512 * blocks <= raw + 511
    ensures w <= raw - 1
  {
  }

  lemma LeastIsUnique(totalLen: nat, chunkCount: int, m: int, n: int)
    requires LeastChunk(totalLen, chunkCount, m) && LeastChunk(totalLen, chunkCount, n)
    ensures m == n
  {
  }

  /** There is such a chunk size for every image. */
  lemma LeastChunkExists(totalLen: nat, chunkCount: int) returns (m: int)
    requires chunkCount >= 1
    ensures LeastChunk(totalLen, chunkCount, m)
  {
    if totalLen == 0 {
      m := 512;
    } else {
      m := SizeIsLeast(totalLen, chunkCount);
    }
  }

    lemma OffsetsAligned(l: Layout, i: int)
    requires l.chunkSize % 512 == 0
    ensures Offset(l, i) % 512 == 0
  {
    var q := l.chunkSize / 512;
    assert i * (512 * q) == 512 * (i * q);
  }

  lemma OffsetsGrow(l: Layout, i: int, j: int)
    requires l.chunkSize > 0 && i < j
    ensures Offset(l, i) + l.chunkSize <= Offset(l, j)
  {
    ProductAtLeast(l.chunkSize, i + 1, j);
    Distribute(l.chunkSize, i);
  }

  /** The chunks of an accepted layout are not empty, begin on block boundaries, and every byte of the
      image is in exactly one of them, exactly when there is a chunk at all: a negative count passes
      the layout's test and covers nothing. */
  lemma ChunksPartition(totalLen: nat, chunkCount: int, x: nat)
    requires ComputeChunkLayout(totalLen, chunkCount).Ok? && x < totalLen
    ensures var l := ComputeChunkLayout(totalLen, chunkCount).value;
            && ((exists i :: InChunk(l, chunkCount, i, x)) <==> chunkCount >= 1)
            && (forall i, j :: InChunk(l, chunkCount, i, x) && InChunk(l, chunkCount, j, x) ==> i == j)
            && (forall i :: 0 <= i < chunkCount ==> Offset(l, i) % 512 == 0 && Length(l, chunkCount, i) > 0)
  {
    hide ComputeChunkLayout, Offset;
    var l := ComputeChunkLayout(totalLen, chunkCount).value;
    if chunkCount >= 1 {
      LayoutShape(totalLen, chunkCount);
      var i := ChunkOf(l, totalLen, chunkCount, x);
      assert InChunk(l, chunkCount, i, x);
      forall i, j | InChunk(l, chunkCount, i, x) && InChunk(l, chunkCount, j, x) ensures i == j {
        if i < j {
          OffsetsGrow(l, i, j);
        } else if j < i {
          OffsetsGrow(l, j, i);
        }
      }
      forall i | 0 <= i < chunkCount ensures Offset(l, i) % 512 == 0 {
        OffsetsAligned(l, i);
      }
    } else {
      assert chunkCount < 0 by {
        CountNotZero(totalLen, chunkCount);
      }
    }
  }

  /** A negative count that the layout's test lets through. */
  lemma NegativeCountAccepted()
    ensures ComputeChunkLayout(512, -1) == Ok(Layout(0, 512))
  {
    assert FloorDiv(510, -1) == -510 && FloorDiv(1, 512) == 0;
  }

  lemma CountNotZero(totalLen: nat, chunkCount: int)
    requires ComputeChunkLayout(totalLen, chunkCount).Ok?
    ensures chunkCount != 0
  {
  }

  lemma ChunkOf(l: Layout, totalLen: nat, chunkCount: int, x: nat) returns (i: int)
    requires chunkCount >= 1 && x < totalLen && 0 < l.lastChunkLen <= l.chunkSize
    requires Offset(l, chunkCount - 1) + l.lastChunkLen == totalLen
    ensures InChunk(l, chunkCount, i, x)
  {
    i := FloorDiv(x, l.chunkSize);
    assert i >= 0 && Offset(l, i) <= x < Offset(l, i) + l.chunkSize;
    if i >= chunkCount - 1 {
      if i > chunkCount - 1 {
        OffsetsGrow(l, chunkCount - 1, i);
      }
    }
  }

  /** `data[lo:hi]`, for any bounds. */
  function Slice(data: seq<Byte>, lo: int, hi: int): seq<Byte> {
    var a := Clamp(lo, |data|);
    var b := Clamp(hi, |data|);
    if a < b then data[a..b] else []
  }

  function Clamp(x: int, n: nat): (c: nat)
    ensures c <= n
  {
    var y := if x < 0 then x + n else x;
    if y < 0 then 0 else if y > n then n else y
  }

  function ChunkBytes(data: seq<Byte>, l: Layout, chunkCount: int, i: int): seq<Byte> {
    Slice(data, Offset(l, i), Offset(l, i) + Length(l, chunkCount, i))
  }

  /** The first `n` chunks, one after the other. */
  function Joined(data: seq<Byte>, l: Layout, chunkCount: int, n: nat): seq<Byte> {
    if n == 0 then [] else Joined(data, l, chunkCount, n - 1) + ChunkBytes(data, l, chunkCount, n - 1)
  }

  /** The chunks put together again are the image. */
  lemma {:induction false} ChunksJoin(data: seq<Byte>, chunkCount: nat, n: nat)
    requires ComputeChunkLayout(|data|, chunkCount).Ok? && 1 <= chunkCount && n <= chunkCount
    ensures var l := ComputeChunkLayout(|data|, chunkCount).value;
            var end := if n == chunkCount then |data| else Offset(l, n);
            0 <= end <= |data| && Joined(data, l, chunkCount, n) == data[..end]
  {
    hide ComputeChunkLayout, Offset, Slice;
    var l := ComputeChunkLayout(|data|, chunkCount).value;
    LayoutShape(|data|, chunkCount);
    OffsetZero(l);
    if n > 0 {
      ChunksJoin(data, chunkCount, n - 1);
      NextOffset(l, n - 1);
      if n < chunkCount - 1 {
        OffsetsGrow(l, n, chunkCount - 1);
      }
      SliceInside(data, Offset(l, n - 1), Offset(l, n - 1) + Length(l, chunkCount, n - 1));
    }
  }

  lemma SliceInside(data: seq<Byte>, lo: int, hi: int)
    requires 0 <= lo <= hi <= |data|
    ensures Slice(data, lo, hi) == data[lo..hi] && data[..lo] + data[lo..hi] == data[..hi]
  {
  }

  lemma OffsetZero(l: Layout)
    ensures Offset(l, 0) == 0
  {
  }

  lemma NextOffset(l: Layout, i: int)
    ensures Offset(l, i + 1) == Offset(l, i) + l.chunkSize
  {
    Distribute(l.chunkSize, i);
  }

  // ---------------------------------------------------------------- the board

  /** The replies, by the branch of the driver they lead to; a garbled one makes the driver raise. */
  datatype BeginReply = NoBegin | Fresh | Resume(k: int) | BeginAllDone | Busy | LimitExceeded | BeginOther | BeginGarbled
  datatype GoReply = NoGo | GoExpected(n: int) | Go | GoOther | GoGarbled
  datatype VerifyReply = NoVerify | VerifyExpected(n: int) | ChunkOk | AllDone | ChunkFail | VerifyOther | VerifyGarbled

  /** A board may answer anything. An honest one reports its own progress truthfully and never loses a
      confirmed chunk; a willing one is honest, always answers, and accepts what it is sent. */
  class Board {
    const count: int
    const honest: bool
    const willing: bool
    /** The number of chunks the board has confirmed, first to last. */
    var confirmed: int
    /** The reply to the last begin command. */
    var begun: BeginReply
    /** The chunk the last GO was for, and the chunk whose bytes have arrived since. */
    var granted: Option<int>
    var delivered: Option<(int, seq<Byte>)>
    /** What the driver has sent: chunk payloads, resumechunk commands, and the digests of its commits. */
    var streamed: seq<(int, seq<Byte>)>
    var resumeChunks: nat
    var commits: seq<seq<Byte>>

    predicate Valid()
      reads this
    {
      (willing ==> honest) && 0 <= confirmed
    }

    constructor (count: int, honest: bool, willing: bool, confirmed: nat)
      requires willing ==> honest
      ensures Valid() && this.count == count && this.honest == honest && this.willing == willing
      ensures this.confirmed == confirmed && streamed == [] && resumeChunks == 0 && commits == []
    {
      this.count, this.honest, this.willing, this.confirmed := count, honest, willing, confirmed;
      begun, granted, delivered, streamed, resumeChunks, commits := NoBegin, None, None, [], 0, [];
    }

    /** A new upload starts from nothing; a resumed one from what is confirmed. */
    predicate TruthfulBegin(r: BeginReply, c: int)
    {
      && (r.Resume? ==> r.k == c)
      && (r.BeginAllDone? ==> c >= count)
      && (willing ==> 0 <= c <= count && r == (if c == count then BeginAllDone else if c > 0 then Resume(c) else Fresh))
    }

    method ResumeBegin() returns (r: BeginReply)
      requires Valid() && (willing ==> confirmed <= count)
      modifies `confirmed, `begun
      ensures Valid() && (honest ==> TruthfulBegin(r, confirmed)) && (willing ==> confirmed == old(confirmed))
      ensures begun == r
    {
      if willing {
        r := if confirmed == count then BeginAllDone else if confirmed > 0 then Resume(confirmed) else Fresh;
      } else {
        var c :| 0 <= c;
        confirmed := c;
        assert TruthfulBegin(NoBegin, c);
        r :| honest ==> TruthfulBegin(r, c);
      }
      begun := r;
    }

    predicate TruthfulGo(r: GoReply, i: int)
      reads `confirmed
    {
      && (r.GoExpected? ==> r.n == confirmed)
      && (willing && i == confirmed ==> r == Go)
    }

    method ResumeChunk(i: int, len: int) returns (r: GoReply)
      requires Valid()
      modifies `resumeChunks, `granted, `delivered
      ensures Valid() && resumeChunks == old(resumeChunks) + 1 && (honest ==> TruthfulGo(r, i))
      ensures granted == (if r.Go? then Some(i) else None) && delivered == None
    {
      resumeChunks := resumeChunks + 1;
      assert TruthfulGo(Go, i);
      r :| honest ==> TruthfulGo(r, i);
      granted, delivered := if r.Go? then Some(i) else None, None;
    }

    /** The paced send and the wait for DONE: true if both succeed. The driver may stream a chunk only
        once, and only after GO for that chunk. */
    method Stream(i: int, bytes: seq<Byte>) returns (ok: bool)
      requires Valid() && granted == Some(i)
      modifies `streamed, `granted, `delivered
      ensures Valid() && streamed == old(streamed) + [(i, bytes)] && (willing ==> ok)
      ensures granted == None && delivered == (if ok then Some((i, bytes)) else None)
    {
      streamed := streamed + [(i, bytes)];
      ok := *;
      ok := ok || willing;
      granted, delivered := None, if ok then Some((i, bytes)) else None;
    }

    predicate TruthfulVerify(r: VerifyReply, i: int, before: int, c: int) {
      && c >= before
      && (r.VerifyExpected? ==> r.n == c)
      && (r.ChunkOk? ==> c == i + 1)
      && (r.AllDone? ==> c >= count)
      && (willing && i == before < count ==> c == i + 1 && r == (if c == count then AllDone else ChunkOk))
    }

    /** The driver may ask only about the chunk that has just arrived, with the digest of its bytes. */
    method ResumeVerify(i: int, sha: seq<Byte>) returns (r: VerifyReply)
      requires Valid() && delivered.Some? && delivered.value.0 == i && sha == Sha256Spec.Sha256(delivered.value.1)
      modifies `confirmed
      ensures Valid() && (honest ==> TruthfulVerify(r, i, old(confirmed), confirmed))
    {
      if willing && i == confirmed < count {
        confirmed := i + 1;
        return if confirmed == count then AllDone else ChunkOk;
      }
      var before := confirmed;
      var c :| 0 <= c;
      confirmed := if honest && c < before then before else c;
      assert TruthfulVerify(NoVerify, i, before, confirmed) || !honest;
      r :| honest ==> TruthfulVerify(r, i, before, confirmed);
    }

    method Commit(sha: seq<Byte>) returns (ok: bool)
      requires Valid()
      modifies `commits
      ensures Valid() && commits == old(commits) + [sha]
    {
      commits := commits + [sha];
      ok := *;
    }
  }

  // ---------------------------------------------------------------- the driver

  /** How the attempts at one chunk end. */
  datatype Attempt = ChunkDone | AllChunksDone | Resync(n: int) | GaveUp | AttemptRaised

  datatype Outcome = Passed | Failed | Raised

  /** Every payload that was sent is that chunk of the image. */
  ghost predicate TruePayloads(streamed: seq<(int, seq<Byte>)>, from: nat, data: seq<Byte>, l: Layout, chunkCount: int) {
    forall k :: from <= k < |streamed| ==> streamed[k].1 == ChunkBytes(data, l, chunkCount, streamed[k].0)
  }

  /** The attempts at one chunk: at most `retryLimit` of them. */
  method TryChunk(board: Board, data: seq<Byte>, l: Layout, chunks: int, chunkIndex: int, retryLimit: int)
    returns (result: Attempt)
    requires board.Valid() && board.count == chunks
    modifies board
    ensures board.Valid() && board.commits == old(board.commits)
    ensures board.resumeChunks <= old(board.resumeChunks) + (if retryLimit > 0 then retryLimit else 0)
    ensures !result.GaveUp? ==> board.resumeChunks > old(board.resumeChunks)
    ensures board.begun == old(board.begun)
    ensures result.GaveUp? ==> board.resumeChunks == old(board.resumeChunks) + (if retryLimit > 0 then retryLimit else 0)
    ensures old(board.streamed) <= board.streamed && TruePayloads(board.streamed, |old(board.streamed)|, data, l, chunks)
    ensures board.honest ==>
              && board.confirmed >= old(board.confirmed)
              && (result.ChunkDone? ==> board.confirmed >= chunkIndex + 1)
              && (result.AllChunksDone? ==> board.confirmed >= chunks)
              && (result.Resync? ==> board.confirmed >= result.n)
    ensures board.willing && chunkIndex == old(board.confirmed) < chunks && retryLimit >= 1 ==>
              && board.confirmed == chunkIndex + 1
              && result == (if chunkIndex + 1 == chunks then AllChunksDone else ChunkDone)
  {
    hide ChunkBytes, Sha256Spec.Sha256;
    var thisLen := if chunkIndex == chunks - 1 then l.lastChunkLen else l.chunkSize;
    var offset := chunkIndex * l.chunkSize;
    var chunkBytes := Slice(data, offset, offset + thisLen);
    assert chunkBytes == ChunkBytes(data, l, chunks, chunkIndex) by {
      SameChunk(data, l, chunks, chunkIndex);
    }
    var chunkSha := Sha256Spec.Sha256(chunkBytes);
    var attempt := 1;
    while attempt <= retryLimit
      invariant 1 <= attempt && board.Valid() && board.commits == old(board.commits) && board.begun == old(board.begun)
      invariant board.resumeChunks == old(board.resumeChunks) + attempt - 1
      invariant attempt > 1 ==> attempt <= retryLimit + 1
      invariant old(board.streamed) <= board.streamed && TruePayloads(board.streamed, |old(board.streamed)|, data, l, chunks)
      invariant board.honest ==> board.confirmed >= old(board.confirmed)
      invariant board.willing && chunkIndex == old(board.confirmed) < chunks ==> attempt == 1 && board.confirmed == chunkIndex
    {
      attempt := attempt + 1;
      var goResp := board.ResumeChunk(chunkIndex, thisLen);
      match goResp {
        case NoGo => continue;
        case GoExpected(n) => return Resync(n);
        case GoGarbled => return AttemptRaised;
        case GoOther => continue;
        case Go =>
      }
      var sent := board.Stream(chunkIndex, chunkBytes);
      if !sent {
        continue;
      }
      var verifyResp := board.ResumeVerify(chunkIndex, chunkSha);
      match verifyResp {
        case NoVerify => continue;
        case VerifyExpected(n) => return Resync(n);
        case VerifyGarbled => return AttemptRaised;
        case ChunkOk => return ChunkDone;
        case AllDone => return AllChunksDone;
        case ChunkFail => continue;
        case VerifyOther =>
      }
    }
    return GaveUp;
  }

  lemma SameChunk(data: seq<Byte>, l: Layout, chunks: int, i: int)
    ensures ChunkBytes(data, l, chunks, i) ==
            Slice(data, i * l.chunkSize, i * l.chunkSize + (if i == chunks - 1 then l.lastChunkLen else l.chunkSize))
  {
  }

  lemma NoCountNoLayout(totalLen: nat)
    ensures ComputeChunkLayout(totalLen, 0).Err?
  {
  }

  /** The driver, from the begin command on. The loop ends because every pass returns, leaves, or raises
      the chunk index; and a commit is sent at most once, and to an honest board only when that board
      has confirmed every chunk. A new upload is committed with no chunk sent exactly when the count is
      negative. */
  method Upload(board: Board, data: seq<Byte>, chunks: int, retryLimit: int) returns (o: Outcome)
    requires board.Valid() && board.count == chunks && (board.willing ==> board.confirmed <= chunks)
    modifies board
    ensures board.Valid()
    ensures ComputeChunkLayout(|data|, chunks).Err? ==>
              o == Raised && board.commits == old(board.commits) && board.streamed == old(board.streamed)
    ensures board.commits == old(board.commits) || board.commits == old(board.commits) + [Sha256Spec.Sha256(data)]
    ensures o.Passed? ==> board.commits != old(board.commits)
    ensures board.commits != old(board.commits) && board.honest ==> board.confirmed >= chunks
    ensures ComputeChunkLayout(|data|, chunks).Ok? && board.begun == Fresh ==>
              (board.commits != old(board.commits) && board.resumeChunks == old(board.resumeChunks) <==> chunks < 0)
    ensures ComputeChunkLayout(|data|, chunks).Ok? && board.begun == Fresh && chunks < 0 ==>
              board.streamed == old(board.streamed)
    ensures board.willing && retryLimit >= 1 && ComputeChunkLayout(|data|, chunks).Ok? ==> board.commits != old(board.commits)
    ensures ComputeChunkLayout(|data|, chunks).Ok? ==>
              && old(board.streamed) <= board.streamed
              && TruePayloads(board.streamed, |old(board.streamed)|, data, ComputeChunkLayout(|data|, chunks).value, chunks)
  {
    hide ComputeChunkLayout, ChunkBytes, Sha256Spec.Sha256;
    if chunks == 0 {
      NoCountNoLayout(|data|);
    }
    var layout := ComputeChunkLayout(|data|, chunks);
    if layout.Err? {
      return Raised;
    }
    var l := layout.value;
    var startChunk := 0;
    var allDone := false;
    var resp := board.ResumeBegin();
    match resp {
      case NoBegin => return Failed;
      case Fresh => startChunk := 0;
      case Resume(k) => startChunk := k;
      case BeginAllDone => allDone := true;
      case Busy => return Failed;
      case LimitExceeded => return Failed;
      case BeginOther => return Failed;
      case BeginGarbled => return Raised;
    }
    var chunkIndex := startChunk;
    if !allDone {
      while chunkIndex < chunks
        invariant board.Valid() && board.commits == old(board.commits)
        invariant old(board.streamed) <= board.streamed && TruePayloads(board.streamed, |old(board.streamed)|, data, l, chunks)
        invariant board.begun == resp && (resp == Fresh && chunkIndex > 0 ==> board.resumeChunks > old(board.resumeChunks))
        invariant resp == Fresh ==> chunkIndex >= 0 && (chunkIndex > 0 ==> chunks > 0)
        invariant !allDone && board.resumeChunks >= old(board.resumeChunks)
        invariant resp == Fresh && chunkIndex == 0 ==>
                    board.resumeChunks == old(board.resumeChunks) && board.streamed == old(board.streamed)
        invariant board.honest ==> board.confirmed >= chunkIndex && (allDone ==> board.confirmed >= chunks)
        invariant board.willing && retryLimit >= 1 ==> board.confirmed == chunkIndex <= chunks
        decreases chunks - chunkIndex
      {
        var result := TryChunk(board, data, l, chunks, chunkIndex, retryLimit);
        match result {
          case Resync(n) =>
            if n <= chunkIndex {
              return Failed;
            }
            chunkIndex := n;
            continue;
          case AttemptRaised => return Raised;
          case GaveUp => return Failed;
          case ChunkDone =>
          case AllChunksDone => allDone := true;
        }
        if allDone {
          break;
        }
        chunkIndex := chunkIndex + 1;
      }
    }
    assert resp == Fresh && chunks > 0 ==> board.resumeChunks > old(board.resumeChunks);
    assert resp == Fresh && chunks < 0 ==> board.resumeChunks == old(board.resumeChunks);
    var ok := board.Commit(Sha256Spec.Sha256(data));
    assert |board.commits| == |old(board.commits)| + 1;
    o := if ok then Passed else Failed;
  }
}
