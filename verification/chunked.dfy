/** The chunking of `force_write_process_memory`: a write of more than
    0x1000 bytes is sent as consecutive requests of at most 0x1000 bytes each,
    the target address and the source pointer advancing by 0x1000 per chunk,
    and the loop stops at the first chunk the backend refuses. The backend's
    answers are given as `verdicts`, one per request in order (a missing
    answer is a refusal). */
module ChunkedWrite {

  import opened Codec
  import opened Transport

  /** `once_write`: the largest chunk sent in one request. */
  const Chunk: nat := 0x1000

  const Two64: int := 0x1_0000_0000_0000_0000

  function Min(a: nat, b: nat): (m: nat)
    ensures m <= a && m <= b && (m == a || m == b)
  {
    if a < b then a else b
  }

  function Sum(s: seq<nat>): nat
  {
    if s == [] then 0 else s[0] + Sum(s[1..])
  }

  /** The chunk lengths the loop sends for `left` remaining bytes when every
      chunk succeeds and the remaining count goes down by the chunk length. */
  function Chunks(left: nat): (c: seq<nat>)
    ensures |c| == (left + Chunk - 1) / Chunk
    decreases left
  {
    if left == 0 then [] else [Min(left, Chunk)] + Chunks(left - Min(left, Chunk))
  }

  /** The chunk plan of a whole write: one request when `size <= 0x1000`
      (even an empty one), otherwise the loop's chunks. */
  function Plan(size: nat): (p: seq<nat>)
    ensures |p| == if size == 0 then 1 else (size + Chunk - 1) / Chunk
  {
    if size <= Chunk then [size] else Chunks(size)
  }

  /** How a run ends: the chunk lengths sent, in order, the number of bytes
      confirmed by successful chunks, and the reported result. */
  datatype Outcome = Outcome(lens: seq<nat>, confirmed: nat, ok: bool)

  /** The number of leading successes among the answers. */
  function Lead(verdicts: seq<bool>): (n: nat)
    ensures n <= |verdicts|
  {
    if verdicts == [] || !verdicts[0] then 0 else 1 + Lead(verdicts[1..])
  }

  /** The corrected loop from a state with `left` bytes remaining: the
      remaining count goes down by the length actually sent, and the result
      is success exactly when nothing remains. */
  function Run(left: nat, verdicts: seq<bool>): (o: Outcome)
    ensures o.confirmed <= left
    ensures o.ok <==> o.confirmed == left
    decreases left
  {
    if left == 0 then Outcome([], 0, true)
    else
      var n := Min(left, Chunk);
      if verdicts == [] || !verdicts[0] then Outcome([n], 0, false)
      else
        var o := Run(left - n, verdicts[1..]);
        Outcome([n] + o.lens, n + o.confirmed, o.ok)
  }

  /** One accepted chunk of the corrected run. */
  lemma RunStep(left: nat, verdicts: seq<bool>)
    requires left > 0 && verdicts != [] && verdicts[0]
    ensures var n := Min(left, Chunk);
            var o := Run(left - n, verdicts[1..]);
            Run(left, verdicts) == Outcome([n] + o.lens, n + o.confirmed, o.ok)
  {
  }

  /** The corrected `force_write_process_memory` as a whole. */
  function ForceWrite(size: nat, verdicts: seq<bool>): (o: Outcome)
    ensures o.lens != [] && o.lens[0] == Min(size, Chunk)
    ensures o.ok ==> verdicts != [] && verdicts[0]
  {
    if size <= Chunk then
      var ok := verdicts != [] && verdicts[0];
      Outcome([size], if ok then size else 0, ok)
    else Run(size, verdicts)
  }

  /** Every chunk is at most 0x1000 bytes and not empty, every chunk but the
      last is exactly 0x1000 bytes, and the chunks add up to the whole. */
  lemma {:induction false} ChunksShape(left: nat)
    ensures Sum(Chunks(left)) == left
    ensures forall i :: 0 <= i < |Chunks(left)| ==> 0 < Chunks(left)[i] <= Chunk
    ensures forall i :: 0 <= i < |Chunks(left)| - 1 ==> Chunks(left)[i] == Chunk
    decreases left
  {
    if left > 0 {
      ChunksShape(left - Min(left, Chunk));
    }
  }

  /** A write of 10000 bytes goes out as 4096, 4096 and 1808 bytes. */
  lemma PlanOf10000()
    ensures Plan(10000) == [4096, 4096, 1808]
  {
    assert Chunks(1808) == [1808] + Chunks(0);
    assert Chunks(5904) == [4096] + Chunks(1808);
  }

  /** The corrected loop sends the planned chunks in order up to and
      including the first refused one. */
  lemma {:induction false} RunSendsPlan(left: nat, verdicts: seq<bool>)
    ensures Run(left, verdicts).lens == Chunks(left)[..Min(Lead(verdicts) + 1, |Chunks(left)|)]
    decreases left
  {
    if left > 0 {
      var n := Min(left, Chunk);
      var c := Chunks(left);
      assert c == [n] + Chunks(left - n);
      if verdicts != [] && verdicts[0] {
        RunSendsPlan(left - n, verdicts[1..]);
        assert c[..Min(Lead(verdicts) + 1, |c|)]
            == [n] + Chunks(left - n)[..Min(Lead(verdicts[1..]) + 1, |Chunks(left - n)|)];
      } else {
        assert c[..1] == [n];
      }
    }
  }

  /** The corrected loop confirms exactly the chunks that succeeded, and
      succeeds exactly when every planned chunk succeeded. */
  lemma {:induction false} RunConfirmsPlan(left: nat, verdicts: seq<bool>)
    ensures Run(left, verdicts).confirmed == Sum(Chunks(left)[..Min(Lead(verdicts), |Chunks(left)|)])
    ensures Run(left, verdicts).ok <==> Lead(verdicts) >= |Chunks(left)|
    decreases left
  {
    if left > 0 {
      var n := Min(left, Chunk);
      var c := Chunks(left);
      assert c == [n] + Chunks(left - n);
      if verdicts != [] && verdicts[0] {
        RunConfirmsPlan(left - n, verdicts[1..]);
        var k := Min(Lead(verdicts[1..]), |Chunks(left - n)|);
        assert c[..k + 1] == [n] + Chunks(left - n)[..k];
        assert Sum(c[..k + 1]) == n + Sum(Chunks(left - n)[..k]);
      } else {
        assert c[..0] == [];
      }
    }
  }

  /** The corrected write reports success only when the whole size was
      confirmed, and a refused non-empty write confirms less than the size. */
  lemma ForceWriteConfirms(size: nat, verdicts: seq<bool>)
    ensures ForceWrite(size, verdicts).ok ==> ForceWrite(size, verdicts).confirmed == size
    ensures !ForceWrite(size, verdicts).ok && size > 0 ==> ForceWrite(size, verdicts).confirmed < size
    ensures ForceWrite(size, verdicts).lens == Plan(size)[..Min(Lead(verdicts) + 1, |Plan(size)|)]
  {
    if size > Chunk {
      RunSendsPlan(size, verdicts);
    } else {
      assert Plan(size)[..1] == [size];
    }
  }

  /** `size_left -= once_write` on a 64-bit unsigned count. */
  function WrapSub(left: u64, d: u64): (r: u64)
    ensures left >= d ==> r == left - d
    ensures left < d ==> r == Two64 + left - d
  {
    (left - d) % Two64
  }

  /** The loop exactly as written from a state with `left` remaining: the
      remaining count always goes down by 0x1000, wrapping below zero, and the
      result is `size_left != size`. Each success consumes one answer, so the
      run ends at the first refusal or when the count reaches zero. */
  function AsWrittenRun(left: u64, size: u64, verdicts: seq<bool>): (o: Outcome)
    ensures |o.lens| <= Lead(verdicts) + 1
    ensures o.confirmed <= Chunk * Lead(verdicts)
    decreases |verdicts|
  {
    if left == 0 then Outcome([], 0, left != size)
    else
      var n := Min(left, Chunk);
      if verdicts == [] || !verdicts[0] then Outcome([n], 0, left != size)
      else
        var o := AsWrittenRun(WrapSub(left, Chunk), size, verdicts[1..]);
        Outcome([n] + o.lens, n + o.confirmed, o.ok)
  }

  /** `force_write_process_memory` exactly as written. */
  function AsWrittenForceWrite(size: u64, verdicts: seq<bool>): (o: Outcome)
    ensures o.lens != [] && o.lens[0] == Min(size, Chunk)
    ensures o.ok ==> verdicts != [] && verdicts[0]
  {
    if size <= Chunk then
      var ok := verdicts != [] && verdicts[0];
      Outcome([size], if ok then size else 0, ok)
    else AsWrittenRun(size, size, verdicts)
  }

  /** As written, a 10000-byte write whose second chunk is refused reports
      success although only 4096 bytes were written; the corrected write
      reports failure. */
  lemma AsWrittenPartialSuccess()
    ensures AsWrittenForceWrite(10000, [true, false]).ok
    ensures AsWrittenForceWrite(10000, [true, false]).confirmed == 4096
    ensures !ForceWrite(10000, [true, false]).ok
    ensures ForceWrite(10000, [true, false]).confirmed == 4096
  {
    assert AsWrittenRun(5904, 10000, [false]) == Outcome([4096], 0, true);
    assert Run(5904, [false]) == Outcome([4096], 0, false);
  }

  /** As written, the short last chunk of a 10000-byte write makes the count
      wrap, and the loop goes on sending 4096-byte chunks past the end until
      one is refused. */
  lemma AsWrittenOverrun()
    ensures AsWrittenForceWrite(10000, [true, true, true, true, false]).lens
         == [4096, 4096, 1808, 4096, 4096]
    ensures Sum(AsWrittenForceWrite(10000, [true, true, true, true, false]).lens) > 10000
  {
    var big := Two64 - 2288;
    assert WrapSub(1808, Chunk) == big;
    assert AsWrittenRun(big - Chunk, 10000, [false]) == Outcome([4096], 0, true);
    assert AsWrittenRun(big, 10000, [true, false]).lens == [4096, 4096];
    assert AsWrittenRun(1808, 10000, [true, true, false]).lens == [1808, 4096, 4096];
    assert AsWrittenRun(5904, 10000, [true, true, true, false]).lens == [4096, 1808, 4096, 4096];
  }

  /** On the same answers the corrected write stops after the planned chunks
      and succeeds. */
  lemma CorrectedStops()
    ensures ForceWrite(10000, [true, true, true, true, false]).lens == [4096, 4096, 1808]
    ensures ForceWrite(10000, [true, true, true, true, false]).ok
  {
    assert Run(1808, [true, false]) == Outcome([1808], 1808, true);
    assert Run(5904, [true, true, false]).lens == [4096, 1808];
  }

  /** The address of chunk `k`: `r += once_write` applied `k` times, with
      64-bit wrap-around. */
  function Advance(a: bv64, k: nat): bv64
  {
    if k == 0 then a else Advance(a, k - 1) + 0x1000
  }

  /** The request for one chunk: a single `WriteProcessMemoryInput` sent
      under the forced-write code, with no output buffer; the length field
      is the `size_t` count, `n` modulo 2^64. */
  function ChunkRequest(key: bv64, pid: bv64, address: bv64, n: nat, data: bv64): (r: Request)
    ensures r.code == ForceWriteProcessMemory && r.outCap == 0 && r.memCap == 0
    ensures |r.input| == 40 && r.input[..8] == WordBytes(key)
  {
    Request(ForceWriteProcessMemory,
            Encrypted(Slots([key, pid, address, (n % Two64) as bv64, data]), key), 0, 0)
  }

  /** The backend reads a chunk request as the key, the pid, the target
      address, the length modulo 2^64 and the source pointer. */
  lemma ChunkRequestFields(key: bv64, pid: bv64, address: bv64, n: nat, data: bv64, k: nat)
    requires k < 5
    ensures Field(Unscramble(ChunkRequest(key, pid, address, n, data).input), k)
         == [key, pid, address, (n % Two64) as bv64, data][k]
  {
    SentFields([key, pid, address, (n % Two64) as bv64, data], key, k);
  }

  /** Moving the start on by one chunk moves every later chunk's address
      on by one. */
  lemma {:induction false} AdvanceShift(a: bv64, k: nat)
    ensures Advance(a + 0x1000, k) == Advance(a, k + 1)
  {
    if k > 0 {
      AdvanceShift(a, k - 1);
    }
  }

  /** Advancing `j` chunks and then `k` more is advancing `j + k` chunks. */
  lemma {:induction false} AdvanceAdd(a: bv64, j: nat, k: nat)
    ensures Advance(Advance(a, j), k) == Advance(a, j + k)
  {
    if k > 0 {
      AdvanceAdd(a, j, k - 1);
    }
  }

  /** The sender of forced-write chunks: `Sender(key, pid)(a, n, d)` is the
      request that writes `n` bytes to `a` from `d`. */
  function Sender(key: bv64, pid: bv64): (bv64, nat, bv64) -> Request
  {
    (a: bv64, n: nat, d: bv64) => ChunkRequest(key, pid, a, n, d)
  }

  /** The requests `send` makes for chunks of lengths `lens`, in order, the
      first one targeting `address` and reading from `data`, each later one
      0x1000 bytes further on. */
  function Sends(send: (bv64, nat, bv64) -> Request, address: bv64, data: bv64, lens: seq<nat>): (r: seq<Request>)
    ensures |r| == |lens|
    decreases |lens|
  {
    if lens == [] then []
    else [send(address, lens[0], data)] + Sends(send, address + 0x1000, data + 0x1000, lens[1..])
  }

  /** The forced-write requests for chunks of lengths `lens`. */
  function ChunkRequests(key: bv64, pid: bv64, address: bv64, data: bv64, lens: seq<nat>): seq<Request>
  {
    Sends(Sender(key, pid), address, data, lens)
  }

  /** Request k targets the address and the source pointer advanced by k
      chunks, with the length of chunk k. */
  lemma {:induction false} SendAt(send: (bv64, nat, bv64) -> Request, address: bv64, data: bv64,
                                  lens: seq<nat>, k: nat)
    requires k < |lens|
    ensures Sends(send, address, data, lens)[k] == send(Advance(address, k), lens[k], Advance(data, k))
    decreases |lens|
  {
    if k > 0 {
      SendAt(send, address + 0x1000, data + 0x1000, lens[1..], k - 1);
      AdvanceShift(address, k - 1);
      AdvanceShift(data, k - 1);
    }
  }

  /** Forced-write request k of a run writes chunk k at the address and from
      the source pointer advanced by k chunks. */
  lemma ChunkRequestAt(key: bv64, pid: bv64, address: bv64, data: bv64, lens: seq<nat>, k: nat)
    requires k < |lens|
    ensures ChunkRequests(key, pid, address, data, lens)[k]
         == ChunkRequest(key, pid, Advance(address, k), lens[k], Advance(data, k))
  {
    SendAt(Sender(key, pid), address, data, lens, k);
  }
}
