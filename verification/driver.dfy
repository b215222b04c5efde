/** The typed operations of `PknDriver`: each fills a request struct whose
    leading field is the session key, encrypts it in place, calls the device,
    and on success decodes the output struct and returns the fields the
    caller asked for. Every scalar field of a request or output struct is one
    8-byte little-endian slot, in the order the struct is initialised. */
module Driver {

  import opened Codec
  import opened Transport
  import opened ChunkedWrite
  import opened WideString

  datatype Option<T> = None | Some(value: T)

  /** Capacity, in code units, of the wide-character name fields of the
      unloaded-driver, mapped-file and process-name structs. */
  const NameUnits: nat := 260
  /** `sizeof(SECURITY_DESCRIPTOR)`. */
  const SdBytes: nat := 40
  /** `sizeof(MEMORY_BASIC_INFORMATION)`. */
  const MbiBytes: nat := 48
  /** `sizeof(THREAD_BASIC_INFORMATION)`. */
  const TbiBytes: nat := 48

  /** A boolean request field. */
  function Flag(b: bool): bv64
  {
    if b then 1 else 0
  }

  /** The 4-byte little-endian count of the size-only query. */
  function Le32(b: seq<bv8>): nat
    requires |b| == 4
  {
    b[0] as nat + 0x100 * b[1] as nat + 0x1_0000 * b[2] as nat + 0x100_0000 * b[3] as nat
  }

  /** The answers of a script as the forced write sees them: a request with
      no output buffer succeeds when the answer is a success with no data. */
  function Verdicts(pending: seq<Reply>): (v: seq<bool>)
    ensures |v| == |pending|
  {
    if pending == [] then [] else [Accepts(pending[0], 0, 0)] + Verdicts(pending[1..])
  }

  /** The verdicts of the script after one call. */
  lemma VerdictsRest(pending: seq<Reply>)
    requires pending != []
    ensures Verdicts(pending)[1..] == Verdicts(Rest(pending))
  {
  }

  /** The script after `k` calls. */
  function Consume(pending: seq<Reply>, k: nat): seq<Reply>
  {
    if k == 0 then pending else Consume(Rest(pending), k - 1)
  }

  datatype ProcessTimes = ProcessTimes(creation: bv64, exit: bv64, kernel: bv64, user: bv64)

  /** A region as the virtual-memory calls report it. */
  datatype Region = Region(base: bv64, size: bv64)

  /** Three fields stored one after another fill the first three slots. */
  lemma HeaderSlots(s: seq<bv8>, a: bv64, b: bv64, c: bv64)
    requires |s| >= 24
    ensures PutWord(PutWord(PutWord(s, 0, a), 8, b), 16, c)[..24] == Slots([a, b, c])
  {
    assert Slots([a, b, c]) == WordBytes(a) + WordBytes(b) + WordBytes(c) by {
      assert Slots([c]) == WordBytes(c);
      assert Slots([b, c]) == WordBytes(b) + Slots([c]);
    }
  }

  /** A name field that starts with a zero-free pattern and its terminator
      holds that pattern, whatever follows: the name field of a
      `delete_unloaded_drivers` request reads back as the pattern. */
  lemma WrittenName(field: seq<bv8>, pattern: seq<bv16>)
    requires |field| >= 2 * |pattern| + 2
    requires field[..2 * |pattern| + 2] == UnitsBytes(pattern + [0])
    requires forall i :: 0 <= i < |pattern| ==> pattern[i] != 0
    ensures Name(Units(field)) == pattern
  {
    var m := 2 * |pattern| + 2;
    assert field == field[..m] + field[m..];
    NameRoundTrip(pattern, field[m..]);
  }

  /** What the chunk loop of the forced write leaves behind: the requests
      it sent, the script still pending, the bytes confirmed and its result. */
  datatype Trace = Trace(sent: seq<Request>, rest: seq<Reply>, confirmed: nat, ok: bool)

  /** The corrected chunk loop against the script `pending`, with `left`
      bytes remaining, the next chunk going to `r` from `pd`; `send(a, n, d)`
      is the request that writes `n` bytes to `a` from `d`. */
  function Drive(send: (bv64, nat, bv64) -> Request, r: bv64, pd: bv64, left: nat, pending: seq<Reply>): Trace
    decreases left
  {
    if left == 0 then Trace([], pending, 0, true)
    else
      var n := Min(left, Chunk);
      var req := send(r, n, pd);
      if !Accepts(Next(pending), 0, 0) then Trace([req], Rest(pending), 0, false)
      else
        var t := Drive(send, r + 0x1000, pd + 0x1000, left - n, Rest(pending));
        Trace([req] + t.sent, t.rest, n + t.confirmed, t.ok)
  }

  /** The loop confirms at most the bytes remaining and succeeds exactly when
      it confirms all of them; it sends at most one request more than there
      are answers, the one a missing answer refuses. */
  lemma {:induction false} DriveBounds(send: (bv64, nat, bv64) -> Request, r: bv64, pd: bv64, left: nat,
                                       pending: seq<Reply>)
    ensures var t := Drive(send, r, pd, left, pending);
            t.confirmed <= left && (t.ok <==> t.confirmed == left) && |t.sent| <= |pending| + 1
    decreases left
  {
    if left > 0 && Accepts(Next(pending), 0, 0) {
      DriveBounds(send, r + 0x1000, pd + 0x1000, left - Min(left, Chunk), Rest(pending));
    }
  }

  /** A loop state that has already sent `sent` and confirmed `done` bytes,
      followed by the trace `t` of the rest of the loop. */
  function After(sent: seq<Request>, done: nat, t: Trace): Trace
  {
    Trace(sent + t.sent, t.rest, done + t.confirmed, t.ok)
  }

  /** One pass of the chunk loop from `left > 0` remaining: the chunk
      `min(left, 0x1000)` is sent to `r` from `pd`; when the next answer
      accepts it, the loop goes on 0x1000 bytes further with the chunk
      confirmed, and otherwise it is over with the chunk sent. */
  lemma DriveStep(send: (bv64, nat, bv64) -> Request, r: bv64, pd: bv64, left: nat, pending: seq<Reply>,
                  sent: seq<Request>, done: nat)
    requires left > 0
    ensures var n := Min(left, Chunk);
            var t := After(sent, done, Drive(send, r, pd, left, pending));
            (Accepts(Next(pending), 0, 0) ==>
               After(sent + [send(r, n, pd)], done + n,
                     Drive(send, r + 0x1000, pd + 0x1000, left - n, Rest(pending))) == t)
            && (!Accepts(Next(pending), 0, 0) ==> t == Trace(sent + [send(r, n, pd)], Rest(pending), done, false))
  {
    var n := Min(left, Chunk);
    if Accepts(Next(pending), 0, 0) {
      var t' := Drive(send, r + 0x1000, pd + 0x1000, left - n, Rest(pending));
      assert sent + [send(r, n, pd)] + t'.sent == sent + ([send(r, n, pd)] + t'.sent);
    }
  }

  /** The first verdict of a script is whether its next answer accepts. */
  lemma VerdictsHead(pending: seq<Reply>)
    ensures (Verdicts(pending) != [] && Verdicts(pending)[0]) == Accepts(Next(pending), 0, 0)
  {
  }

  /** The chunk loop against a script confirms and reports what the
      corrected run does with the script's verdicts. */
  lemma {:induction false} DriveRuns(send: (bv64, nat, bv64) -> Request,
                                     r: bv64, pd: bv64, left: nat, pending: seq<Reply>)
    ensures var o := Run(left, Verdicts(pending));
            var t := Drive(send, r, pd, left, pending);
            t.ok == o.ok && t.confirmed == o.confirmed
    decreases left
  {
    VerdictsHead(pending);
    if left > 0 && Accepts(Next(pending), 0, 0) {
      VerdictsRest(pending);
      DriveRuns(send, r + 0x1000, pd + 0x1000, left - Min(left, Chunk), Rest(pending));
      RunStep(left, Verdicts(pending));
    }
  }

  /** The chunk loop consumes one answer per chunk of the corrected run. */
  lemma {:induction false} DriveConsumes(send: (bv64, nat, bv64) -> Request,
                                         r: bv64, pd: bv64, left: nat, pending: seq<Reply>)
    ensures Drive(send, r, pd, left, pending).rest == Consume(pending, |Run(left, Verdicts(pending)).lens|)
    decreases left
  {
    VerdictsHead(pending);
    if left > 0 && Accepts(Next(pending), 0, 0) {
      var n := Min(left, Chunk);
      VerdictsRest(pending);
      DriveConsumes(send, r + 0x1000, pd + 0x1000, left - n, Rest(pending));
      RunStep(left, Verdicts(pending));
      var o := Run(left - n, Verdicts(Rest(pending)));
      assert Consume(pending, 1 + |o.lens|) == Consume(Rest(pending), |o.lens|);
    }
  }

  /** The chunk loop sends exactly the requests for the chunks of the
      corrected run. */
  lemma {:induction false} DriveSends(send: (bv64, nat, bv64) -> Request,
                                      r: bv64, pd: bv64, left: nat, pending: seq<Reply>)
    ensures Drive(send, r, pd, left, pending).sent == Sends(send, r, pd, Run(left, Verdicts(pending)).lens)
    decreases left
  {
    if left > 0 && Accepts(Next(pending), 0, 0) {
      var n := Min(left, Chunk);
      VerdictsRest(pending);
      DriveSends(send, r + 0x1000, pd + 0x1000, left - n, Rest(pending));
      var o := Run(left - n, Verdicts(Rest(pending)));
      assert ([n] + o.lens)[1..] == o.lens;
    }
  }

  class PknDriver {
    /** The session key every request and response is scrambled with. */
    const xorKey: bv64
    /** The device channel. */
    const io: Device

    constructor(key: bv64, device: Device)
      ensures xorKey == key && io == device
    {
      xorKey := key;
      io := device;
    }

    /** The answer the next call gets. */
    function Answer(): Reply
      reads io
    {
      Next(io.pending)
    }

    /** Exactly one request went out, carrying `image` encrypted with the
        session key, and it consumed one answer. */
    twostate predicate Sent(code: IoctlCode, image: seq<bv8>, outCap: nat, memCap: nat)
      requires |image| >= 8
      reads io
    {
      io.sent == old(io.sent) + [Request(code, Encrypted(image, xorKey), outCap, memCap)]
      && io.pending == Rest(old(io.pending))
    }

    /** `EncryptInputByXor(); ioctl(...)` on a request struct filled in place. */
    method SendArray(code: IoctlCode, inp: array<bv8>, out: array?<bv8>, outCap: nat,
                     mem: array?<bv8>, memCap: nat) returns (ok: bool, outSize: nat)
      requires inp.Length >= 8
      requires out == null ==> outCap == 0
      requires out != null ==> outCap <= out.Length && out != inp
      requires mem == null ==> memCap == 0
      requires mem != null ==> memCap <= mem.Length && mem != inp && mem != out
      modifies io, inp, out, mem
      ensures Sent(code, old(inp[..]), outCap, memCap)
      ensures ok == Accepts(old(Answer()), outCap, memCap)
      ensures outSize == if ok then |old(Answer()).out| else 0
      ensures out != null ==>
                out[..] == if ok then PutBytes(old(out[..]), 0, old(Answer()).out) else old(out[..])
      ensures mem != null ==>
                mem[..] == if ok then PutBytes(old(mem[..]), 0, old(Answer()).mem) else old(mem[..])
    {
      EncryptInput(inp, xorKey);
      ok, outSize := io.Ioctl(code, inp, out, outCap, mem, memCap);
    }

    /** A request struct holding `image`, encrypted and sent. */
    method Send(code: IoctlCode, image: seq<bv8>, out: array?<bv8>, outCap: nat,
                mem: array?<bv8>, memCap: nat) returns (ok: bool, outSize: nat)
      requires |image| >= 8
      requires out == null ==> outCap == 0
      requires out != null ==> outCap <= out.Length
      requires mem == null ==> memCap == 0
      requires mem != null ==> memCap <= mem.Length && mem != out
      modifies io, out, mem
      ensures Sent(code, image, outCap, memCap)
      ensures ok == Accepts(old(Answer()), outCap, memCap)
      ensures outSize == if ok then |old(Answer()).out| else 0
      ensures out != null ==>
                out[..] == if ok then PutBytes(old(out[..]), 0, old(Answer()).out) else old(out[..])
      ensures mem != null ==>
                mem[..] == if ok then PutBytes(old(mem[..]), 0, old(Answer()).mem) else old(mem[..])
    {
      var inp := new bv8[|image|](i requires 0 <= i < |image| => image[i]);
      assert inp[..] == image;
      ok, outSize := SendArray(code, inp, out, outCap, mem, memCap);
    }

    /** The simple call: an output struct of `outLen` bytes, left
        uninitialised (`raw` is what it held before the backend wrote into
        it), decoded with `DecryptOutputByXor` on success when `decode`. */
    method Call(code: IoctlCode, image: seq<bv8>, outLen: nat, decode: bool)
      returns (ok: bool, oup: array<bv8>, ghost raw: seq<bv8>)
      requires |image| >= 8
      modifies io
      ensures fresh(oup) && oup.Length == outLen && |raw| == outLen
      ensures Sent(code, image, outLen, 0)
      ensures ok == Accepts(old(Answer()), outLen, 0)
      ensures ok ==> raw[..|old(Answer()).out|] == old(Answer()).out
      ensures ok ==> oup[..] == if decode then Xored(raw, xorKey) else raw
      ensures ok && |old(Answer()).out| == outLen ==>
                oup[..] == if decode then Xored(old(Answer()).out, xorKey) else old(Answer()).out
    {
      oup := new bv8[outLen];
      var n;
      ok, n := Send(code, image, oup, outLen, null, 0);
      raw := oup[..];
      if ok && decode {
        DecryptOutput(oup, xorKey);
      }
      assert ok && |old(Answer()).out| == outLen ==> raw == old(Answer()).out;
    }

    /** Decodes an 8-byte output struct in place and reads its one field. */
    method DecodeWord(oup: array<bv8>) returns (v: bv64)
      requires oup.Length == 8
      modifies oup
      ensures v == Field(Xored(old(oup[..]), xorKey), 0)
    {
      DecryptOutput(oup, xorKey);
      v := Field(oup[..], 0);
    }

    /** A call whose output struct is one field, decoded. */
    method CallField(code: IoctlCode, image: seq<bv8>) returns (v: Option<bv64>)
      requires |image| >= 8
      modifies io
      ensures Sent(code, image, 8, 0)
      ensures v.Some? == Accepts(old(Answer()), 8, 0)
      ensures v.Some? && |old(Answer()).out| == 8 ==> v.value == Field(Xored(old(Answer()).out, xorKey), 0)
    {
      var ok, oup, raw := Call(code, image, 8, true);
      v := if ok then Some(Field(oup[..], 0)) else None;
    }

    /** The two-phase length query of `query_system_information` and
        `query_thread_information`. With no buffer, only the size is asked
        for, into a zeroed 4-byte count that is returned as the backend left
        it, without decoding. With a buffer, the backend writes up to
        `bufferSize` bytes into it and the first `out_size` of them, the
        count it reports, are decoded and that count is returned. On failure
        nothing is decoded and nothing is returned. */
    twostate predicate Queried(code: IoctlCode, image: seq<bv8>, buffer: array?<bv8>, bufferSize: nat,
                               new retSize: Option<nat>)
      requires |image| >= 8
      reads io, buffer
    {
      var r := old(Answer());
      if buffer == null then
        Sent(code, image, 4, 0)
        && retSize.Some? == Accepts(r, 4, 0)
        && (retSize.Some? ==> retSize.value == Le32(PutBytes([0, 0, 0, 0], 0, r.out)))
      else
        Sent(code, image, bufferSize, 0)
        && retSize.Some? == Accepts(r, bufferSize, 0)
        && |buffer[..]| == |old(buffer[..])|
        && (retSize.Some? ==> bufferSize <= |old(buffer[..])|
                              && retSize.value == |r.out|
                              && buffer[..] == XorRange(PutBytes(old(buffer[..]), 0, r.out), 0, |r.out|, xorKey))
        && (retSize.None? ==> buffer[..] == old(buffer[..]))
    }

    method Query(code: IoctlCode, image: seq<bv8>, buffer: array?<bv8>, bufferSize: nat)
      returns (retSize: Option<nat>)
      requires |image| >= 8
      requires buffer != null ==> bufferSize <= buffer.Length
      modifies io, buffer
      ensures Queried(code, image, buffer, bufferSize, retSize)
    {
      if buffer == null {
        var sizeBuffer := new bv8[4](_ => 0);
        assert sizeBuffer[..] == [0, 0, 0, 0];
        var ok, n := Send(code, image, sizeBuffer, 4, null, 0);
        retSize := if ok then Some(Le32(sizeBuffer[..])) else None;
      } else {
        var ok, outSize := Send(code, image, buffer, bufferSize, null, 0);
        if ok {
          XorMemory(buffer, 0, outSize, xorKey);
          retSize := Some(outSize);
        } else {
          retSize := None;
        }
      }
    }

    /** `query_system_information`. */
    method QuerySystemInformation(infoClass: bv64, buffer: array?<bv8>, bufferSize: nat)
      returns (retSize: Option<nat>)
      requires bufferSize < 0x1_0000_0000
      requires buffer != null ==> bufferSize <= buffer.Length
      modifies io, buffer
      ensures Queried(IoctlCode.QuerySystemInformation,
                      Slots([xorKey, 0, infoClass, bufferSize as bv64, Flag(buffer == null)]),
                      buffer, bufferSize, retSize)
    {
      retSize := Query(IoctlCode.QuerySystemInformation,
                       Slots([xorKey, 0, infoClass, bufferSize as bv64, Flag(buffer == null)]),
                       buffer, bufferSize);
    }

    /** `query_thread_information`: its request carries no size-only flag. */
    method QueryThreadInformation(tid: bv64, infoClass: bv64, buffer: array?<bv8>, bufferSize: nat)
      returns (retSize: Option<nat>)
      requires bufferSize < 0x1_0000_0000
      requires buffer != null ==> bufferSize <= buffer.Length
      modifies io, buffer
      ensures Queried(IoctlCode.QueryThreadInformation,
                      Slots([xorKey, tid, infoClass, bufferSize as bv64]),
                      buffer, bufferSize, retSize)
    {
      retSize := Query(IoctlCode.QueryThreadInformation,
                       Slots([xorKey, tid, infoClass, bufferSize as bv64]),
                       buffer, bufferSize);
    }

    /** `get_teb_address`: a `ThreadBasicInformation` query into an
        uninitialised `THREAD_BASIC_INFORMATION`, whose second slot is
        `TebBaseAddress`. */
    method GetTebAddress(tid: bv64) returns (teb: Option<bv64>)
      modifies io
      ensures Sent(IoctlCode.QueryThreadInformation, Slots([xorKey, tid, 0, TbiBytes as bv64]), TbiBytes, 0)
      ensures teb.Some? == Accepts(old(Answer()), TbiBytes, 0)
      ensures teb.Some? && |old(Answer()).out| == TbiBytes ==>
                teb.value == Field(Xored(old(Answer()).out, xorKey), 1)
    {
      var tbi := new bv8[TbiBytes];
      ghost var uninit := tbi[..];
      var r := QueryThreadInformation(tid, 0, tbi, TbiBytes);
      if r.Some? {
        ghost var out := old(Answer()).out;
        if |out| == TbiBytes {
          assert PutBytes(uninit, 0, out) == out;
          assert XorRange(out, 0, |out|, xorKey) == Xored(out, xorKey) by {
            assert out[..0] == [] && out[0..|out|] == out && out[|out|..] == [];
          }
        }
        teb := Some(Field(tbi[..], 1));
      } else {
        teb := None;
      }
    }

    /** `read_process_memory`: the backend copies the remote bytes into the
        caller's buffer, whose address travels in the request, and on
        success the client decodes `size` bytes of it, whatever the backend
        wrote. */
    method ReadProcessMemory(pid: bv64, address: bv64, size: nat, buffer: array<bv8>, bufferAddr: bv64)
      returns (ok: bool)
      requires size <= buffer.Length && size < Two64
      modifies io, buffer
      ensures Sent(IoctlCode.ReadProcessMemory, Slots([xorKey, pid, address, size as bv64, bufferAddr]), 0, size)
      ensures ok == Accepts(old(Answer()), 0, size)
      ensures buffer[..] == if ok then XorRange(PutBytes(old(buffer[..]), 0, old(Answer()).mem), 0, size, xorKey)
                            else old(buffer[..])
    {
      var n;
      ok, n := Send(IoctlCode.ReadProcessMemory, Slots([xorKey, pid, address, size as bv64, bufferAddr]),
                    null, 0, buffer, size);
      if ok {
        XorMemory(buffer, 0, size, xorKey);
      }
    }

    /** `write_process_memory`: the data travels by address and is not
        scrambled. */
    method WriteProcessMemory(pid: bv64, address: bv64, size: bv64, data: bv64) returns (ok: bool)
      modifies io
      ensures Sent(IoctlCode.WriteProcessMemory, Slots([xorKey, pid, address, size, data]), 0, 0)
      ensures ok == Accepts(old(Answer()), 0, 0)
    {
      var n;
      ok, n := Send(IoctlCode.WriteProcessMemory, Slots([xorKey, pid, address, size, data]), null, 0, null, 0);
    }

    /** `acquire_lock`: on success the `succeed` field is returned as the
        backend wrote it, without decoding. */
    method AcquireLock(pid: bv64, lockAddress: bv64) returns (locked: bool)
      modifies io
      ensures Sent(IoctlCode.AcquireLock, Slots([xorKey, pid, lockAddress]), 8, 0)
      ensures locked ==> Accepts(old(Answer()), 8, 0)
      ensures Accepts(old(Answer()), 8, 0) && |old(Answer()).out| == 8 ==>
                locked == (Field(old(Answer()).out, 0) != 0)
    {
      var ok, oup, raw := Call(IoctlCode.AcquireLock, Slots([xorKey, pid, lockAddress]), 8, false);
      locked := ok && Field(oup[..], 0) != 0;
    }

    /** `read_system_memory`: like `read_process_memory`, and the decoded
        `bytesread` is returned. */
    method ReadSystemMemory(address: bv64, size: nat, buffer: array<bv8>, bufferAddr: bv64)
      returns (read: Option<bv64>)
      requires size <= buffer.Length && size < Two64
      modifies io, buffer
      ensures Sent(IoctlCode.ReadSystemMemory, Slots([xorKey, address, size as bv64, bufferAddr]), 8, size)
      ensures read.Some? == Accepts(old(Answer()), 8, size)
      ensures buffer[..] == if read.Some? then XorRange(PutBytes(old(buffer[..]), 0, old(Answer()).mem), 0, size, xorKey)
                            else old(buffer[..])
      ensures read.Some? && |old(Answer()).out| == 8 ==> read.value == Field(Xored(old(Answer()).out, xorKey), 0)
    {
      var oup := new bv8[8];
      ghost var blank := oup[..];
      var ok, n := Send(IoctlCode.ReadSystemMemory, Slots([xorKey, address, size as bv64, bufferAddr]),
                        oup, 8, buffer, size);
      if ok {
        XorMemory(buffer, 0, size, xorKey);
        if |old(Answer()).out| == 8 {
          PutWhole(blank, old(Answer()).out);
        }
        var v := DecodeWord(oup);
        read := Some(v);
      } else {
        read := None;
      }
    }

    /** `write_system_memory`: the decoded `byteswritten`. */
    method WriteSystemMemory(address: bv64, size: bv64, data: bv64) returns (written: Option<bv64>)
      modifies io
      ensures Sent(IoctlCode.WriteSystemMemory, Slots([xorKey, address, size, data]), 8, 0)
      ensures written.Some? == Accepts(old(Answer()), 8, 0)
      ensures written.Some? && |old(Answer()).out| == 8 ==>
                written.value == Field(Xored(old(Answer()).out, xorKey), 0)
    {
      written := CallField(IoctlCode.WriteSystemMemory, Slots([xorKey, address, size, data]));
    }

    /** `allocate_nonpaged_memory`: the decoded `address`. */
    method AllocateNonpagedMemory(size: bv64) returns (address: Option<bv64>)
      modifies io
      ensures Sent(IoctlCode.AllocateNonpagedMemory, Slots([xorKey, size]), 8, 0)
      ensures address.Some? == Accepts(old(Answer()), 8, 0)
      ensures address.Some? && |old(Answer()).out| == 8 ==>
                address.value == Field(Xored(old(Answer()).out, xorKey), 0)
    {
      address := CallField(IoctlCode.AllocateNonpagedMemory, Slots([xorKey, size]));
    }

    /** `free_nonpaged_memory`: not implemented; always fails. */
    function FreeNonpagedMemory(ptr: bv64): (ok: bool)
      ensures !ok
    {
      false
    }

    /** `virtual_query`: the decoded `MEMORY_BASIC_INFORMATION`. */
    method VirtualQuery(pid: bv64, address: bv64) returns (mbi: Option<seq<bv8>>)
      modifies io
      ensures Sent(IoctlCode.QueryVirtualMemory, Slots([xorKey, pid, address]), MbiBytes, 0)
      ensures mbi.Some? == Accepts(old(Answer()), MbiBytes, 0)
      ensures mbi.Some? ==> |mbi.value| == MbiBytes
      ensures mbi.Some? && |old(Answer()).out| == MbiBytes ==> mbi.value == Xored(old(Answer()).out, xorKey)
    {
      var ok, oup, raw := Call(IoctlCode.QueryVirtualMemory, Slots([xorKey, pid, address]), MbiBytes, true);
      mbi := if ok then Some(oup[..]) else None;
    }

    /** A call whose output struct is one wide-character name field: on
        success, the code units of the decoded field before its first zero. */
    method CallName(code: IoctlCode, image: seq<bv8>) returns (name: Option<seq<bv16>>)
      requires |image| >= 8
      modifies io
      ensures Sent(code, image, 2 * NameUnits, 0)
      ensures name.Some? == Accepts(old(Answer()), 2 * NameUnits, 0)
      ensures name.Some? ==> |name.value| <= NameUnits && forall i :: 0 <= i < |name.value| ==> name.value[i] != 0
      ensures name.Some? && |old(Answer()).out| == 2 * NameUnits ==>
                name.value == Name(Units(Xored(old(Answer()).out, xorKey)))
    {
      var ok, oup, raw := Call(code, image, 2 * NameUnits, true);
      if ok {
        var s := ReadName(oup, 0, NameUnits);
        assert oup[0..2 * NameUnits] == oup[..];
        name := Some(s);
      } else {
        name := None;
      }
    }

    /** `get_mapped_file`. */
    method GetMappedFile(pid: bv64, address: bv64) returns (path: Option<seq<bv16>>)
      modifies io
      ensures Sent(IoctlCode.GetMappedFile, Slots([xorKey, pid, address]), 2 * NameUnits, 0)
      ensures path.Some? == Accepts(old(Answer()), 2 * NameUnits, 0)
      ensures path.Some? ==> |path.value| <= NameUnits && forall i :: 0 <= i < |path.value| ==> path.value[i] != 0
      ensures path.Some? && |old(Answer()).out| == 2 * NameUnits ==>
                path.value == Name(Units(Xored(old(Answer()).out, xorKey)))
    {
      path := CallName(IoctlCode.GetMappedFile, Slots([xorKey, pid, address]));
    }

    /** `get_process_name`. */
    method GetProcessName(pid: bv64) returns (name: Option<seq<bv16>>)
      modifies io
      ensures Sent(IoctlCode.GetProcessName, Slots([xorKey, pid]), 2 * NameUnits, 0)
      ensures name.Some? == Accepts(old(Answer()), 2 * NameUnits, 0)
      ensures name.Some? ==> |name.value| <= NameUnits && forall i :: 0 <= i < |name.value| ==> name.value[i] != 0
      ensures name.Some? && |old(Answer()).out| == 2 * NameUnits ==>
                name.value == Name(Units(Xored(old(Answer()).out, xorKey)))
    {
      name := CallName(IoctlCode.GetProcessName, Slots([xorKey, pid]));
    }

    /** `get_process_times`: the four decoded times. */
    method GetProcessTimes(pid: bv64) returns (times: Option<ProcessTimes>)
      modifies io
      ensures Sent(IoctlCode.GetProcessTimes, Slots([xorKey, pid]), 32, 0)
      ensures times.Some? == Accepts(old(Answer()), 32, 0)
      ensures times.Some? && |old(Answer()).out| == 32 ==>
                var d := Xored(old(Answer()).out, xorKey);
                times.value == ProcessTimes(Field(d, 0), Field(d, 1), Field(d, 2), Field(d, 3))
    {
      var ok, oup, raw := Call(IoctlCode.GetProcessTimes, Slots([xorKey, pid]), 32, true);
      if ok {
        var d := oup[..];
        times := Some(ProcessTimes(Field(d, 0), Field(d, 1), Field(d, 2), Field(d, 3)));
      } else {
        times := None;
      }
    }

    /** `get_peb_address`: not implemented; always 0. */
    function GetPebAddress(): (peb: bv64)
      ensures peb == 0
    {
      0
    }

    /** `get_process_exit_status`: the decoded `status`. */
    method GetProcessExitStatus(pid: bv64) returns (status: Option<bv64>)
      modifies io
      ensures Sent(IoctlCode.GetProcessExitStatus, Slots([xorKey, pid]), 8, 0)
      ensures status.Some? == Accepts(old(Answer()), 8, 0)
      ensures status.Some? && |old(Answer()).out| == 8 ==>
                status.value == Field(Xored(old(Answer()).out, xorKey), 0)
    {
      status := CallField(IoctlCode.GetProcessExitStatus, Slots([xorKey, pid]));
    }

    /** `wait_for_process`: the decoded `status`; the timeout is the
        backend's business. */
    method WaitForProcess(pid: bv64, timeout: bv64) returns (status: Option<bv64>)
      modifies io
      ensures Sent(IoctlCode.WaitForProcess, Slots([xorKey, pid, timeout]), 8, 0)
      ensures status.Some? == Accepts(old(Answer()), 8, 0)
      ensures status.Some? && |old(Answer()).out| == 8 ==>
                status.value == Field(Xored(old(Answer()).out, xorKey), 0)
    {
      status := CallField(IoctlCode.WaitForProcess, Slots([xorKey, pid, timeout]));
    }

    /** `wait_for_thread`. */
    method WaitForThread(tid: bv64, timeout: bv64) returns (status: Option<bv64>)
      modifies io
      ensures Sent(IoctlCode.WaitForThread, Slots([xorKey, tid, timeout]), 8, 0)
      ensures status.Some? == Accepts(old(Answer()), 8, 0)
      ensures status.Some? && |old(Answer()).out| == 8 ==>
                status.value == Field(Xored(old(Answer()).out, xorKey), 0)
    {
      status := CallField(IoctlCode.WaitForThread, Slots([xorKey, tid, timeout]));
    }

    /** `_get_physical_memory_address`: not implemented; always fails. */
    function GetPhysicalMemoryAddress(pid: bv64, address: bv64): (ok: bool)
      ensures !ok
    {
      false
    }

    /** `_write_physical_memory`: not implemented; always fails. */
    function WritePhysicalMemory(address: bv64, size: bv64, data: bv64): (ok: bool)
      ensures !ok
    {
      false
    }

    /** `get_process_base`: the decoded `base`. */
    method GetProcessBase(pid: bv64) returns (base: Option<bv64>)
      modifies io
      ensures Sent(IoctlCode.GetProcessBase, Slots([xorKey, pid]), 8, 0)
      ensures base.Some? == Accepts(old(Answer()), 8, 0)
      ensures base.Some? && |old(Answer()).out| == 8 ==> base.value == Field(Xored(old(Answer()).out, xorKey), 0)
    {
      base := CallField(IoctlCode.GetProcessBase, Slots([xorKey, pid]));
    }

    /** The request of `create_user_thread`: the security descriptor field
        is zero-initialised and, when a descriptor is given, overwritten with
        its first `sizeof(SECURITY_DESCRIPTOR)` bytes. */
    function ThreadRequest(pid: bv64, sd: Option<seq<bv8>>, suspended: bool, maxStack: bv64,
                           commitStack: bv64, start: bv64, param: bv64): (image: seq<bv8>)
      requires sd.Some? ==> |sd.value| >= SdBytes
      ensures |image| == 16 + SdBytes + 48
    {
      Slots([xorKey, pid])
      + (if sd.Some? then sd.value[..SdBytes] else seq(SdBytes, _ => 0))
      + Slots([Flag(sd.Some?), Flag(suspended), maxStack, commitStack, start, param])
    }

    /** The parts of a `create_user_thread` request image. */
    lemma ThreadRequestLayout(pid: bv64, sd: Option<seq<bv8>>, suspended: bool, maxStack: bv64,
                              commitStack: bv64, start: bv64, param: bv64)
      requires sd.Some? ==> |sd.value| >= SdBytes
      ensures var image := ThreadRequest(pid, sd, suspended, maxStack, commitStack, start, param);
              && image[..16] == Slots([xorKey, pid])
              && image[16..16 + SdBytes] == (if sd.Some? then sd.value[..SdBytes] else seq(SdBytes, _ => 0))
    {
    }

    /** The trailing slots of a `create_user_thread` request image. */
    lemma ThreadRequestTail(pid: bv64, sd: Option<seq<bv8>>, suspended: bool, maxStack: bv64,
                              commitStack: bv64, start: bv64, param: bv64)
      requires sd.Some? ==> |sd.value| >= SdBytes
      ensures ThreadRequest(pid, sd, suspended, maxStack, commitStack, start, param)[16 + SdBytes..16 + SdBytes + 48]
              == Slots([Flag(sd.Some?), Flag(suspended), maxStack, commitStack, start, param])
    {
    }

    /** A `create_user_thread` request reaches the backend byte for byte. */
    lemma ThreadRequestArrives(pid: bv64, sd: Option<seq<bv8>>, suspended: bool, maxStack: bv64,
                              commitStack: bv64, start: bv64, param: bv64)
      requires sd.Some? ==> |sd.value| >= SdBytes
      ensures var image := ThreadRequest(pid, sd, suspended, maxStack, commitStack, start, param);
              Unscramble(Encrypted(image, xorKey)) == image
    {
      var image := ThreadRequest(pid, sd, suspended, maxStack, commitStack, start, param);
      ThreadRequestLayout(pid, sd, suspended, maxStack, commitStack, start, param);
      SlotsBytes([xorKey, pid], 0);
      assert image[..8] == Slots([xorKey, pid])[..8];
      KeyedRoundTrip(image, xorKey);
    }

    /** What the backend reads first from an encrypted `create_user_thread`
        request: the key and the process id. */
    lemma ThreadRequestTarget(pid: bv64, sd: Option<seq<bv8>>, suspended: bool, maxStack: bv64,
                              commitStack: bv64, start: bv64, param: bv64)
      requires sd.Some? ==> |sd.value| >= SdBytes
      ensures var got := Unscramble(Encrypted(ThreadRequest(pid, sd, suspended, maxStack, commitStack, start, param), xorKey));
              Field(got, 0) == xorKey && Field(got, 1) == pid
    {
      ThreadRequestArrives(pid, sd, suspended, maxStack, commitStack, start, param);
      ThreadRequestLayout(pid, sd, suspended, maxStack, commitStack, start, param);
      SlotsFrom(ThreadRequest(pid, sd, suspended, maxStack, commitStack, start, param), 0, [xorKey, pid]);
    }

    /** The security descriptor the backend reads from an encrypted
        `create_user_thread` request: the descriptor's first bytes, or zeros
        when none is given, and a flag saying whether one was given. */
    lemma ThreadRequestDescriptor(pid: bv64, sd: Option<seq<bv8>>, suspended: bool, maxStack: bv64,
                              commitStack: bv64, start: bv64, param: bv64)
      requires sd.Some? ==> |sd.value| >= SdBytes
      ensures var got := Unscramble(Encrypted(ThreadRequest(pid, sd, suspended, maxStack, commitStack, start, param), xorKey));
              && got[16..16 + SdBytes] == (if sd.Some? then sd.value[..SdBytes] else seq(SdBytes, _ => 0))
              && Field(got, 7) == Flag(sd.Some?)
    {
      ThreadRequestArrives(pid, sd, suspended, maxStack, commitStack, start, param);
      ThreadRequestLayout(pid, sd, suspended, maxStack, commitStack, start, param);
      ThreadRequestTail(pid, sd, suspended, maxStack, commitStack, start, param);
      SlotsFrom(ThreadRequest(pid, sd, suspended, maxStack, commitStack, start, param), 7,
                [Flag(sd.Some?), Flag(suspended), maxStack, commitStack, start, param]);
    }

    /** The flags and thread parameters the backend reads from an encrypted
        `create_user_thread` request: slot 7 says whether a descriptor was
        given, and slots 8 to 12 are the remaining arguments as passed. */
    lemma ThreadRequestParameters(pid: bv64, sd: Option<seq<bv8>>, suspended: bool, maxStack: bv64,
                                  commitStack: bv64, start: bv64, param: bv64, k: nat)
      requires sd.Some? ==> |sd.value| >= SdBytes
      requires 7 <= k < 13
      ensures var got := Unscramble(Encrypted(ThreadRequest(pid, sd, suspended, maxStack, commitStack, start, param), xorKey));
              Field(got, k) == [Flag(sd.Some?), Flag(suspended), maxStack, commitStack, start, param][k - 7]
    {
      ThreadRequestArrives(pid, sd, suspended, maxStack, commitStack, start, param);
      ThreadRequestTail(pid, sd, suspended, maxStack, commitStack, start, param);
      SlotsAt(ThreadRequest(pid, sd, suspended, maxStack, commitStack, start, param), 7,
              [Flag(sd.Some?), Flag(suspended), maxStack, commitStack, start, param], k - 7);
    }

    /** `create_user_thread`: the decoded process and thread ids. */
    method CreateUserThread(pid: bv64, sd: Option<seq<bv8>>, suspended: bool, maxStack: bv64,
                            commitStack: bv64, start: bv64, param: bv64) returns (ids: Option<(bv64, bv64)>)
      requires sd.Some? ==> |sd.value| >= SdBytes
      modifies io
      ensures Sent(IoctlCode.CreateUserThread,
                   ThreadRequest(pid, sd, suspended, maxStack, commitStack, start, param), 16, 0)
      ensures ids.Some? == Accepts(old(Answer()), 16, 0)
      ensures ids.Some? && |old(Answer()).out| == 16 ==>
                var d := Xored(old(Answer()).out, xorKey);
                ids.value == (Field(d, 0), Field(d, 1))
    {
      var ok, oup, raw := Call(IoctlCode.CreateUserThread,
                               ThreadRequest(pid, sd, suspended, maxStack, commitStack, start, param), 16, true);
      ids := if ok then Some((Field(oup[..], 0), Field(oup[..], 1))) else None;
    }

    /** A call whose output struct is an address and a size, decoded. */
    method CallRegion(code: IoctlCode, image: seq<bv8>) returns (region: Option<Region>)
      requires |image| >= 8
      modifies io
      ensures Sent(code, image, 16, 0)
      ensures region.Some? == Accepts(old(Answer()), 16, 0)
      ensures region.Some? && |old(Answer()).out| == 16 ==>
                var d := Xored(old(Answer()).out, xorKey);
                region.value == Region(Field(d, 0), Field(d, 1))
    {
      var ok, oup, raw := Call(code, image, 16, true);
      region := if ok then Some(Region(Field(oup[..], 0), Field(oup[..], 1))) else None;
    }

    /** `allocate_virtual_memory`: the decoded base and size allocated. */
    method AllocateVirtualMemory(pid: bv64, address: bv64, size: bv64, allocationType: bv64, protect: bv64)
      returns (block: Option<Region>)
      modifies io
      ensures Sent(IoctlCode.AllocateVirtualMemory,
                   Slots([xorKey, pid, address, size, allocationType, protect]), 16, 0)
      ensures block.Some? == Accepts(old(Answer()), 16, 0)
      ensures block.Some? && |old(Answer()).out| == 16 ==>
                var d := Xored(old(Answer()).out, xorKey);
                block.value == Region(Field(d, 0), Field(d, 1))
    {
      block := CallRegion(IoctlCode.AllocateVirtualMemory,
                              Slots([xorKey, pid, address, size, allocationType, protect]));
    }

    /** `free_virtual_memory`: the decoded base and size freed. */
    method FreeVirtualMemory(pid: bv64, address: bv64, size: bv64, freeType: bv64)
      returns (freed: Option<Region>)
      modifies io
      ensures Sent(IoctlCode.FreeVirtualMemory, Slots([xorKey, pid, address, size, freeType]), 16, 0)
      ensures freed.Some? == Accepts(old(Answer()), 16, 0)
      ensures freed.Some? && |old(Answer()).out| == 16 ==>
                var d := Xored(old(Answer()).out, xorKey);
                freed.value == Region(Field(d, 0), Field(d, 1))
    {
      freed := CallRegion(IoctlCode.FreeVirtualMemory, Slots([xorKey, pid, address, size, freeType]));
    }

    /** `protect_virtual_memory`: the decoded base and size protected and
        the previous protection. */
    method ProtectVirtualMemory(pid: bv64, address: bv64, size: bv64, protect: bv64)
      returns (changed: Option<(Region, bv64)>)
      modifies io
      ensures Sent(IoctlCode.ProtectVirtualMemory, Slots([xorKey, pid, address, size, protect]), 24, 0)
      ensures changed.Some? == Accepts(old(Answer()), 24, 0)
      ensures changed.Some? && |old(Answer()).out| == 24 ==>
                var d := Xored(old(Answer()).out, xorKey);
                changed.value == (Region(Field(d, 0), Field(d, 1)), Field(d, 2))
    {
      var ok, oup, raw := Call(IoctlCode.ProtectVirtualMemory, Slots([xorKey, pid, address, size, protect]), 24, true);
      if ok {
        var d := oup[..];
        changed := Some((Region(Field(d, 0), Field(d, 1)), Field(d, 2)));
      } else {
        changed := None;
      }
    }

    /** `run_driver_entry`: the decoded `ret_val`; a failed call returns
        `false` into the optional, that is, a present 0. */
    method RunDriverEntry(entry: bv64, arg1: bv64, arg2: bv64) returns (ret: Option<bv64>)
      modifies io
      ensures Sent(IoctlCode.RunDriverEntry, Slots([xorKey, entry, arg1, arg2]), 8, 0)
      ensures ret.Some?
      ensures !Accepts(old(Answer()), 8, 0) ==> ret.value == 0
      ensures Accepts(old(Answer()), 8, 0) && |old(Answer()).out| == 8 ==>
                ret.value == Field(Xored(old(Answer()).out, xorKey), 0)
    {
      var v := CallField(IoctlCode.RunDriverEntry, Slots([xorKey, entry, arg1, arg2]));
      ret := if v.Some? then v else Some(0);
    }

    /** `protect_process`. */
    method ProtectProcess(pid: bv64) returns (ok: bool)
      modifies io
      ensures Sent(IoctlCode.ProtectProcess, Slots([xorKey, pid]), 0, 0)
      ensures ok == Accepts(old(Answer()), 0, 0)
    {
      var n;
      ok, n := Send(IoctlCode.ProtectProcess, Slots([xorKey, pid]), null, 0, null, 0);
    }

    /** `delete_unloaded_drivers`. A pattern that does not fit the name
        field with its terminator is refused before anything is sent.
        Otherwise the request struct, left uninitialised, gets the key, the
        two addresses and the pattern's code units followed by a zero; the
        rest of the name field keeps whatever it held (`image` is the struct
        as filled). On success `ndelete` is returned as the backend wrote it,
        without decoding. */
    method DeleteUnloadedDrivers(rvaUnloaded: bv64, rvaLast: bv64, pattern: seq<bv16>)
      returns (deleted: Option<bv64>, ghost image: seq<bv8>)
      modifies io
      ensures |pattern| >= NameUnits ==>
                deleted.None? && io.sent == old(io.sent) && io.pending == old(io.pending)
      ensures |pattern| < NameUnits ==>
                |image| == 24 + 2 * NameUnits
                && image[..24] == Slots([xorKey, rvaUnloaded, rvaLast])
                && image[24..24 + 2 * |pattern| + 2] == UnitsBytes(pattern + [0])
                && Sent(IoctlCode.DeleteUnloadedDrivers, image, 8, 0)
                && deleted.Some? == Accepts(old(Answer()), 8, 0)
                && (deleted.Some? && |old(Answer()).out| == 8 ==> deleted.value == Field(old(Answer()).out, 0))
    {
      var inp := new bv8[24 + 2 * NameUnits];
      ghost var uninitInput := inp[..];
      StoreWord(inp, 0, xorKey);
      StoreWord(inp, 8, rvaUnloaded);
      StoreWord(inp, 16, rvaLast);
      HeaderSlots(uninitInput, xorKey, rvaUnloaded, rvaLast);
      if |pattern| >= NameUnits {
        return None, inp[..];
      }
      ghost var header := inp[..24];
      WriteName(inp, 24, pattern);
      assert inp[..24] == header;
      image := inp[..];
      var oup := new bv8[8];
      ghost var uninit := oup[..];
      var ok, n := SendArray(IoctlCode.DeleteUnloadedDrivers, inp, oup, 8, null, 0);
      if ok {
        assert |old(Answer()).out| == 8 ==> oup[..] == old(Answer()).out;
        deleted := Some(Field(oup[..], 0));
      } else {
        deleted := None;
      }
    }

    /** The single-request branch of `force_write_process_memory`. */
    method ForceWriteOnce(pid: bv64, address: bv64, size: nat, data: bv64) returns (ok: bool)
      requires size <= Chunk
      modifies io
      ensures ok == Accepts(Next(old(io.pending)), 0, 0)
      ensures io.sent == old(io.sent) + [ChunkRequest(xorKey, pid, address, size, data)]
      ensures io.pending == Rest(old(io.pending))
    {
      var n;
      ok, n := Send(IoctlCode.ForceWriteProcessMemory, Slots([xorKey, pid, address, size as bv64, data]),
                    null, 0, null, 0);
    }

    /** One pass of the chunk loop: the chunk of `min(left, 0x1000)` bytes at
        `r` from `pd` is sent; when it is accepted, the loop goes on from the
        next 0x1000-byte step with that many bytes fewer to go. `whole` is
        what the entire loop does, `done` the bytes confirmed so far. */
    method SendChunk(pid: bv64, r: bv64, pd: bv64, left: nat, done: nat,
                     ghost send: (bv64, nat, bv64) -> Request, ghost whole: Trace)
      returns (ok: bool, r': bv64, pd': bv64, left': nat)
      requires left > 0
      requires forall a, n, d {:trigger ChunkRequest(xorKey, pid, a, n, d)} ::
                 send(a, n, d) == ChunkRequest(xorKey, pid, a, n, d)
      requires After(io.sent, done, Drive(send, r, pd, left, io.pending)) == whole
      modifies io
      ensures left' < left
      ensures ok ==> After(io.sent, done + (left - left'), Drive(send, r', pd', left', io.pending)) == whole
      ensures !ok ==> Trace(io.sent, io.pending, done, false) == whole
    {
      var n := Min(left, Chunk);
      DriveStep(send, r, pd, left, io.pending, io.sent, done);
      ok := ForceWriteOnce(pid, r, n, pd);
      r', pd', left' := r + 0x1000, pd + 0x1000, left - n;
    }

    /** The chunk loop of `force_write_process_memory` (corrected): from
        `address` and `data` with `size` bytes to go, it sends chunks of
        `min(left, 0x1000)` bytes, advancing the target address and the
        source pointer by 0x1000 and the remaining count by the length just
        sent, until nothing remains or a chunk is refused. It returns the
        count still remaining. */
    method WriteChunks(pid: bv64, address: bv64, size: nat, data: bv64, ghost send: (bv64, nat, bv64) -> Request)
      returns (left: nat)
      requires forall a, n, d {:trigger ChunkRequest(xorKey, pid, a, n, d)} ::
                 send(a, n, d) == ChunkRequest(xorKey, pid, a, n, d)
      modifies io
      ensures left <= size
      ensures Trace(io.sent, io.pending, size - left, left == 0)
           == After(old(io.sent), 0, Drive(send, address, data, size, old(io.pending)))
    {
      ghost var whole := After(io.sent, 0, Drive(send, address, data, size, io.pending));
      var r := address;
      var pd := data;
      left := size;
      while left > 0
        invariant left <= size
        invariant After(io.sent, size - left, Drive(send, r, pd, left, io.pending)) == whole
        decreases left
      {
        var chunkOk, r', pd', left' := SendChunk(pid, r, pd, left, size - left, send, whole);
        if !chunkOk {
          return;
        }
        r, pd, left := r', pd', left';
      }
      assert io.sent + [] == io.sent;
    }

    /** `force_write_process_memory`, with the loop's two defects corrected
        (see `ChunkedWrite`): a write of at most 0x1000 bytes is one request;
        a longer one goes through the chunk loop, each chunk re-entering with
        at most 0x1000 bytes, which is the single-request branch. The result
        is success exactly when nothing remains, and `written` is the number
        of bytes confirmed. */
    method ForceWriteProcessMemory(pid: bv64, address: bv64, size: nat, data: bv64)
      returns (ok: bool, written: nat)
      modifies io
      ensures var o := ForceWrite(size, Verdicts(old(io.pending)));
              ok == o.ok && written == o.confirmed
              && io.sent == old(io.sent) + ChunkRequests(xorKey, pid, address, data, o.lens)
              && io.pending == Consume(old(io.pending), |o.lens|)
    {
      if size <= Chunk {
        ok := ForceWriteOnce(pid, address, size, data);
        written := if ok then size else 0;
      } else {
        ghost var send := Sender(xorKey, pid);
        DriveRuns(send, address, data, size, io.pending);
        DriveConsumes(send, address, data, size, io.pending);
        DriveSends(send, address, data, size, io.pending);
        var left := WriteChunks(pid, address, size, data, send);
        ok := left == 0;
        written := size - left;
      }
    }
  }
}
