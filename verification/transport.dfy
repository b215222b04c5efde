/** The driver's device channel as the client sees it: one `ioctl` call sends
    an input buffer under a control code and gets back a success flag and the
    bytes the backend wrote. The backend is not part of this model; it is
    represented by a script of the answers it gives, consumed one per call. */
module Transport {

  import opened Codec

  /** The control codes the client uses, one per request kind. */
  datatype IoctlCode =
    | QuerySystemInformation | ReadProcessMemory | WriteProcessMemory | AcquireLock
    | ReadSystemMemory | WriteSystemMemory | AllocateNonpagedMemory
    | ForceWriteProcessMemory | QueryVirtualMemory | GetMappedFile | GetProcessBase
    | GetProcessTimes | GetProcessName | GetProcessExitStatus | WaitForProcess
    | WaitForThread | QueryThreadInformation | CreateUserThread
    | AllocateVirtualMemory | FreeVirtualMemory | ProtectVirtualMemory
    | DeleteUnloadedDrivers | RunDriverEntry | ProtectProcess

  /** One answer of the backend: whether it succeeded, the bytes it returns
      in the output buffer, and the bytes it writes into the client buffer
      whose address travels inside the request (read requests). */
  datatype Reply = Reply(ok: bool, out: seq<bv8>, mem: seq<bv8>)

  /** One call as the backend receives it: the code, the input bytes exactly
      as sent, and the capacities of the output buffer and client buffer. */
  datatype Request = Request(code: IoctlCode, input: seq<bv8>, outCap: nat, memCap: nat)

  /** The answer the next call gets; with the script exhausted, a failure. */
  function Next(pending: seq<Reply>): Reply
  {
    if pending == [] then Reply(false, [], []) else pending[0]
  }

  /** The script after one call. */
  function Rest(pending: seq<Reply>): (r: seq<Reply>)
    ensures |r| == if pending == [] then 0 else |pending| - 1
  {
    if pending == [] then [] else pending[1..]
  }

  /** A call succeeds when the backend reports success and its data fits the
      buffers the caller offered. */
  predicate Accepts(r: Reply, outCap: nat, memCap: nat)
  {
    r.ok && |r.out| <= outCap && |r.mem| <= memCap
  }

  class Device {
    /** The backend's remaining answers, in order. */
    var pending: seq<Reply>
    /** Every request sent so far, in order. */
    var sent: seq<Request>

    constructor(script: seq<Reply>)
      ensures pending == script && sent == []
    {
      pending := script;
      sent := [];
    }

    /** `ioctl(code, input, sizeof input, out, &out_size)`. `out` (capacity
        `outCap`) and `mem` (capacity `memCap`) may be null. On success the
        backend's bytes are written at the start of each buffer and `outSize`
        is the number of output bytes; on failure nothing is written. */
    method Ioctl(code: IoctlCode, input: array<bv8>, out: array?<bv8>, outCap: nat,
                 mem: array?<bv8>, memCap: nat) returns (ok: bool, outSize: nat)
      requires out == null ==> outCap == 0
      requires out != null ==> outCap <= out.Length && out != input
      requires mem == null ==> memCap == 0
      requires mem != null ==> memCap <= mem.Length && mem != input && mem != out
      modifies this, out, mem
      ensures sent == old(sent) + [Request(code, old(input[..]), outCap, memCap)]
      ensures pending == Rest(old(pending))
      ensures ok == Accepts(Next(old(pending)), outCap, memCap)
      ensures ok ==> outSize == |Next(old(pending)).out|
      ensures !ok ==> outSize == 0
      ensures out != null ==>
                out[..] == if ok then PutBytes(old(out[..]), 0, Next(old(pending)).out) else old(out[..])
      ensures mem != null ==>
                mem[..] == if ok then PutBytes(old(mem[..]), 0, Next(old(pending)).mem) else old(mem[..])
    {
      var r := Next(pending);
      sent := sent + [Request(code, input[..], outCap, memCap)];
      pending := Rest(pending);
      ok := Accepts(r, outCap, memCap);
      outSize := 0;
      if ok {
        outSize := |r.out|;
        if out != null {
          forall i | 0 <= i < |r.out| {
            out[i] := r.out[i];
          }
          assert out[..] == PutBytes(old(out[..]), 0, r.out);
        }
        if mem != null {
          forall i | 0 <= i < |r.mem| {
            mem[i] := r.mem[i];
          }
          assert mem[..] == PutBytes(old(mem[..]), 0, r.mem);
        }
      }
    }
  }
}
