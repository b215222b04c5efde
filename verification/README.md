# pkn driver client, modelled in Dafny

This project models `PknDriver`, the user-mode side of the pkn kernel driver
(`core/driver_control/PknDriver.cpp`). Each operation follows the same steps:

- It fills a request struct whose leading field is the session key.
- It scrambles the struct in place with `xor_memory`: the `EncryptInputByXor`
  macro transforms everything after the key.
- It sends the struct to the device with one `ioctl`.
- On success, it unscrambles the output struct (`DecryptOutputByXor`) and
  returns the fields the caller asked for.

The modules follow that structure:

- `Codec` (`codec.dfy`) holds `xor_memory` over a byte array, word by word
  with the trailing partial word left alone, and the two macros. It has a
  reference definition (`Xored`, `XorRange`) and the codec's laws:
  - the transform is an involution;
  - the backend reads back the key and every request field exactly;
  - a decoded output field is the raw field XORed with the key.
- `Transport` (`transport.dfy`) is the device. It records every request
  sent and answers from a script of replies, one per call.
- `WideString` (`strings.dfy`) covers the wide-character name fields:
  - the pattern `delete_unloaded_drivers` copies in with its terminator;
  - the zero-terminated scan of `get_mapped_file` and `get_process_name`.
- `ChunkedWrite` (`chunked.dfy`) covers the chunking of
  `force_write_process_memory` on values:
  - the chunk plan;
  - the loop as written;
  - the corrected loop and its properties.
- `Driver` (`driver.dfy`) holds the class `PknDriver`, with one method per
  operation. The forced-write loop in it is proved to send, confirm and
  report what `ChunkedWrite` says.

Quirks of the source are kept as written:

- `acquire_lock` returns the `succeed` field undecoded.
- `delete_unloaded_drivers` returns `ndelete` undecoded, and refuses a
  pattern that does not fit its field with the terminator.
- A failed `run_driver_entry` returns `false` into its optional, which is
  a present 0.
- `free_nonpaged_memory`, `get_peb_address` and the two physical-memory
  calls are constants.
- The two-phase queries send a size-only request when no buffer is given.
  `query_thread_information` fills no size-only flag in its request
  (`PknDriver.cpp:383-387`), unlike `query_system_information` (line 42).
  Both are modelled as written.

Every scalar field of a request or output struct is one 8-byte
little-endian slot, in the order the source fills the struct.

## Model

| member | source | states |
|---|---|---|
| Codec.Xored | core/driver_control/PknDriver.cpp:22-28 | reference transform of a whole region: every whole 8-byte word XORed with the key (laws below); the length is kept |
| Codec.XorRange | core/driver_control/PknDriver.cpp:22-28 | the transform applied to `size` bytes from `start`, the bytes around them unchanged; the length is kept |
| Codec.Encrypted | core/driver_control/PknDriver.cpp:14 | the request after `EncryptInputByXor`: the key, then the transform of the payload; the length is kept |
| Codec.Unscramble | core/driver_control/PknDriver.cpp:14 | what the backend does with a request: the leading field is kept and holds the key that undoes the payload's transform |
| Codec.WordOfBytes | core/driver_control/PknDriver.cpp:26 | reading back the 8 bytes a word is stored in gives the word |
| Codec.BytesOfWord | core/driver_control/PknDriver.cpp:26 | storing the word read from 8 bytes gives back those bytes |
| Codec.WordOfXor | core/driver_control/PknDriver.cpp:26 | a 64-bit XOR with the key is a byte-wise XOR with the key's little-endian bytes |
| Codec.StoreXoredWord | core/driver_control/PknDriver.cpp:26 | `*(uint64_t *)p ^= key` leaves each byte XORed with the key byte at its position |
| Codec.Covered | core/driver_control/PknDriver.cpp:24 | the loop covers a multiple of 8 bytes, at most the size, leaving fewer than 8 |
| Codec.XoredWord | core/driver_control/PknDriver.cpp:24-27 | word k of a transformed region is the old word k XORed with the key |
| Codec.XoredWordBytes | core/driver_control/PknDriver.cpp:24-27 | the bytes of word k of a transformed region are the old bytes XORed with the key's bytes |
| Codec.XoredTail | core/driver_control/PknDriver.cpp:24 | the trailing `size % 8` bytes of a region are left unchanged |
| Codec.XoredAppend | core/driver_control/PknDriver.cpp:24-27 | splitting a region after a whole number of words splits the transform |
| Codec.XoredInvolution | core/driver_control/PknDriver.cpp:22-28 | applying `xor_memory` twice with the same key restores the region |
| Codec.XorRangeInvolution | core/driver_control/PknDriver.cpp:22-28 | applying `xor_memory` twice with the same key restores the whole buffer, the bytes outside the region included |
| Codec.XorRangeGrow | core/driver_control/PknDriver.cpp:24-27 | one more loop step XORs exactly the next word and leaves every other byte |
| Codec.XorWordAt | core/driver_control/PknDriver.cpp:26 | the in-place word XOR replaces those 8 bytes by their XOR with the key bytes and nothing else |
| Codec.StoreWord | core/driver_control/PknDriver.cpp:545-547 | a field store (and the `xor_val` store of line 14) writes the little-endian bytes of the word at its offset and leaves every other byte as it was |
| Codec.PutWordLoad | core/driver_control/PknDriver.cpp:545-547 | a word stored at an offset loads back as itself, and no byte outside those 8 changes |
| Codec.XorNextWord | core/driver_control/PknDriver.cpp:24-27 | the loop body keeps the invariant: the first `i + 8` bytes of the region are transformed |
| Codec.XorRangeDone | core/driver_control/PknDriver.cpp:24 | when fewer than 8 bytes remain, the loop's state is the whole region's transform |
| Codec.XorMemory | core/driver_control/PknDriver.cpp:22-28 | the array after the call is the reference transform of the region, with the bytes around it unchanged |
| Codec.EncryptInput | core/driver_control/PknDriver.cpp:14 | the request becomes the key followed by the transform of everything after the leading field |
| Codec.DecryptOutput | core/driver_control/PknDriver.cpp:15 | the output struct becomes its transform as a whole |
| Codec.EncryptedFields | core/driver_control/PknDriver.cpp:14 | on the wire the leading field is the key, and every later field is the original field XORed with the key |
| Codec.RequestRoundTrip | core/driver_control/PknDriver.cpp:14 | taking the key from the leading field and undoing the transform recovers the request payload exactly |
| Codec.KeyedRoundTrip | core/driver_control/PknDriver.cpp:14 | a request whose leading field already holds the key, as every request struct does, reaches the backend byte for byte |
| Codec.UnscrambledTail | core/driver_control/PknDriver.cpp:14 | after the leading field the backend reads the bytes the client laid out |
| Codec.SlotsField | core/driver_control/PknDriver.cpp:73 | reading slot k of a struct filled field by field gives back field k |
| Codec.SentFields | core/driver_control/PknDriver.cpp:14 | the backend reads the key from field 0 and every other request field as the client filled it |
| Codec.DecodeField | core/driver_control/PknDriver.cpp:15 | a decoded output field is the raw field XORed with the key |
| Codec.ResponseRoundTrip | core/driver_control/PknDriver.cpp:15 | fields the backend lays out and scrambles are decoded back to exactly those fields |
| Codec.DecodedReplyField | core/driver_control/PknDriver.cpp:15 | a decoded field within the bytes the backend wrote is that field XORed with the key, whatever follows |
| Codec.DecodedPrefixField | core/driver_control/PknDriver.cpp:63 | decoding the first `out_size` bytes of a buffer decodes each whole field within them |
| Codec.DecodedPutSlot | core/driver_control/PknDriver.cpp:63 | after a reply is copied into a buffer and its `out_size` bytes are decoded, a slot within the reply holds that slot of the decoded reply, whatever the buffer held before |
| Transport.Device.Ioctl | core/driver_control/PknDriver.cpp:50 | one call records the request, consumes one answer, succeeds when the answer succeeds and fits the buffers, and writes only on success |
| ChunkedWrite.Run | core/driver_control/PknDriver.cpp:189-197 | the corrected loop never confirms more than was asked, and succeeds exactly when everything was confirmed |
| ChunkedWrite.ForceWrite | core/driver_control/PknDriver.cpp:175-199 | the corrected write: the first request carries the smaller of the size and 0x1000, and success needs the first answer to succeed |
| ChunkedWrite.WrapSub | core/driver_control/PknDriver.cpp:195 | the 64-bit unsigned subtraction: exact when no borrow, and 2^64 more than the difference otherwise |
| ChunkedWrite.AsWrittenRun | core/driver_control/PknDriver.cpp:189-197 | the loop as written: it sends at most one chunk past the leading accepted answers, and confirms at most 0x1000 bytes per accepted answer |
| ChunkedWrite.AsWrittenForceWrite | core/driver_control/PknDriver.cpp:175-199 | the write as written: the first request carries the smaller of the size and 0x1000, and success needs the first answer to succeed |
| ChunkedWrite.Min | core/driver_control/PknDriver.cpp:191 | the chunk length is the smaller of the remaining count and 0x1000 |
| ChunkedWrite.ChunksShape | core/driver_control/PknDriver.cpp:189-196 | the chunks add up to the size; each is non-empty and at most 0x1000; all but the last are exactly 0x1000 |
| ChunkedWrite.Chunks | core/driver_control/PknDriver.cpp:186-196 | with every chunk accepted, the loop sends one chunk per started 0x1000 bytes: `ceil(left / 0x1000)` chunks |
| ChunkedWrite.Plan | core/driver_control/PknDriver.cpp:178-196 | a write of at most 0x1000 bytes is one request, even an empty one; a larger one is `ceil(size / 0x1000)` requests |
| ChunkedWrite.PlanOf10000 | core/driver_control/PknDriver.cpp:177-196 | 10000 bytes go out as 4096, 4096 and 1808 |
| ChunkedWrite.RunSendsPlan | core/driver_control/PknDriver.cpp:189-196 | the corrected loop sends the planned chunks in order, up to and including the first refused one |
| ChunkedWrite.RunConfirmsPlan | core/driver_control/PknDriver.cpp:189-197 | it confirms the sum of the chunks that succeeded, and succeeds exactly when every planned chunk succeeded |
| ChunkedWrite.ForceWriteConfirms | core/driver_control/PknDriver.cpp:175-199 | the corrected write succeeds only when the whole size was confirmed; a refused non-empty write confirms less; the chunks sent are a prefix of the plan |
| ChunkedWrite.AsWrittenPartialSuccess | core/driver_control/PknDriver.cpp:197 | as written, a 10000-byte write whose second chunk is refused reports success after 4096 bytes; the corrected one reports failure |
| ChunkedWrite.AsWrittenOverrun | core/driver_control/PknDriver.cpp:195 | as written, the count wraps after the short last chunk and the loop sends 4096-byte chunks past the end |
| ChunkedWrite.CorrectedStops | core/driver_control/PknDriver.cpp:189-197 | on the answers that make the loop as written overrun, the corrected write sends exactly the planned 4096, 4096 and 1808 bytes and succeeds |
| ChunkedWrite.AdvanceShift | core/driver_control/PknDriver.cpp:193-194 | starting one chunk further moves every later chunk's address one chunk further |
| ChunkedWrite.AdvanceAdd | core/driver_control/PknDriver.cpp:193-194 | advancing the address by `j` chunks and then by `k` more is advancing it by `j + k` chunks |
| ChunkedWrite.ChunkRequest | core/driver_control/PknDriver.cpp:180-182 | one chunk is one forced-write request with no output buffer: a 40-byte `WriteProcessMemoryInput` whose leading slot is the plain key |
| ChunkedWrite.ChunkRequestFields | core/driver_control/PknDriver.cpp:180-181 | the backend reads a chunk request as the key, the pid, the target address, the length modulo 2^64 and the source pointer |
| ChunkedWrite.SendAt | core/driver_control/PknDriver.cpp:191-194 | request k goes to the address and source pointer advanced k times by 0x1000, with chunk k's length |
| ChunkedWrite.ChunkRequestAt | core/driver_control/PknDriver.cpp:180-194 | forced-write request k is the single-request struct for chunk k at the advanced address and pointer |
| WideString.UnitsRoundTrip | core/driver_control/PknDriver.cpp:552 | the bytes of copied code units read back as those units, whatever follows |
| WideString.FirstZero | core/driver_control/PknDriver.cpp:228 | the scan position is the first zero unit, or the capacity when there is none |
| WideString.Name | core/driver_control/PknDriver.cpp:228-231 | the name is the field's prefix before its first zero unit; it holds no zero |
| WideString.NameRoundTrip | core/driver_control/PknDriver.cpp:552-553 | a zero-free name written with its terminator reads back as itself |
| WideString.WriteName | core/driver_control/PknDriver.cpp:552-553 | the pattern's units and a zero unit are written at the field and nothing else changes |
| WideString.NameStep | core/driver_control/PknDriver.cpp:228 | a non-zero unit keeps the scan going; a zero unit ends the name there |
| WideString.ReadName | core/driver_control/PknDriver.cpp:228-231 | the units copied are exactly the field's name |
| Driver.HeaderSlots | core/driver_control/PknDriver.cpp:545-547 | the key and the two addresses stored one by one fill the first three slots |
| Driver.WrittenName | core/driver_control/PknDriver.cpp:548-553 | the name field of a `delete_unloaded_drivers` request reads back as the zero-free pattern |
| Driver.DriveStep | core/driver_control/PknDriver.cpp:189-196 | one pass of the loop either sends a chunk and goes on 0x1000 further, or sends it and ends in failure |
| Driver.DriveBounds | core/driver_control/PknDriver.cpp:186-196 | the loop confirms at most the bytes remaining, succeeds exactly when it confirms all of them, and sends at most one request more than there are answers |
| Driver.DriveRuns | core/driver_control/PknDriver.cpp:189-197 | the loop against a script confirms and reports what the corrected run does on the script's verdicts |
| Driver.DriveConsumes | core/driver_control/PknDriver.cpp:189-196 | the loop consumes one answer per chunk of the corrected run on the script's verdicts |
| Driver.DriveSends | core/driver_control/PknDriver.cpp:189-196 | the loop sends exactly the requests for the corrected run's chunks |
| Driver.PknDriver.SendArray | core/driver_control/PknDriver.cpp:14 | the request goes out encrypted, one answer is consumed, and the buffers receive the reply only on success |
| Driver.PknDriver.Send | core/driver_control/PknDriver.cpp:44-50 | a struct image is encrypted and sent, with the same outcome as above |
| Driver.PknDriver.Call | core/driver_control/PknDriver.cpp:205-209 | an uninitialised output struct is sent and, on success, decoded; with a full reply it is the reply's transform |
| Driver.PknDriver.DecodeWord | core/driver_control/PknDriver.cpp:128-129 | decoding an 8-byte output struct gives its field XORed with the key |
| Driver.PknDriver.CallField | core/driver_control/PknDriver.cpp:242-251 | a one-field output is present exactly on success and is the decoded field |
| Driver.PknDriver.Query | core/driver_control/PknDriver.cpp:44-68 | size only: the raw 4-byte count on success. With a buffer: on success the reported `out_size` bytes are decoded and their count is returned; on failure nothing changes |
| Driver.PknDriver.QuerySystemInformation | core/driver_control/PknDriver.cpp:30-69 | the request carries the class, the size and the size-only flag; the rest as in Query |
| Driver.PknDriver.QueryThreadInformation | core/driver_control/PknDriver.cpp:381-412 | the request carries the thread id, the class and the size (no flag); the rest as in Query |
| Driver.PknDriver.GetTebAddress | core/driver_control/PknDriver.cpp:414-433 | present exactly on success; with a full reply it is the decoded `TebBaseAddress` slot of the reply |
| Driver.PknDriver.ReadProcessMemory | core/driver_control/PknDriver.cpp:71-82 | on success, `size` bytes of the buffer are decoded after the backend's copy; on failure it is untouched |
| Driver.PknDriver.WriteProcessMemory | core/driver_control/PknDriver.cpp:84-95 | the result is the call's success; every field after the key, the data pointer included, is scrambled; the data it points at is not scrambled and is not modelled |
| Driver.PknDriver.AcquireLock | core/driver_control/PknDriver.cpp:97-112 | true only on success, and then exactly when the raw, undecoded `succeed` field is non-zero |
| Driver.PknDriver.ReadSystemMemory | core/driver_control/PknDriver.cpp:114-132 | the buffer as in ReadProcessMemory; the decoded `bytesread` is present exactly on success |
| Driver.PknDriver.WriteSystemMemory | core/driver_control/PknDriver.cpp:134-151 | the decoded `byteswritten`, present exactly on success |
| Driver.PknDriver.AllocateNonpagedMemory | core/driver_control/PknDriver.cpp:153-168 | the decoded address, present exactly on success |
| Driver.PknDriver.FreeNonpagedMemory | core/driver_control/PknDriver.cpp:170-173 | always fails |
| Driver.PknDriver.VirtualQuery | core/driver_control/PknDriver.cpp:201-214 | the decoded `MEMORY_BASIC_INFORMATION`, present exactly on success |
| Driver.PknDriver.CallName | core/driver_control/PknDriver.cpp:222-233 | on success, the decoded field's units before the first zero, at most the field's capacity and zero-free |
| Driver.PknDriver.GetMappedFile | core/driver_control/PknDriver.cpp:216-236 | the mapped file's path as in CallName |
| Driver.PknDriver.GetProcessName | core/driver_control/PknDriver.cpp:274-294 | the process name as in CallName |
| Driver.PknDriver.GetProcessTimes | core/driver_control/PknDriver.cpp:255-272 | the four decoded times, present exactly on success |
| Driver.PknDriver.GetPebAddress | core/driver_control/PknDriver.cpp:296-300 | always 0 |
| Driver.PknDriver.GetProcessExitStatus | core/driver_control/PknDriver.cpp:302-317 | the decoded status, present exactly on success |
| Driver.PknDriver.WaitForProcess | core/driver_control/PknDriver.cpp:319-334 | the decoded status, present exactly on success |
| Driver.PknDriver.WaitForThread | core/driver_control/PknDriver.cpp:336-351 | the decoded status, present exactly on success |
| Driver.PknDriver.GetPhysicalMemoryAddress | core/driver_control/PknDriver.cpp:353-359 | always fails |
| Driver.PknDriver.WritePhysicalMemory | core/driver_control/PknDriver.cpp:361-379 | always fails |
| Driver.PknDriver.GetProcessBase | core/driver_control/PknDriver.cpp:238-253 | the decoded base, present exactly on success |
| Driver.PknDriver.ThreadRequestArrives | core/driver_control/PknDriver.cpp:446-459 | the request struct starts with the key, so the backend reads back every byte of it as the client filled it |
| Driver.PknDriver.ThreadRequestTarget | core/driver_control/PknDriver.cpp:446-447 | the backend reads the key and the process id from the first two slots |
| Driver.PknDriver.ThreadRequestDescriptor | core/driver_control/PknDriver.cpp:448-459 | the backend reads the descriptor's first 40 bytes, or zeros when none is given, and slot 7 says whether one was given |
| Driver.PknDriver.ThreadRequestParameters | core/driver_control/PknDriver.cpp:449-455 | slots 7 to 12 reach the backend as the presence flag, the suspended flag, the two stack sizes, the start address and the parameter |
| Driver.PknDriver.CreateUserThread | core/driver_control/PknDriver.cpp:435-473 | the decoded process and thread ids, present exactly on success |
| Driver.PknDriver.CallRegion | core/driver_control/PknDriver.cpp:485-495 | a decoded address and size, present exactly on success |
| Driver.PknDriver.AllocateVirtualMemory | core/driver_control/PknDriver.cpp:475-496 | the decoded base and size allocated |
| Driver.PknDriver.FreeVirtualMemory | core/driver_control/PknDriver.cpp:499-518 | the decoded base and size freed |
| Driver.PknDriver.ProtectVirtualMemory | core/driver_control/PknDriver.cpp:520-540 | the decoded base, size and previous protection |
| Driver.PknDriver.RunDriverEntry | core/driver_control/PknDriver.cpp:565-582 | always present: the decoded `ret_val` on success, 0 on failure |
| Driver.PknDriver.ProtectProcess | core/driver_control/PknDriver.cpp:626-633 | the result is the call's success |
| Driver.PknDriver.DeleteUnloadedDrivers | core/driver_control/PknDriver.cpp:542-563 | a pattern of 260 or more units is refused with nothing sent. Otherwise: key, addresses, then the pattern and a zero unit are sent, and the raw `ndelete` is present exactly on success |
| Driver.PknDriver.ForceWriteOnce | core/driver_control/PknDriver.cpp:178-183 | one forced-write request for at most 0x1000 bytes; its result is the answer's success |
| Driver.PknDriver.SendChunk | core/driver_control/PknDriver.cpp:191-195 | one loop pass keeps the loop's trace invariant, or ends it in failure |
| Driver.PknDriver.WriteChunks | core/driver_control/PknDriver.cpp:186-196 | the loop's requests, remaining script and confirmed count are the trace of the corrected loop |
| Driver.PknDriver.ForceWriteProcessMemory | core/driver_control/PknDriver.cpp:175-199 | the result, the bytes confirmed, the requests sent and the answers consumed are those of the corrected write on the script |

## Findings

| source | as written | input that shows it | evidently intended | confidence | as-written member | corrected member |
|---|---|---|---|---|---|---|
| core/driver_control/PknDriver.cpp:197 | `return size_left != size;` reports success once any chunk went through | 10000 bytes, first chunk accepted, second refused: reports success with 4096 bytes written | success only when every chunk was written | not executed | ChunkedWrite.AsWrittenPartialSuccess | ChunkedWrite.ForceWriteConfirms |
| core/driver_control/PknDriver.cpp:195 | `size_left -= once_write;` takes 0x1000 off even after a shorter last chunk, and the unsigned count wraps | 10000 bytes, all answers accepting: after 4096, 4096 and 1808 the count wraps and 4096-byte chunks go on past the end | take off the length actually sent, so the loop ends after the planned chunks | not executed | ChunkedWrite.AsWrittenOverrun | ChunkedWrite.RunSendsPlan |

`ChunkedWrite.AsWrittenForceWrite` models the loop as written. The class
method `Driver.PknDriver.ForceWriteProcessMemory` implements the corrected
loop:

- the count goes down by the chunk length;
- the result is success exactly when nothing remains.

## Left out

- The device driver behind `ioctl`, and `ioctl` itself. The device is a
  script of answers, one per call, and the model records every request
  sent. Timeouts and the backend's effects on other processes are the
  backend's business.
- Struct layouts. `PknDriver.h`, `kernel/io_code.h` and `kernel/names.h`
  are not part of this model. Every scalar field is an 8-byte slot in the
  order it is filled, with no padding. `NameUnits` (260 units),
  `SdBytes` (40) and `MbiBytes`/`TbiBytes` (48) stand in for the real
  sizes. With every field a whole slot, no output struct is shorter than
  8 bytes. So the model cannot show an output struct that `xor_memory`
  leaves undecoded, such as a 4-byte status that would come back raw.
- Out-pointers. Each operation returns its outputs, as an `Option` where
  the source can fail. Null checks on optional out-pointers
  (`get_process_times`, `get_process_exit_status`, `wait_for_process`,
  `wait_for_thread` and the virtual-memory calls) are not modelled:
  every output is returned.
- `get_mouse_pos` and `unprotect_process`. They send no request struct
  and use no part of the codec.
- Commented-out code (`map_and_run_driver`, `set_mouse_pos`,
  `synthesize_mouse`, and the physical-memory bodies), because it is not
  compiled.
- `create_user_thread` receives the security descriptor as the bytes
  `memcpy` copies (its first 40), not as a pointer.
- `delete_unloaded_drivers` receives the pattern as its `wchar_t` code
  units; `to_wstring` is not modelled.
- Concurrency. The class is used through `const` methods with no shared
  mutable state in the client.
- Transport.Device.Ioctl: a refused call writes nothing into the output
  struct or the caller's buffer. The source only promises that nothing is
  decoded on failure; what the driver leaves in them is not modelled. The
  rows above that say a buffer is untouched on failure rely on this.
- WideString.ReadName: stops at the end of the name field when the field
  holds no zero unit. The source's scan would read on past the struct.
- Driver.PknDriver.CallField: the decoded value is stated only when the
  backend filled the whole output struct. Otherwise part of it is the
  struct's uninitialised bytes. The same holds for every other typed
  operation that decodes an output struct: GetTebAddress, ReadSystemMemory,
  VirtualQuery, CallName with GetMappedFile and GetProcessName,
  GetProcessTimes, CreateUserThread, CallRegion, AllocateVirtualMemory,
  FreeVirtualMemory and ProtectVirtualMemory.
- Driver.PknDriver.GetTebAddress: the decoded address is stated only for a
  full 48-byte reply. For a shorter reply of at least 16 bytes,
  `Codec.DecodedPutSlot` shows the slot is decoded all the same, but the
  method's contract does not carry that case.
- Driver.PknDriver.ForceWriteProcessMemory: models the corrected loop, not
  the loop as written. The loop as written is `ChunkedWrite.AsWrittenForceWrite`.
  The chunk loop is a separate method, `WriteChunks`. Each chunk goes
  through the single-request branch, as the recursive call in the source
  does.
