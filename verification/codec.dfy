/** The XOR word codec of the driver client: `xor_memory` and the two macros
    built on it (`EncryptInputByXor`, `DecryptOutputByXor`), together with the
    little-endian byte layout the wire structs are made of. Buffers are arrays
    of bytes; a word is 8 consecutive bytes read least significant first. */
module Codec {

  /** An unsigned 64-bit quantity kept as a number (`size_t`, `uint64_t`). */
  type u64 = x: int | 0 <= x < 0x1_0000_0000_0000_0000

  /** Byte `j` (0 = least significant) of a 64-bit word. */
  function ByteOf(w: bv64, j: nat): bv8
    requires j < 8
  {
    if j == 0 then (w & 0xFF) as bv8
    else if j == 1 then ((w >> 8) & 0xFF) as bv8
    else if j == 2 then ((w >> 16) & 0xFF) as bv8
    else if j == 3 then ((w >> 24) & 0xFF) as bv8
    else if j == 4 then ((w >> 32) & 0xFF) as bv8
    else if j == 5 then ((w >> 40) & 0xFF) as bv8
    else if j == 6 then ((w >> 48) & 0xFF) as bv8
    else (w >> 56) as bv8
  }

  /** The 8 bytes a word occupies in memory (little-endian). */
  function WordBytes(w: bv64): (b: seq<bv8>)
    ensures |b| == 8
  {
    seq(8, j requires 0 <= j < 8 => ByteOf(w, j))
  }

  /** The word whose bytes, least significant first, are b0 .. b7. */
  function Pack(b0: bv8, b1: bv8, b2: bv8, b3: bv8, b4: bv8, b5: bv8, b6: bv8, b7: bv8): bv64
  {
    (b0 as bv64) | (b1 as bv64 << 8) | (b2 as bv64 << 16) | (b3 as bv64 << 24)
    | (b4 as bv64 << 32) | (b5 as bv64 << 40) | (b6 as bv64 << 48) | (b7 as bv64 << 56)
  }

  /** The word stored in 8 bytes (little-endian). */
  function WordOf(b: seq<bv8>): bv64
    requires |b| == 8
  {
    Pack(b[0], b[1], b[2], b[3], b[4], b[5], b[6], b[7])
  }

  /** Byte-wise XOR of two 8-byte groups. */
  function XorBytes(b: seq<bv8>, k: seq<bv8>): (r: seq<bv8>)
    requires |b| == 8 && |k| == 8
    ensures |r| == 8
  {
    seq(8, j requires 0 <= j < 8 => b[j] ^ k[j])
  }

  /** Each byte of a packed word is the byte packed at that position. */
  lemma BytesOfPack(b0: bv8, b1: bv8, b2: bv8, b3: bv8, b4: bv8, b5: bv8, b6: bv8, b7: bv8)
    ensures var w := Pack(b0, b1, b2, b3, b4, b5, b6, b7);
      ByteOf(w, 0) == b0 && ByteOf(w, 1) == b1 && ByteOf(w, 2) == b2 && ByteOf(w, 3) == b3 &&
      ByteOf(w, 4) == b4 && ByteOf(w, 5) == b5 && ByteOf(w, 6) == b6 && ByteOf(w, 7) == b7
  {
  }

  /** XOR of two packed words is the packing of the byte-wise XORs. */
  lemma PackXor(a0: bv8, a1: bv8, a2: bv8, a3: bv8, a4: bv8, a5: bv8, a6: bv8, a7: bv8,
                k0: bv8, k1: bv8, k2: bv8, k3: bv8, k4: bv8, k5: bv8, k6: bv8, k7: bv8)
    ensures Pack(a0, a1, a2, a3, a4, a5, a6, a7) ^ Pack(k0, k1, k2, k3, k4, k5, k6, k7)
         == Pack(a0 ^ k0, a1 ^ k1, a2 ^ k2, a3 ^ k3, a4 ^ k4, a5 ^ k5, a6 ^ k6, a7 ^ k7)
  {
  }

  /** Packing the eight bytes of a word gives the word back. */
  lemma PackBytes(w: bv64)
    ensures Pack(ByteOf(w, 0), ByteOf(w, 1), ByteOf(w, 2), ByteOf(w, 3),
                 ByteOf(w, 4), ByteOf(w, 5), ByteOf(w, 6), ByteOf(w, 7)) == w
  {
  }

  /** Reading back the bytes of a word gives the word. */
  lemma WordOfBytes(w: bv64)
    ensures WordOf(WordBytes(w)) == w
  {
    PackBytes(w);
  }

  /** Writing the word read from 8 bytes gives the same bytes. */
  lemma BytesOfWord(b: seq<bv8>)
    requires |b| == 8
    ensures WordBytes(WordOf(b)) == b
  {
    BytesOfPack(b[0], b[1], b[2], b[3], b[4], b[5], b[6], b[7]);
  }

  /** A 64-bit XOR with the key is a byte-wise XOR with the key's bytes. */
  lemma WordOfXor(b: seq<bv8>, key: bv64)
    requires |b| == 8
    ensures WordOf(b) ^ key == WordOf(XorBytes(b, WordBytes(key)))
  {
    var k := WordBytes(key);
    WordOfBytes(key);
    PackXor(b[0], b[1], b[2], b[3], b[4], b[5], b[6], b[7], k[0], k[1], k[2], k[3], k[4], k[5], k[6], k[7]);
  }

  /** Storing `WordOf(b) ^ key` back over `b` XORs each byte of `b` with the
      key byte at the same position. */
  lemma StoreXoredWord(b: seq<bv8>, key: bv64)
    requires |b| == 8
    ensures WordBytes(WordOf(b) ^ key) == XorBytes(b, WordBytes(key))
  {
    WordOfXor(b, key);
    BytesOfWord(XorBytes(b, WordBytes(key)));
  }

  /** The number of bytes `xor_memory` covers in a region of `size` bytes:
      whole words only, so the trailing `size % 8` bytes are excluded. */
  function Covered(size: nat): (n: nat)
    ensures n <= size && n % 8 == 0 && size - n < 8
  {
    size / 8 * 8
  }

  /** Reference meaning of `xor_memory` over a whole region `r`: each whole
      word is XORed with the key's bytes, a trailing partial word (fewer than
      8 bytes) is kept as it is. `DecryptOutputByXor` is this over the whole
      output struct. */
  function Xored(r: seq<bv8>, key: bv64): (x: seq<bv8>)
    ensures |x| == |r|
    decreases |r|
  {
    if |r| < 8 then r else XorBytes(r[..8], WordBytes(key)) + Xored(r[8..], key)
  }

  /** `xor_memory(s + start, size, key)` on a buffer `s`: the region is
      transformed as `Xored` says, the bytes around it are kept. */
  function XorRange(s: seq<bv8>, start: nat, size: nat, key: bv64): (r: seq<bv8>)
    requires start + size <= |s|
    ensures |r| == |s|
  {
    s[..start] + Xored(s[start..start + size], key) + s[start + size..]
  }

  lemma XorBytesTwice(b: seq<bv8>, k: seq<bv8>)
    requires |b| == 8 && |k| == 8
    ensures XorBytes(XorBytes(b, k), k) == b
  {
    forall j | 0 <= j < 8
      ensures XorBytes(XorBytes(b, k), k)[j] == b[j]
    {
      assert XorBytes(XorBytes(b, k), k)[j] == (b[j] ^ k[j]) ^ k[j];
    }
  }

  /** Word k of the transformed region is word k of the original with its
      bytes XORed with the key's bytes. */
  lemma {:induction false} XoredWordBytes(r: seq<bv8>, key: bv64, k: nat)
    requires 8 * k + 8 <= |r|
    ensures Xored(r, key)[8 * k..8 * k + 8] == XorBytes(r[8 * k..8 * k + 8], WordBytes(key))
  {
    if k > 0 {
      var a := 8 * (k - 1);
      assert 8 * k == a + 8;
      var head := XorBytes(r[..8], WordBytes(key));
      var rest := Xored(r[8..], key);
      assert Xored(r, key) == head + rest;
      assert (head + rest)[a + 8..a + 16] == rest[a..a + 8];
      XoredWordBytes(r[8..], key, k - 1);
      assert r[8..][a..a + 8] == r[a + 8..a + 16];
    }
  }

  /** Word k of the transformed region, read as a 64-bit value, is the old
      word XORed with the key: `xor_memory` really is a word-wise XOR. */
  lemma XoredWord(r: seq<bv8>, key: bv64, k: nat)
    requires 8 * k + 8 <= |r|
    ensures WordOf(Xored(r, key)[8 * k..8 * k + 8]) == WordOf(r[8 * k..8 * k + 8]) ^ key
  {
    XoredWordBytes(r, key, k);
    WordOfXor(r[8 * k..8 * k + 8], key);
  }

  /** The trailing `|r| % 8` bytes of the region are left as they were. */
  lemma {:induction false} XoredTail(r: seq<bv8>, key: bv64)
    ensures Xored(r, key)[Covered(|r|)..] == r[Covered(|r|)..]
    decreases |r|
  {
    if |r| >= 8 {
      XoredTail(r[8..], key);
      assert Covered(|r|) == 8 + Covered(|r| - 8);
    }
  }

  /** Splitting a region after a whole number of words splits the transform. */
  lemma {:induction false} XoredAppend(a: seq<bv8>, b: seq<bv8>, key: bv64)
    requires |a| % 8 == 0
    ensures Xored(a + b, key) == Xored(a, key) + Xored(b, key)
    decreases |a|
  {
    if |a| >= 8 {
      XoredAppend(a[8..], b, key);
      assert (a + b)[..8] == a[..8];
      assert (a + b)[8..] == a[8..] + b;
    } else {
      assert a == [];
      assert a + b == b;
    }
  }

  /** Applying the transform twice restores the region. */
  lemma {:induction false} XoredInvolution(r: seq<bv8>, key: bv64)
    ensures Xored(Xored(r, key), key) == r
    decreases |r|
  {
    if |r| >= 8 {
      var x := Xored(r, key);
      XorBytesTwice(r[..8], WordBytes(key));
      XoredInvolution(r[8..], key);
      assert x[..8] == XorBytes(r[..8], WordBytes(key));
      assert x[8..] == Xored(r[8..], key);
    }
  }

  /** Applying `xor_memory` twice with the same key restores the whole
      buffer. */
  lemma XorRangeInvolution(s: seq<bv8>, start: nat, size: nat, key: bv64)
    requires start + size <= |s|
    ensures XorRange(XorRange(s, start, size, key), start, size, key) == s
  {
    var x := XorRange(s, start, size, key);
    var region := s[start..start + size];
    var y := Xored(region, key);
    assert x[..start] == s[..start];
    assert x[start..start + size] == y;
    assert x[start + size..] == s[start + size..];
    XoredInvolution(region, key);
    assert s == s[..start] + region + s[start + size..];
  }

  /** `s` with the bytes from `p` on replaced by `b`. */
  function PutBytes(s: seq<bv8>, p: nat, b: seq<bv8>): (r: seq<bv8>)
    requires p + |b| <= |s|
    ensures |r| == |s|
  {
    s[..p] + b + s[p + |b|..]
  }

  /** `s` with the 8 bytes at `p` replaced by the bytes of `w`. */
  function PutWord(s: seq<bv8>, p: nat, w: bv64): (r: seq<bv8>)
    requires p + 8 <= |s|
    ensures |r| == |s|
  {
    PutBytes(s, p, WordBytes(w))
  }

  /** A word stored at `p` loads back as itself, and no other byte changes. */
  lemma PutWordLoad(s: seq<bv8>, p: nat, w: bv64)
    requires p + 8 <= |s|
    ensures WordOf(PutWord(s, p, w)[p..p + 8]) == w
    ensures forall i :: 0 <= i < |s| && !(p <= i < p + 8) ==> PutWord(s, p, w)[i] == s[i]
  {
    var b := WordBytes(w);
    assert PutWord(s, p, w) == s[..p] + b + s[p + 8..];
    assert PutWord(s, p, w)[p..p + 8] == b;
    WordOfBytes(w);
  }

  /** Bytes that fill the whole buffer replace it. */
  lemma PutWhole(s: seq<bv8>, b: seq<bv8>)
    requires |b| == |s|
    ensures PutBytes(s, 0, b) == b
  {
    assert s[..0] == [] && s[|b|..] == [];
  }

  /** Reads the word at byte offset `p`, as `*(uint64_t *)(address + p)` does. */
  function LoadWord(a: array<bv8>, p: nat): bv64
    requires p + 8 <= a.Length
    reads a
  {
    WordOf(a[p..p + 8])
  }

  /** Writes the word `w` at byte offset `p`. */
  method StoreWord(a: array<bv8>, p: nat, w: bv64)
    requires p + 8 <= a.Length
    modifies a
    ensures a[..] == PutWord(old(a[..]), p, w)
  {
    var b := WordBytes(w);
    forall k | 0 <= k < 8 {
      a[p + k] := b[k];
    }
    assert a[..] == old(a[..])[..p] + b + old(a[..])[p + 8..];
  }

  /** The transform of a single word. */
  lemma XoredOneWord(w8: seq<bv8>, key: bv64)
    requires |w8| == 8
    ensures Xored(w8, key) == XorBytes(w8, WordBytes(key))
  {
    assert w8[8..] == [];
  }

  /** Replacing the middle part of a three-part buffer by bytes of the same
      length. */
  lemma PutMiddle(p: seq<bv8>, w: seq<bv8>, y: seq<bv8>, q: seq<bv8>)
    requires |w| == |y|
    ensures (p + w + q)[|p|..|p| + |w|] == w
    ensures PutBytes(p + w + q, |p|, y) == p + y + q
  {
    var a := p + w + q;
    assert a[..|p|] == p;
    assert a[|p| + |y|..] == q;
  }

  /** A region whose first `i` bytes are transformed, seen as the part before
      the next word, that word, and the rest. */
  lemma XorRangeParts(s: seq<bv8>, start: nat, i: nat, key: bv64)
    requires start + i + 8 <= |s|
    ensures XorRange(s, start, i, key)
         == (s[..start] + Xored(s[start..start + i], key)) + s[start + i..start + i + 8] + s[start + i + 8..]
  {
    assert s[start + i..] == s[start + i..start + i + 8] + s[start + i + 8..];
  }

  /** Transforming one more word of a region. */
  lemma XorRangeNext(s: seq<bv8>, start: nat, i: nat, key: bv64)
    requires start + i + 8 <= |s| && i % 8 == 0
    ensures XorRange(s, start, i + 8, key)
         == (s[..start] + Xored(s[start..start + i], key))
            + XorBytes(s[start + i..start + i + 8], WordBytes(key)) + s[start + i + 8..]
  {
    var w8 := s[start + i..start + i + 8];
    XoredOneWord(w8, key);
    XoredAppend(s[start..start + i], w8, key);
    assert s[start..start + i + 8] == s[start..start + i] + w8;
  }

  /** Growing the transformed part of a region by one word replaces that
      word by its byte-wise XOR with the key and leaves everything else. */
  lemma XorRangeGrow(s: seq<bv8>, start: nat, i: nat, key: bv64)
    requires start + i + 8 <= |s| && i % 8 == 0
    ensures XorRange(s, start, i, key)[start + i..start + i + 8] == s[start + i..start + i + 8]
    ensures XorRange(s, start, i + 8, key)
         == PutBytes(XorRange(s, start, i, key), start + i,
                     XorBytes(s[start + i..start + i + 8], WordBytes(key)))
  {
    XorRangeParts(s, start, i, key);
    XorRangeNext(s, start, i, key);
    PutMiddle(s[..start] + Xored(s[start..start + i], key), s[start + i..start + i + 8],
              XorBytes(s[start + i..start + i + 8], WordBytes(key)), s[start + i + 8..]);
  }

  /** `*(uint64_t *)(address + p) ^= key`: the word at `p` is XORed in place,
      which XORs each of its bytes with the key byte at the same position. */
  method XorWordAt(a: array<bv8>, p: nat, key: bv64)
    requires p + 8 <= a.Length
    modifies a
    ensures a[..] == PutBytes(old(a[..]), p, XorBytes(old(a[..])[p..p + 8], WordBytes(key)))
  {
    var w := LoadWord(a, p);
    StoreXoredWord(a[p..p + 8], key);
    StoreWord(a, p, w ^ key);
  }

  /** The loop body of `xor_memory`: with the first `i` bytes of the region
      done, XORing the next word in place leaves the first `i + 8` done. */
  method XorNextWord(a: array<bv8>, ghost s: seq<bv8>, start: nat, i: nat, key: bv64)
    requires start + i + 8 <= |s| == a.Length && i % 8 == 0
    requires a[..] == XorRange(s, start, i, key)
    modifies a
    ensures a[..] == XorRange(s, start, i + 8, key)
  {
    XorRangeGrow(s, start, i, key);
    assert a[..][start + i..start + i + 8] == s[start + i..start + i + 8];
    XorWordAt(a, start + i, key);
  }

  /** Before the first step nothing is transformed. */
  lemma XorRangeEmpty(s: seq<bv8>, start: nat, key: bv64)
    requires start <= |s|
    ensures XorRange(s, start, 0, key) == s
  {
    assert s[start..start] == [];
    assert s[..start] + s[start..] == s;
  }

  /** The loop's last state: once fewer than 8 bytes are left, the rest of the
      region is already what `xor_memory` leaves there. */
  lemma XorRangeDone(s: seq<bv8>, start: nat, i: nat, size: nat, key: bv64)
    requires start + size <= |s| && i % 8 == 0 && i <= size < i + 8
    ensures XorRange(s, start, i, key) == XorRange(s, start, size, key)
  {
    var rest := s[start + i..start + size];
    XoredAppend(s[start..start + i], rest, key);
    assert s[start..start + size] == s[start..start + i] + rest;
    assert s[start + i..] == rest + s[start + size..];
  }

  /** `xor_memory(a + start, size, key)`: XORs each whole 8-byte word of the
      region in place with the key, stepping 8 bytes at a time while a whole
      word still fits. */
  method XorMemory(a: array<bv8>, start: nat, size: nat, key: bv64)
    requires start + size <= a.Length
    modifies a
    ensures a[..] == XorRange(old(a[..]), start, size, key)
  {
    ghost var s := a[..];
    XorRangeEmpty(s, start, key);
    var i := 0;
    while i + 8 <= size
      invariant i % 8 == 0 && i <= size
      invariant a[..] == XorRange(s, start, i, key)
    {
      XorNextWord(a, s, start, i, key);
      i := i + 8;
    }
    XorRangeDone(s, start, i, size, key);
  }

  /** The wire image `EncryptInputByXor` leaves: the key in plain text in the
      leading 8 bytes, the rest transformed by `xor_memory` from byte 8 on. */
  function Encrypted(s: seq<bv8>, key: bv64): (e: seq<bv8>)
    requires |s| >= 8
    ensures |e| == |s|
  {
    WordBytes(key) + Xored(s[8..], key)
  }

  /** The backend's reading of a request: it takes the key from the leading
      field and undoes the transform from byte 8 on. */
  function Unscramble(wire: seq<bv8>): (r: seq<bv8>)
    requires |wire| >= 8
    ensures |r| == |wire| && r[..8] == wire[..8]
  {
    wire[..8] + Xored(wire[8..], WordOf(wire[..8]))
  }

  /** `EncryptInputByXor()`: transform the request from byte 8 on, then write
      the key into the leading field. */
  method EncryptInput(inp: array<bv8>, key: bv64)
    requires inp.Length >= 8
    modifies inp
    ensures inp[..] == Encrypted(old(inp[..]), key)
  {
    ghost var s := inp[..];
    XorMemory(inp, 8, inp.Length - 8, key);
    assert inp[..][8..] == Xored(s[8..], key) by {
      assert s[8..8 + (|s| - 8)] == s[8..];
    }
    StoreWord(inp, 0, key);
  }

  /** `DecryptOutputByXor()`, and the decode of a variable-length reply: the
      whole buffer is transformed by `xor_memory`. */
  method DecryptOutput(oup: array<bv8>, key: bv64)
    modifies oup
    ensures oup[..] == Xored(old(oup[..]), key)
  {
    ghost var s := oup[..];
    XorMemory(oup, 0, oup.Length, key);
    assert s[..0] == [] && s[0..|s|] == s && s[|s|..] == [];
  }

  /** Past the leading field, slot k of an encrypted request is slot k - 1 of
      the transformed payload, whose original is slot k of the request. */
  lemma EncryptedSlot(s: seq<bv8>, key: bv64, k: nat)
    requires 0 < k && 8 * k + 8 <= |s|
    ensures Encrypted(s, key)[8 * k..8 * k + 8] == Xored(s[8..], key)[8 * (k - 1)..8 * (k - 1) + 8]
    ensures s[8..][8 * (k - 1)..8 * (k - 1) + 8] == s[8 * k..8 * k + 8]
  {
  }

  /** The leading field of an encrypted request is the key in plain text and
      every later whole field is the original field XORed with the key. */
  lemma EncryptedFields(s: seq<bv8>, key: bv64, k: nat)
    requires |s| >= 8 && 8 * k + 8 <= |s|
    ensures k == 0 ==> Field(Encrypted(s, key), k) == key
    ensures k > 0 ==> Field(Encrypted(s, key), k) == Field(s, k) ^ key
  {
    var e := Encrypted(s, key);
    if k == 0 {
      assert e[..8] == WordBytes(key);
      WordOfBytes(key);
    } else {
      EncryptedSlot(s, key, k);
      XoredWord(s[8..], key, k - 1);
    }
  }

  /** The backend recovers the request exactly: the key from the leading
      field, and the original payload from byte 8 on. */
  lemma RequestRoundTrip(s: seq<bv8>, key: bv64)
    requires |s| >= 8
    ensures Unscramble(Encrypted(s, key)) == WordBytes(key) + s[8..]
  {
    var e := Encrypted(s, key);
    assert e[..8] == WordBytes(key);
    assert e[8..] == Xored(s[8..], key);
    WordOfBytes(key);
    XoredInvolution(s[8..], key);
  }

  /** A request whose leading field already holds the key reaches the
      backend byte for byte. */
  lemma KeyedRoundTrip(s: seq<bv8>, key: bv64)
    requires |s| >= 8 && s[..8] == WordBytes(key)
    ensures Unscramble(Encrypted(s, key)) == s
  {
    RequestRoundTrip(s, key);
    assert s == s[..8] + s[8..];
  }

  /** Past the leading field, the backend reads the request's bytes as the
      client laid them out. */
  lemma UnscrambledTail(s: seq<bv8>, key: bv64, p: nat)
    requires 8 <= p <= |s|
    ensures Unscramble(Encrypted(s, key))[p..] == s[p..]
  {
    RequestRoundTrip(s, key);
    assert (WordBytes(key) + s[8..])[p..] == s[p..];
  }

  /** Fields laid out one after another, each in an 8-byte little-endian slot. */
  function Slots(fields: seq<bv64>): (s: seq<bv8>)
    ensures |s| == 8 * |fields|
  {
    if fields == [] then [] else WordBytes(fields[0]) + Slots(fields[1..])
  }

  /** The word in slot `k` of a byte image. */
  function Field(s: seq<bv8>, k: nat): bv64
    requires 8 * k + 8 <= |s|
  {
    WordOf(s[8 * k..8 * k + 8])
  }

  /** Slot k of a laid-out struct holds the bytes of field k. */
  lemma {:induction false} SlotsBytes(fields: seq<bv64>, k: nat)
    requires k < |fields|
    ensures Slots(fields)[8 * k..8 * k + 8] == WordBytes(fields[k])
  {
    if k > 0 {
      SlotsBytes(fields[1..], k - 1);
      assert Slots(fields)[8 * k..8 * k + 8] == Slots(fields[1..])[8 * (k - 1)..8 * (k - 1) + 8];
    }
  }

  /** Reading slot k of a laid-out struct gives back field k. */
  lemma SlotsField(fields: seq<bv64>, k: nat)
    requires k < |fields|
    ensures Field(Slots(fields), k) == fields[k]
  {
    SlotsBytes(fields, k);
    WordOfBytes(fields[k]);
  }

  /** The slots the backend reads back from an encrypted request. */
  lemma UnscrambledSlot(s: seq<bv8>, key: bv64, k: nat)
    requires 8 * k + 8 <= |s|
    ensures Unscramble(Encrypted(s, key))[8 * k..8 * k + 8]
         == if k == 0 then WordBytes(key) else s[8 * k..8 * k + 8]
  {
    RequestRoundTrip(s, key);
  }

  /** What the backend reads from a request struct laid out in slots and
      sent through `EncryptInputByXor`: the key in the leading field and
      every other field exactly as the client filled it. */
  lemma SentFields(fields: seq<bv64>, key: bv64, k: nat)
    requires k < |fields|
    ensures Field(Unscramble(Encrypted(Slots(fields), key)), k) == if k == 0 then key else fields[k]
  {
    UnscrambledSlot(Slots(fields), key, k);
    if k == 0 {
      WordOfBytes(key);
    } else {
      SlotsField(fields, k);
    }
  }

  /** Field k of the slice that starts at slot `j` is field `j + k` of the
      whole. */
  lemma FieldOfSlice(s: seq<bv8>, j: nat, n: nat, k: nat)
    requires 8 * j + n <= |s| && 8 * k + 8 <= n
    ensures Field(s[8 * j..8 * j + n], k) == Field(s, j + k)
  {
    var a, b := 8 * j, 8 * k;
    assert 8 * (j + k) == a + b;
    var u, v := s[a..a + n][b..b + 8], s[a + b..a + b + 8];
    assert forall i :: 0 <= i < 8 ==> u[i] == v[i];
    assert u == v;
  }

  /** A run of slots laid out from slot `j` of a byte image holds its fields
      from field `j` on. */
  lemma SlotsAt(s: seq<bv8>, j: nat, fields: seq<bv64>, k: nat)
    requires 8 * j + 8 * |fields| <= |s| && s[8 * j..8 * j + 8 * |fields|] == Slots(fields)
    requires k < |fields|
    ensures Field(s, j + k) == fields[k]
  {
    var n := 8 * |fields|;
    FieldOfSlice(s, j, n, k);
    SlotsField(fields, k);
  }

  /** Every field of a run of slots laid out from slot `j`. */
  lemma SlotsFrom(s: seq<bv8>, j: nat, fields: seq<bv64>)
    requires 8 * j + 8 * |fields| <= |s| && s[8 * j..8 * j + 8 * |fields|] == Slots(fields)
    ensures forall k :: 0 <= k < |fields| ==> Field(s, j + k) == fields[k]
  {
    forall k | 0 <= k < |fields|
      ensures Field(s, j + k) == fields[k]
    {
      SlotsAt(s, j, fields, k);
    }
  }

  /** Slot k of a descrambled response is the raw slot XORed with the key. */
  lemma DecodeField(s: seq<bv8>, key: bv64, k: nat)
    requires 8 * k + 8 <= |s|
    ensures Field(Xored(s, key), k) == Field(s, k) ^ key
  {
    XoredWord(s, key, k);
  }

  /** A response the backend lays out and scrambles with the session key is
      descrambled by `DecryptOutputByXor` into exactly the fields it laid out. */
  lemma ResponseRoundTrip(fields: seq<bv64>, key: bv64, k: nat)
    requires k < |fields|
    ensures Field(Xored(Xored(Slots(fields), key), key), k) == fields[k]
  {
    XoredInvolution(Slots(fields), key);
    SlotsField(fields, k);
  }

  /** Field k of a decoded output struct of which only the first `|out|`
      bytes were written by the backend: when the field lies within them, it
      is the field the backend wrote, XORed with the key. */
  lemma DecodedReplyField(raw: seq<bv8>, out: seq<bv8>, key: bv64, k: nat)
    requires |out| <= |raw| && raw[..|out|] == out && 8 * k + 8 <= |out|
    ensures Field(Xored(raw, key), k) == Field(out, k) ^ key
  {
    DecodeField(raw, key, k);
    assert raw[8 * k..8 * k + 8] == out[8 * k..8 * k + 8];
  }

  /** Field k of a buffer whose first `n` bytes were decoded in place, when the
      field lies within them. */
  lemma DecodedPrefixField(s: seq<bv8>, n: nat, key: bv64, k: nat)
    requires n <= |s| && 8 * k + 8 <= n
    ensures Field(XorRange(s, 0, n, key), k) == Field(s, k) ^ key
  {
    var x := XorRange(s, 0, n, key);
    assert x == Xored(s[..n], key) + s[n..];
    assert x[8 * k..8 * k + 8] == Xored(s[..n], key)[8 * k..8 * k + 8];
    DecodeField(s[..n], key, k);
    assert s[..n][8 * k..8 * k + 8] == s[8 * k..8 * k + 8];
  }

  /** Slot k of a buffer into which `out` was copied and then decoded, when
      the slot lies within the copied bytes: whatever the buffer held
      before, it is slot k of `out` decoded. */
  lemma DecodedPutSlot(d: seq<bv8>, s: seq<bv8>, out: seq<bv8>, key: bv64, k: nat)
    requires |out| <= |s| && 8 * k + 8 <= |out|
    requires d == XorRange(PutBytes(s, 0, out), 0, |out|, key)
    ensures d[8 * k..8 * k + 8] == Xored(out, key)[8 * k..8 * k + 8]
  {
    var p := PutBytes(s, 0, out);
    assert d == Xored(p[..|out|], key) + p[|out|..];
    assert p[..|out|] == out;
  }
}
