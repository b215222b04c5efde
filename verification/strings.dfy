/** Wide strings in fixed-capacity fields: a name is written into a request
    as its code units followed by a zero unit, and a name is read out of a
    response as the code units before the first zero unit. A code unit
    (`wchar_t`) occupies two bytes, least significant first. */
module WideString {

  import opened Codec

  /** The two bytes of a code unit. */
  function UnitBytes(u: bv16): (b: seq<bv8>)
    ensures |b| == 2
  {
    [(u & 0xFF) as bv8, (u >> 8) as bv8]
  }

  /** The code unit stored in a low and a high byte. */
  function UnitOf(lo: bv8, hi: bv8): bv16
  {
    (lo as bv16) | (hi as bv16 << 8)
  }

  lemma UnitOfBytes(u: bv16)
    ensures UnitOf(UnitBytes(u)[0], UnitBytes(u)[1]) == u
  {
  }

  /** The bytes of a run of code units. */
  function UnitsBytes(u: seq<bv16>): (b: seq<bv8>)
    ensures |b| == 2 * |u|
  {
    if u == [] then [] else UnitBytes(u[0]) + UnitsBytes(u[1..])
  }

  /** The code units stored in a byte image, two bytes each; an odd last
      byte is not part of any unit. */
  function Units(b: seq<bv8>): (u: seq<bv16>)
    ensures |u| == |b| / 2
    decreases |b|
  {
    if |b| < 2 then [] else [UnitOf(b[0], b[1])] + Units(b[2..])
  }

  /** Unit k of a byte image is made of bytes 2k and 2k + 1. */
  lemma {:induction false} UnitsAt(b: seq<bv8>, k: nat)
    requires 2 * k + 2 <= |b|
    ensures Units(b)[k] == UnitOf(b[2 * k], b[2 * k + 1])
    decreases k
  {
    if k > 0 {
      UnitsAt(b[2..], k - 1);
    }
  }

  /** A unit's two bytes in front of an image read back as that unit in
      front of the image's units. */
  lemma UnitsCons(x: bv16, b: seq<bv8>)
    ensures Units(UnitBytes(x) + b) == [x] + Units(b)
  {
    var c := UnitBytes(x) + b;
    assert c[2..] == b;
    UnitOfBytes(x);
    assert c[0] == UnitBytes(x)[0] && c[1] == UnitBytes(x)[1];
  }

  /** Reading back the bytes of a run of code units gives the run, whatever
      follows it. */
  lemma {:induction false} UnitsRoundTrip(u: seq<bv16>, rest: seq<bv8>)
    ensures Units(UnitsBytes(u) + rest)[..|u|] == u
    decreases |u|
  {
    if u != [] {
      var tail := UnitsBytes(u[1..]) + rest;
      assert UnitsBytes(u) + rest == UnitBytes(u[0]) + tail;
      UnitsCons(u[0], tail);
      UnitsRoundTrip(u[1..], rest);
      assert ([u[0]] + Units(tail))[..|u|] == [u[0]] + Units(tail)[..|u| - 1];
    }
  }

  /** The position of the first zero unit, or the capacity when there is none. */
  function FirstZero(f: seq<bv16>): (n: nat)
    ensures n <= |f|
    ensures forall i :: 0 <= i < n ==> f[i] != 0
    ensures n < |f| ==> f[n] == 0
  {
    if f == [] || f[0] == 0 then 0 else 1 + FirstZero(f[1..])
  }

  /** The string a fixed field holds: its units before the first zero. */
  function Name(f: seq<bv16>): (s: seq<bv16>)
    ensures |s| <= |f| && s == f[..|s|]
    ensures forall i :: 0 <= i < |s| ==> s[i] != 0
    ensures |s| < |f| ==> f[|s|] == 0
  {
    f[..FirstZero(f)]
  }

  /** A zero-free name written with its terminator reads back as itself. */
  lemma NameRoundTrip(p: seq<bv16>, rest: seq<bv8>)
    requires forall i :: 0 <= i < |p| ==> p[i] != 0
    ensures Name(Units(UnitsBytes(p + [0]) + rest)) == p
  {
    var f := Units(UnitsBytes(p + [0]) + rest);
    UnitsRoundTrip(p + [0], rest);
    assert f[..|p| + 1] == p + [0];
    assert f[|p|] == 0;
    assert forall i :: 0 <= i < |p| ==> f[i] == p[i];
    assert FirstZero(f) == |p|;
  }

  /** `memcpy(&inp.name, pattern, size * 2); inp.name[size] = 0;`: the
      pattern's units and a zero unit are written at byte offset `at`. */
  method WriteName(inp: array<bv8>, at: nat, pattern: seq<bv16>)
    requires at + 2 * |pattern| + 2 <= inp.Length
    modifies inp
    ensures inp[..] == PutBytes(old(inp[..]), at, UnitsBytes(pattern + [0]))
  {
    ghost var s := inp[..];
    var u := pattern + [0];
    var i := 0;
    while i < |u|
      invariant i <= |u|
      invariant inp[..] == PutBytes(s, at, UnitsBytes(u[..i]))
    {
      var b := UnitBytes(u[i]);
      WriteUnitStep(s, at, u, i);
      inp[at + 2 * i] := b[0];
      inp[at + 2 * i + 1] := b[1];
      i := i + 1;
    }
    assert u[..i] == u;
  }

  lemma {:induction false} UnitsBytesSnoc(u: seq<bv16>, x: bv16)
    ensures UnitsBytes(u + [x]) == UnitsBytes(u) + UnitBytes(x)
    decreases |u|
  {
    if u != [] {
      assert (u + [x])[1..] == u[1..] + [x];
      UnitsBytesSnoc(u[1..], x);
    }
  }

  /** Writing unit i's two bytes extends the written prefix by one unit. */
  lemma WriteUnitStep(s: seq<bv8>, at: nat, u: seq<bv16>, i: nat)
    requires i < |u| && at + 2 * |u| <= |s|
    ensures var t := PutBytes(s, at, UnitsBytes(u[..i]));
      t[at + 2 * i := UnitBytes(u[i])[0]][at + 2 * i + 1 := UnitBytes(u[i])[1]]
        == PutBytes(s, at, UnitsBytes(u[..i + 1]))
  {
    assert u[..i + 1] == u[..i] + [u[i]];
    UnitsBytesSnoc(u[..i], u[i]);
  }

  /** The code unit at byte offset `q` of a buffer. */
  function UnitAt(a: array<bv8>, q: nat): bv16
    requires q + 2 <= a.Length
    reads a
  {
    UnitOf(a[q], a[q + 1])
  }

  /** Unit p of a field is the unit stored at its byte offset. */
  lemma FieldUnit(a: array<bv8>, at: nat, units: nat, p: nat)
    requires at + 2 * units <= a.Length && p < units
    ensures Units(a[at..at + 2 * units])[p] == UnitAt(a, at + 2 * p)
  {
    var b := a[at..at + 2 * units];
    UnitsAt(b, p);
    assert b[2 * p] == a[at + 2 * p] && b[2 * p + 1] == a[at + 2 * p + 1];
  }

  /** Scanning a field: unit `p`, reached without meeting a zero, either is
      not zero and the scan goes on, or is zero and ends the name there. */
  lemma NameStep(f: seq<bv16>, p: nat)
    requires p < |f| && p <= FirstZero(f)
    ensures f[p] != 0 ==> p < FirstZero(f)
    ensures f[p] == 0 ==> Name(f) == f[..p]
  {
  }

  /** `for (auto p = field; *p; p++) *i++ = *p;` over the code units of the
      `units`-unit field at byte offset `at`: the units before the first zero,
      stopping at the end of the field. */
  method ReadName(oup: array<bv8>, at: nat, units: nat) returns (s: seq<bv16>)
    requires at + 2 * units <= oup.Length
    ensures s == Name(Units(oup[at..at + 2 * units]))
  {
    ghost var f := Units(oup[at..at + 2 * units]);
    s := [];
    var p := 0;
    while p < units && UnitAt(oup, at + 2 * p) != 0
      invariant p <= units && p <= FirstZero(f)
      invariant s == f[..p]
      decreases units - p
    {
      FieldUnit(oup, at, units, p);
      NameStep(f, p);
      assert f[..p + 1] == f[..p] + [f[p]];
      s := s + [UnitAt(oup, at + 2 * p)];
      p := p + 1;
    }
    if p < units {
      FieldUnit(oup, at, units, p);
      NameStep(f, p);
    } else {
      assert f[..p] == f;
    }
  }
}
