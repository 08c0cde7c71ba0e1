/** Little-endian integers and byte streams, as the file format uses them. */
module Bytes {
  import opened Collections
  import opened Events

  ghost function Pow256(width: nat): nat {
    if width == 0 then 1 else 256 * Pow256(width - 1)
  }

  /** The low `width` bytes of `v`, least significant first. */
  function ToLe(v: nat, width: nat): (s: seq<u8>)
    ensures |s| == width
  {
    if width == 0 then [] else [v % 256] + ToLe(v / 256, width - 1)
  }

  function FromLe(s: seq<u8>): nat {
    if s == [] then 0 else s[0] + 256 * FromLe(s[1..])
  }

  lemma {:induction false} FromLeBound(s: seq<u8>)
    ensures FromLe(s) < Pow256(|s|)
  {
    if s != [] {
      FromLeBound(s[1..]);
    }
  }

  /** Decoding undoes encoding for every value that fits. */
  lemma {:induction false} LeDecodes(v: nat, width: nat)
    requires v < Pow256(width)
    ensures FromLe(ToLe(v, width)) == v
  {
    if width > 0 {
      LeDecodes(v / 256, width - 1);
      assert ToLe(v, width)[1..] == ToLe(v / 256, width - 1);
    }
  }

  /** Encoding undoes decoding for every byte string. */
  lemma {:induction false} LeEncodes(s: seq<u8>)
    ensures ToLe(FromLe(s), |s|) == s
  {
    if s != [] {
      LeEncodes(s[1..]);
      assert FromLe(s) % 256 == s[0] && FromLe(s) / 256 == FromLe(s[1..]);
    }
  }

  lemma Widths()
    ensures Pow256(1) == 0x100 && Pow256(2) == 0x1_0000
    ensures Pow256(4) == 0x1_0000_0000 && Pow256(8) == 0x1_0000_0000_0000_0000
  {
    assert Pow256(0) == 1;
    assert Pow256(3) == 256 * Pow256(2) && Pow256(4) == 256 * Pow256(3);
    assert Pow256(5) == 256 * Pow256(4) && Pow256(6) == 256 * Pow256(5);
    assert Pow256(7) == 256 * Pow256(6);
  }

  function DecodeU16(s: seq<u8>): u16
    requires |s| == 2
  {
    FromLeBound(s);
    Widths();
    FromLe(s)
  }

  function DecodeU32(s: seq<u8>): u32
    requires |s| == 4
  {
    FromLeBound(s);
    Widths();
    FromLe(s)
  }

  function DecodeU64(s: seq<u8>): u64
    requires |s| == 8
  {
    FromLeBound(s);
    Widths();
    FromLe(s)
  }

  lemma DecodesU16(v: u16)
    ensures DecodeU16(ToLe(v, 2)) == v
  {
    Widths();
    LeDecodes(v, 2);
  }

  lemma DecodesU32(v: u32)
    ensures DecodeU32(ToLe(v, 4)) == v
  {
    Widths();
    LeDecodes(v, 4);
  }

  lemma DecodesU64(v: u64)
    ensures DecodeU64(ToLe(v, 8)) == v
  {
    Widths();
    LeDecodes(v, 8);
  }

  // ---------- byte by byte ----------

  /** Two, four and eight bytes, least significant first, written out. */
  function Le2(v: nat): (s: seq<u8>)
    ensures |s| == 2
  {
    [v % 256, v / 0x100 % 256]
  }

  function Le4(v: nat): (s: seq<u8>)
    ensures |s| == 4
  {
    [v % 256, v / 0x100 % 256, v / 0x1_0000 % 256, v / 0x100_0000 % 256]
  }

  function Le8(v: nat): (s: seq<u8>)
    ensures |s| == 8
  {
    Le4(v) + [v / 0x1_0000_0000 % 256, v / 0x100_0000_0000 % 256,
              v / 0x1_0000_0000_0000 % 256, v / 0x100_0000_0000_0000 % 256]
  }

  lemma FourMore(v: nat, width: nat)
    ensures ToLe(v, width + 4) == Le4(v) + ToLe(v / 0x1_0000_0000, width)
  {
    var a, b, c := v / 256, v / 0x1_0000, v / 0x100_0000;
    assert a / 256 == b && b / 256 == c && c / 256 == v / 0x1_0000_0000;
    assert ToLe(v, width + 4) == [v % 256] + ToLe(a, width + 3);
    assert ToLe(a, width + 3) == [a % 256] + ToLe(b, width + 2);
    assert ToLe(b, width + 2) == [b % 256] + ToLe(c, width + 1);
    assert ToLe(c, width + 1) == [c % 256] + ToLe(c / 256, width);
  }

  /** What the bytes of a field are. */
  lemma BytesOf(v: nat)
    ensures ToLe(v, 2) == Le2(v) && ToLe(v, 4) == Le4(v) && ToLe(v, 8) == Le8(v)
  {
    assert ToLe(v, 2) == [v % 256] + ToLe(v / 256, 1);
    assert ToLe(v / 256, 1) == [v / 256 % 256] + ToLe(v / 256 / 256, 0);
    FourMore(v, 0);
    FourMore(v, 4);
    FourMore(v / 0x1_0000_0000, 0);
    UpperBytes(v, v / 0x1_0000_0000);
  }

  lemma UpperBytes(v: nat, u: nat)
    requires u == v / 0x1_0000_0000
    ensures Le8(v) == Le4(v) + Le4(u)
  {
    assert u / 0x100 == v / 0x100_0000_0000 && u / 0x1_0000 == v / 0x1_0000_0000_0000;
    assert u / 0x100_0000 == v / 0x100_0000_0000_0000;
  }

  /** What number the bytes of a field stand for. */
  function Number2(s: seq<u8>): nat
    requires |s| == 2
  {
    var a: nat, b: nat := s[0], s[1];
    a + 0x100 * b
  }

  function Number4(s: seq<u8>): nat
    requires |s| == 4
  {
    var a: nat, b: nat, c: nat, d: nat := s[0], s[1], s[2], s[3];
    a + 0x100 * b + 0x1_0000 * c + 0x100_0000 * d
  }

  function Number8(s: seq<u8>): nat
    requires |s| == 8
  {
    Number4(s[..4]) + 0x1_0000_0000 * Number4(s[4..])
  }

  lemma FromFour(s: seq<u8>)
    requires |s| >= 4
    ensures FromLe(s) == s[0] + 0x100 * s[1] + 0x1_0000 * s[2] + 0x100_0000 * s[3] + 0x1_0000_0000 * FromLe(s[4..])
  {
    var a := s[1..];
    var b := a[1..];
    var c := b[1..];
    assert FromLe(s) == s[0] + 256 * FromLe(a) && FromLe(a) == s[1] + 256 * FromLe(b);
    assert FromLe(b) == s[2] + 256 * FromLe(c) && FromLe(c) == s[3] + 256 * FromLe(c[1..]);
    assert c[1..] == s[4..];
  }

  lemma NumberOf2(s: seq<u8>)
    requires |s| == 2
    ensures DecodeU16(s) == Number2(s)
  {
    var a := s[1..];
    assert FromLe(s) == s[0] + 256 * FromLe(a) && FromLe(a) == s[1] + 256 * FromLe(a[1..]);
  }

  lemma NumberOf4(s: seq<u8>)
    requires |s| == 4
    ensures DecodeU32(s) == Number4(s)
  {
    FromFour(s);
    assert FromLe(s[4..]) == 0;
  }

  lemma NumberOf8(s: seq<u8>)
    requires |s| == 8
    ensures DecodeU64(s) == Number8(s)
  {
    var upper := s[4..];
    FromFour(s);
    FromFour(upper);
    assert FromLe(upper[4..]) == 0;
  }

  lemma SliceOfSlice(s: seq<u8>, from: nat, to: nat, a: nat, b: nat)
    requires from <= to <= |s| && a <= b <= to - from
    ensures s[from..to][a..b] == s[from + a..from + b]
  {
    var whole, part := s[from..to][a..b], s[from + a..from + b];
    assert |whole| == |part| && forall i | 0 <= i < |part| :: whole[i] == part[i];
  }

  // ---------- streams ----------

  /** `data` with `bytes` written over it from `pos`, growing it if need be. */
  function Overwrite(data: seq<u8>, pos: nat, bytes: seq<u8>): seq<u8>
    requires pos <= |data|
  {
    data[..pos] + bytes + if pos + |bytes| <= |data| then data[pos + |bytes|..] else []
  }

  /** An in-memory `Read + Write + Seek`. */
  class ByteStream {
    var data: seq<u8>
    var pos: nat

    constructor (content: seq<u8>)
      ensures data == content && pos == 0
    {
      data, pos := content, 0;
    }

    method WriteAll(bytes: seq<u8>)
      requires pos <= |data|
      modifies this
      ensures data == Overwrite(old(data), old(pos), bytes) && pos == old(pos) + |bytes|
    {
      data := Overwrite(data, pos, bytes);
      pos := pos + |bytes|;
    }

    /** `write_all` at the end of the stream. */
    method Append(bytes: seq<u8>)
      requires pos == |data|
      modifies this
      ensures data == old(data) + bytes && pos == |data|
    {
      WriteAll(bytes);
      assert Overwrite(old(data), |old(data)|, bytes) == old(data) + bytes;
    }

    /** `read_exact`: all `n` bytes, or end of file. Reading nothing succeeds
        wherever the stream stands. */
    method ReadExact(n: nat) returns (bytes: Option<seq<u8>>)
      modifies this`pos
      ensures bytes == if n == 0 then Some([])
                       else if old(pos) + n <= |data| then Some(data[old(pos)..old(pos) + n]) else None
      ensures bytes.Some? ==> pos == old(pos) + n
    {
      if n == 0 {
        bytes := Some([]);
      } else if pos + n <= |data| {
        bytes := Some(data[pos..pos + n]);
        pos := pos + n;
      } else {
        bytes := None;
        pos := Max(pos, |data|);
      }
    }

    method SeekTo(target: nat)
      modifies this`pos
      ensures pos == target
    {
      pos := target;
    }
  }

  /** `buf[offset..offset + bytes.len()].copy_from_slice(bytes)`. */
  method CopyInto(buf: array<u8>, offset: nat, bytes: seq<u8>)
    requires offset + |bytes| <= buf.Length
    modifies buf
    ensures buf[..offset + |bytes|] == old(buf[..offset]) + bytes
    ensures buf[offset + |bytes|..] == old(buf[offset + |bytes|..])
  {
    for i := 0 to |bytes|
      invariant buf[..offset + i] == old(buf[..offset]) + bytes[..i]
      invariant buf[offset + |bytes|..] == old(buf[offset + |bytes|..])
    {
      buf[offset + i] := bytes[i];
      assert bytes[..i + 1] == bytes[..i] + [bytes[i]];
      assert buf[..offset + i + 1] == buf[..offset + i] + [bytes[i]];
    }
    assert bytes[..|bytes|] == bytes;
  }
}
