/**
 * Fixed-width unsigned integers in network (big-endian) byte order, and the
 * eight-byte header that both a SOCKS4 request and a SOCKS4 reply start with.
 * The header is what Python's `struct` module packs and unpacks with the
 * format `>BBHL`: one byte, one byte, a 16-bit and a 32-bit unsigned integer,
 * big-endian, no padding.
 */
module Wire {

  type byte = x: int | 0 <= x < 0x100
  type uint16 = x: int | 0 <= x < 0x1_0000
  type uint32 = x: int | 0 <= x < 0x1_0000_0000

  /** The value of two bytes read most significant first (struct format `>H`). */
  function Unpack16(s: seq<byte>): uint16
    requires |s| == 2
  {
    s[0] as int * 0x100 + s[1] as int
  }

  /** A 16-bit value written as two bytes, most significant first. */
  function Pack16(v: uint16): (s: seq<byte>)
    ensures |s| == 2 && Unpack16(s) == v
  {
    [v / 0x100, v % 0x100]
  }

  /** The value of four bytes read most significant first (struct format `>L`). */
  function Unpack32(s: seq<byte>): uint32
    requires |s| == 4
  {
    Unpack16(s[..2]) * 0x1_0000 + Unpack16(s[2..])
  }

  /** A 32-bit value written as four bytes, most significant first. */
  function Pack32(v: uint32): (s: seq<byte>)
    ensures |s| == 4 && Unpack32(s) == v
  {
    var s := Pack16(v / 0x1_0000) + Pack16(v % 0x1_0000);
    assert s[..2] == Pack16(v / 0x1_0000) && s[2..] == Pack16(v % 0x1_0000);
    s
  }

  /** Reading two bytes as a number loses nothing: the bytes are determined by it. */
  lemma Pack16Unpack16(s: seq<byte>)
    requires |s| == 2
    ensures Pack16(Unpack16(s)) == s
  {
  }

  /** Reading four bytes as a number loses nothing: the bytes are determined by it. */
  lemma Pack32Unpack32(s: seq<byte>)
    requires |s| == 4
    ensures Pack32(Unpack32(s)) == s
  {
    var hi, lo := Unpack16(s[..2]), Unpack16(s[2..]);
    assert Unpack32(s) / 0x1_0000 == hi && Unpack32(s) % 0x1_0000 == lo;
    Pack16Unpack16(s[..2]);
    Pack16Unpack16(s[2..]);
    assert s == s[..2] + s[2..];
  }

  /** The four octets of a 32-bit value, most significant first, as numbers. */
  lemma Pack32Octets(v: uint32)
    ensures Pack32(v) == [v / 0x100_0000, (v / 0x1_0000) % 0x100, (v / 0x100) % 0x100, v % 0x100]
  {
    var hi, lo := v / 0x1_0000, v % 0x1_0000;
    var a, b, c, d := hi / 0x100, hi % 0x100, lo / 0x100, lo % 0x100;
    assert v == a * 0x100_0000 + b * 0x1_0000 + c * 0x100 + d;
    assert v / 0x100_0000 == a;
    assert v / 0x100 == a * 0x1_0000 + b * 0x100 + c;
    assert (v / 0x100) % 0x100 == c;
    assert v % 0x100 == d;
  }

  /** The `>BBHL` header: version byte, command or result code, port, IPv4 address. */
  datatype Header = Header(vn: byte, cd: byte, port: uint16, ip: uint32)

  /** `struct.pack('>BBHL', vn, cd, port, ip)` for in-range fields. */
  function Pack(h: Header): (s: seq<byte>)
    ensures |s| == 8
    ensures s[0] == h.vn && s[1] == h.cd
    ensures Unpack16(s[2..4]) == h.port && Unpack32(s[4..8]) == h.ip
  {
    var s := [h.vn, h.cd] + Pack16(h.port) + Pack32(h.ip);
    assert s[2..4] == Pack16(h.port) && s[4..8] == Pack32(h.ip);
    s
  }

  /** `struct.unpack('>BBHL', s)` on exactly eight bytes; packing the fields back gives `s`. */
  function Unpack(s: seq<byte>): (h: Header)
    requires |s| == 8
    ensures Pack(h) == s
  {
    var h := Header(s[0], s[1], Unpack16(s[2..4]), Unpack32(s[4..8]));
    Pack16Unpack16(s[2..4]);
    Pack32Unpack32(s[4..8]);
    assert s == s[..2] + s[2..4] + s[4..8];
    h
  }

  /** Unpacking a packed header gives back every field. */
  lemma UnpackPack(h: Header)
    ensures Unpack(Pack(h)) == h
  {
  }

}
