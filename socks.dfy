/**
 * The SOCKS4 side of the proxy: the constants of the protocol, the decoding
 * of a client's CONNECT/BIND request, the eight-byte reply, and the decision
 * the proxy takes on the first buffer a client sends. The wire format is the
 * one of "SOCKS: A protocol for TCP proxy across firewalls" (SOCKS Protocol
 * Version 4, Ying-Da Lee), sections "1) CONNECT" and "2) BIND".
 */
module Socks {
  import opened Wrappers
  import opened Wire
  import Decimal
  import Ipv4

  /** Version byte of every server reply. */
  const ReplyVn: byte := 0x00
  /** Version byte a client must send. */
  const ClientVn: byte := 0x04

  const RequestTypeConnect: byte := 0x01
  const RequestTypeBind: byte := 0x02

  const RequestGranted: byte := 90
  const RequestRejected: byte := 91

  /** Shortest buffer the decoder parses: the eight-byte header and one more byte. */
  const MinRequestLength: nat := 9

  /** The fields the decoder sets once the buffer is long enough. */
  datatype Fields = Fields(cd: byte, dstPort: uint16, dstIp: string, userid: seq<byte>)

  /**
   * A decoded client request: the `invalid` flag, and the fields, which are
   * present exactly when the buffer was long enough to read them (they are
   * read, and kept, even when the version or command makes the request invalid).
   */
  datatype ClientRequest = ClientRequest(invalid: bool, fields: Option<Fields>)

  /** Decodes the first buffer a client sends. */
  function DecodeRequest(data: seq<byte>): (r: ClientRequest)
    ensures |data| < MinRequestLength ==> r == ClientRequest(true, None)
    ensures |data| >= MinRequestLength ==>
      && (r.invalid <==> data[0] != ClientVn || (data[1] != RequestTypeConnect && data[1] != RequestTypeBind))
      && r.fields.Some?
      && r.fields.value.cd == data[1]
      && r.fields.value.dstPort == data[2] as int * 256 + data[3] as int
      && Ipv4.ParseDottedQuad(r.fields.value.dstIp)
           == Some(((data[4] as int * 256 + data[5] as int) * 256 + data[6] as int) * 256 + data[7] as int)
      && |r.fields.value.userid| == |data| - MinRequestLength
      && r.fields.value.userid == data[8..|data| - 1]
  {
    if |data| < MinRequestLength then ClientRequest(true, None)
    else
      var h := Unpack(data[..8]);
      var invalid := h.vn != ClientVn || (h.cd != RequestTypeConnect && h.cd != RequestTypeBind);
      Ipv4.DottedQuadRoundTrip(h.ip);
      ClientRequest(invalid, Some(Fields(h.cd, h.port, Ipv4.DottedQuad(h.ip), data[8..|data| - 1])))
  }

  /**
   * A request as a SOCKS4 client writes it: the header with version 4, the
   * user-id, and the terminating NUL byte.
   */
  function EncodeRequest(cd: byte, dstPort: uint16, dstIp: uint32, userid: seq<byte>): (data: seq<byte>)
    ensures |data| == MinRequestLength + |userid|
  {
    Pack(Header(ClientVn, cd, dstPort, dstIp)) + userid + [0]
  }

  /** Decoding what a client wrote recovers every field; only the command decides validity. */
  lemma DecodeEncodeRequest(cd: byte, dstPort: uint16, dstIp: uint32, userid: seq<byte>)
    ensures DecodeRequest(EncodeRequest(cd, dstPort, dstIp, userid))
         == ClientRequest(cd != RequestTypeConnect && cd != RequestTypeBind,
                          Some(Fields(cd, dstPort, Ipv4.DottedQuad(dstIp), userid)))
  {
    var data := EncodeRequest(cd, dstPort, dstIp, userid);
    var h := Header(ClientVn, cd, dstPort, dstIp);
    assert data[..8] == Pack(h);
    UnpackPack(h);
    assert data[8..|data| - 1] == userid;
  }

  /**
   * Every buffer of at least nine bytes with version 4 and a final NUL is what
   * a client writes for the decoded fields: the decoder drops nothing else.
   */
  lemma EncodeDecodeRequest(data: seq<byte>)
    requires |data| >= MinRequestLength && data[0] == ClientVn && data[|data| - 1] == 0
    ensures var f := DecodeRequest(data).fields.value;
            && Ipv4.ParseDottedQuad(f.dstIp).Some?
            && data == EncodeRequest(f.cd, f.dstPort, Ipv4.ParseDottedQuad(f.dstIp).value, f.userid)
  {
    var h := Unpack(data[..8]);
    Ipv4.DottedQuadRoundTrip(h.ip);
    assert data == data[..8] + data[8..|data| - 1] + [data[|data| - 1]];
  }

  /** The last byte is stripped whatever it is: it is never checked to be NUL. */
  lemma TerminatorIgnored(prefix: seq<byte>, t: byte, t': byte)
    ensures DecodeRequest(prefix + [t]) == DecodeRequest(prefix + [t'])
  {
    var a, b := prefix + [t], prefix + [t'];
    if |a| >= MinRequestLength {
      assert a[..8] == b[..8] && a[8..|a| - 1] == b[8..|b| - 1];
    }
  }

  /**
   * `_build_reply(cd, dst_port, dst_ip)`: `struct.pack('>BBHL', VN, cd, ...)`,
   * or None where `struct.pack` raises because a field is out of range.
   */
  function BuildReply(cd: int, dstPort: int := 0, dstIp: int := 0): (r: Option<seq<byte>>)
    ensures r.Some? <==> 0 <= cd < 0x100 && 0 <= dstPort < 0x1_0000 && 0 <= dstIp < 0x1_0000_0000
    ensures r.Some? ==> |r.value| == 8 && Unpack(r.value) == Header(ReplyVn, cd, dstPort, dstIp)
  {
    if 0 <= cd < 0x100 && 0 <= dstPort < 0x1_0000 && 0 <= dstIp < 0x1_0000_0000 then
      var h := Header(ReplyVn, cd as byte, dstPort as uint16, dstIp as uint32);
      UnpackPack(h);
      Some(Pack(h))
    else
      None
  }

  /** The reply bytes, field by field: 0, the code, then port and address big-endian. */
  lemma BuildReplyBytes(cd: byte, dstPort: uint16, dstIp: uint32)
    ensures BuildReply(cd, dstPort, dstIp) == Some([ReplyVn, cd, dstPort / 0x100, dstPort % 0x100,
                                                    dstIp / 0x100_0000, (dstIp / 0x1_0000) % 0x100,
                                                    (dstIp / 0x100) % 0x100, dstIp % 0x100])
  {
    var h := Header(ReplyVn, cd, dstPort, dstIp);
    assert BuildReply(cd, dstPort, dstIp) == Some(Pack(h));
    Pack32Octets(dstIp);
    assert Pack16(dstPort) == [dstPort / 0x100, dstPort % 0x100];
    assert Pack(h) == [ReplyVn, cd] + Pack16(dstPort) + Pack32(dstIp);
    var r: seq<byte> := [ReplyVn, cd, dstPort / 0x100, dstPort % 0x100,
                         dstIp / 0x100_0000, (dstIp / 0x1_0000) % 0x100, (dstIp / 0x100) % 0x100, dstIp % 0x100];
    assert Pack(h) == r;
  }

  /** Every eight bytes starting with the reply version are the reply for the fields they hold. */
  lemma BuildReplyOnto(s: seq<byte>)
    requires |s| == 8 && s[0] == ReplyVn
    ensures var h := Unpack(s); BuildReply(h.cd, h.port, h.ip) == Some(s)
  {
  }

  /** The reply for a rejected request, with the default port and address. */
  function RejectedReply(): (r: seq<byte>)
    ensures r == [0x00, 0x5B, 0x00, 0x00, 0x00, 0x00, 0x00, 0x00]
  {
    BuildReplyBytes(RequestRejected, 0, 0);
    BuildReply(RequestRejected).value
  }

  /** What the proxy does with the first buffer a client sends. */
  datatype Action =
    | Reject(reply: seq<byte>)              // send the reply and close; nothing is dialled
    | Connect(dstIp: string, dstPort: uint16)  // go on to dial the destination

  /** `_process_bind_request`: BIND is not supported, so it is always rejected. */
  function ProcessBindRequest(request: Fields): (a: Action)
    ensures a == Reject([0x00, 0x5B, 0x00, 0x00, 0x00, 0x00, 0x00, 0x00])
  {
    Reject(RejectedReply())
  }

  /** `_process_request`: reject invalid requests, dial for CONNECT, reject BIND. */
  function ProcessRequest(data: seq<byte>): (a: Action)
    ensures a.Connect? ==>
      && |data| >= MinRequestLength && data[0] == ClientVn && data[1] == RequestTypeConnect
      && a.dstPort == Unpack16(data[2..4])
      && a.dstIp == Ipv4.DottedQuad(Unpack32(data[4..8]))
    ensures a.Reject? ==> a.reply == [0x00, 0x5B, 0x00, 0x00, 0x00, 0x00, 0x00, 0x00]
  {
    var request := DecodeRequest(data);
    if request.invalid then Reject(RejectedReply())
    else if request.fields.value.cd == RequestTypeConnect then
      Connect(request.fields.value.dstIp, request.fields.value.dstPort)
    else
      ProcessBindRequest(request.fields.value)
  }

  /** Exactly the well-formed CONNECT requests lead to a dial. */
  lemma ProcessRequestConnects(data: seq<byte>)
    ensures ProcessRequest(data).Connect? <==>
      |data| >= MinRequestLength && data[0] == ClientVn && data[1] == RequestTypeConnect
  {
  }

  /** A dial goes to the port and address the request carries. */
  lemma ProcessRequestTarget(data: seq<byte>)
    requires ProcessRequest(data).Connect?
    ensures ProcessRequest(data).dstPort == Unpack16(data[2..4])
    ensures Ipv4.ParseDottedQuad(ProcessRequest(data).dstIp) == Some(Unpack32(data[4..8]))
    ensures ProcessRequest(data).dstIp == Ipv4.DottedQuad(Unpack32(data[4..8]))
  {
    Ipv4.DottedQuadRoundTrip(Unpack32(data[4..8]));
  }

  /**
   * Every other buffer (too short, wrong version, unknown command, or BIND)
   * is answered with the same eight bytes `00 5B 00 00 00 00 00 00`.
   */
  lemma ProcessRequestRejects(data: seq<byte>)
    ensures ProcessRequest(data).Reject? <==>
      |data| < MinRequestLength || data[0] != ClientVn || data[1] != RequestTypeConnect
    ensures ProcessRequest(data).Reject? ==> ProcessRequest(data).reply == [0x00, 0x5B, 0x00, 0x00, 0x00, 0x00, 0x00, 0x00]
  {
  }

  /** CONNECT to 127.0.0.1:8080 with an empty user-id leads to a dial of that address. */
  lemma ConnectExample()
    ensures ProcessRequest([0x04, 0x01, 0x1F, 0x90, 0x7F, 0x00, 0x00, 0x01, 0x00]) == Connect("127.0.0.1", 8080)
  {
    var data: seq<byte> := [0x04, 0x01, 0x1F, 0x90, 0x7F, 0x00, 0x00, 0x01, 0x00];
    var h := Unpack(data[..8]);
    assert h == Header(ClientVn, RequestTypeConnect, 8080, 0x7F00_0001);
    Pack32Octets(0x7F00_0001);
    assert Decimal.Render(12) == "12";
    assert Decimal.Render(127) == "127";
    assert Ipv4.DottedQuad(0x7F00_0001) == Ipv4.Join(["127", "0", "0", "1"]);
    assert Ipv4.Join(["127", "0", "0", "1"]) == "127.0.0.1";
  }

  /** The reply granting that CONNECT echoes its port and address. */
  lemma GrantedReplyExample()
    ensures BuildReply(RequestGranted, 8080, 0x7F00_0001) == Some([0x00, 0x5A, 0x1F, 0x90, 0x7F, 0x00, 0x00, 0x01])
  {
    BuildReplyBytes(RequestGranted, 8080, 0x7F00_0001);
  }

  /** A wrong version byte and a BIND are both answered with the rejection. */
  lemma RejectExamples()
    ensures ProcessRequest([0x03, 0x01, 0x1F, 0x90, 0x7F, 0x00, 0x00, 0x01, 0x00]) == Reject([0x00, 0x5B, 0x00, 0x00, 0x00, 0x00, 0x00, 0x00])
    ensures ProcessRequest([0x04, 0x02, 0x1F, 0x90, 0x7F, 0x00, 0x00, 0x01, 0x00]) == Reject([0x00, 0x5B, 0x00, 0x00, 0x00, 0x00, 0x00, 0x00])
  {
  }

}
