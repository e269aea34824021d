# SOCKS4 request/reply codec

A Dafny model of the protocol core of a minimal SOCKS4 proxy written in Python
(`socks.py`). It covers three things:

- how the proxy decodes the first buffer a client sends into a `ClientRequest`;
- how it builds its eight-byte reply;
- what it decides to do with that buffer: reject it, or go on to dial a destination.

The wire format is that of SOCKS Protocol Version 4 (Ying-Da Lee), sections
"1) CONNECT" and "2) BIND". The proxy does not implement the SOCKS4a hostname
extension.

Files and modules:

- `wrappers.dfy`, module `Wrappers`: `Option`. `None` stands for a Python exception.
- `wire.dfy`, module `Wire`: bytes, 16- and 32-bit big-endian integers, and
  the eight-byte header that `struct` packs and unpacks with the format `>BBHL`.
  Requests and replies share this header.
- `decimal.dfy`, module `Decimal`: `str(n)` of a natural number, and reading it back.
- `ipv4.dfy`, module `Ipv4`: `ipaddress.IPv4Address(n).exploded`, the dotted
  quad of a 32-bit address. It also models reading the text back
  (`IPv4Address(text)`), together with the `'.'` split and join that the proofs use.
- `socks.dfy`, module `Socks`: the constants, the request decoder, the reply
  encoder and the request dispatch.

The decoder keeps the source's shape: an `invalid` flag plus the fields. The
fields are present exactly when the buffer has at least nine bytes, including
when the version or command makes the request invalid. The flag is what
`isInvalid()` returns. Where `struct.pack` would raise for an out-of-range
field, `BuildReply` returns `None`.

The dispatch is modelled as a pure decision, `Action`:

- `Reject(reply)`: send that reply and close the connection.
- `Connect(dstIp, dstPort)`: hand the request to the connect handler.

SOCKS4 ends the user-id with a NUL byte (the NULL field after USERID).
The code does not check that byte: it strips the last byte, whatever its value.
The model follows the code (`TerminatorIgnored`).

## Model

| member | source | states |
|---|---|---|
| Wire.Pack16 | socks.py:97 | the `>H` encoding of a port is two bytes that read back, most significant first, as the port |
| Wire.Pack32 | socks.py:97 | the `>L` encoding of an address is four bytes that read back, most significant first, as the address |
| Wire.Pack16Unpack16 | socks.py:41 | two bytes are determined by the 16-bit value read from them |
| Wire.Pack32Unpack32 | socks.py:41 | four bytes are determined by the 32-bit value read from them |
| Wire.Pack32Octets | socks.py:97 | the four address bytes are ip/2^24, (ip/2^16) mod 256, (ip/2^8) mod 256 and ip mod 256 |
| Wire.Pack | socks.py:97 | `>BBHL` packing gives 8 bytes: byte 0 is the version, byte 1 the code, bytes 2-3 read back as the port and bytes 4-7 as the address |
| Wire.Unpack | socks.py:41 | `>BBHL` unpacking of 8 bytes loses nothing: packing the four fields again gives the same bytes |
| Wire.UnpackPack | socks.py:41 | unpacking a packed header gives back every field |
| Decimal.Render | socks.py:56 | a rendered octet is a non-empty string of digits without a leading zero, and it starts with '0' exactly when the number is zero |
| Decimal.ParseRender | socks.py:56 | reading a rendered number back gives the number |
| Decimal.RenderParse | socks.py:56 | every digit string without a leading zero is the rendering of the number it denotes |
| Ipv4.DottedQuad | socks.py:56 | the dotted quad of any 32-bit address is a text `IPv4Address` accepts: exactly four '.'-separated pieces, each a decimal octet up to 255 without a leading zero |
| Ipv4.DottedQuadPieces | socks.py:56 | the dotted quad splits at '.' into exactly four pieces: the decimal renderings of the address's four big-endian bytes |
| Ipv4.DottedQuadOctets | socks.py:56 | those four pieces are the decimal renderings of ip/2^24, (ip/2^16) mod 256, (ip/2^8) mod 256 and ip mod 256 |
| Ipv4.DottedQuadRoundTrip | socks.py:56 | parsing the dotted quad of any 32-bit address gives back that address |
| Ipv4.DottedQuadOnto | socks.py:56 | every text that parses as an address is exactly the dotted quad of that address |
| Ipv4.DottedQuadInjective | socks.py:56 | distinct addresses have distinct dotted quads |
| Socks.DecodeRequest | socks.py:30-59 | a buffer under 9 bytes is invalid and has no fields; otherwise it is invalid iff byte 0 is not 4 or byte 1 is neither 1 nor 2, and its fields are cd = byte 1, port = byte 2 * 256 + byte 3, an address text that parses to bytes 4-7 read big-endian, and a user-id equal to bytes 8 up to but excluding the last byte, of length len - 9 |
| Socks.EncodeRequest | socks.py:41-59 | a request that a client writes for a user-id u is 9 bytes longer than u |
| Socks.DecodeEncodeRequest | socks.py:41-59 | decoding a request a client wrote recovers its command, port, address and user-id, and the request is invalid exactly when the command is neither CONNECT nor BIND |
| Socks.EncodeDecodeRequest | socks.py:41-59 | every buffer of 9 or more bytes with version 4 and a final NUL is exactly the request a client writes for the decoded fields |
| Socks.TerminatorIgnored | socks.py:58-59 | the last byte is dropped whatever its value: two buffers that differ only in their last byte decode identically |
| Socks.BuildReply | socks.py:96-97 | a reply is built exactly when the code, port and address fit in 8, 16 and 32 bits; it is then 8 bytes that unpack to version 0 and the given code, port and address |
| Socks.BuildReplyBytes | socks.py:96-97 | the reply bytes are 0, cd, port/256, port mod 256, then the four address bytes from the most significant |
| Socks.BuildReplyOnto | socks.py:96-97 | every 8-byte sequence whose first byte is 0 is the reply for the code, port and address it holds |
| Socks.RejectedReply | socks.py:96-97 | the rejection with default port and address is exactly `00 5B 00 00 00 00 00 00` |
| Socks.ProcessBindRequest | socks.py:117-120 | a BIND request is always answered with `00 5B 00 00 00 00 00 00` and nothing is dialled |
| Socks.ProcessRequest | socks.py:122-134 | a dial happens only for a buffer of at least 9 bytes with version 4 and command 1 (CONNECT), to the port in bytes 2-3 and the dotted quad of bytes 4-7; every other outcome is the reply `00 5B 00 00 00 00 00 00` |
| Socks.ProcessRequestConnects | socks.py:122-134 | a buffer leads to a dial iff it has at least 9 bytes, version 4 and command 1 |
| Socks.ProcessRequestTarget | socks.py:122-134 | a dial goes to port bytes 2-3 and to the dotted quad of bytes 4-7, which parses back to those bytes |
| Socks.ProcessRequestRejects | socks.py:122-134 | a buffer is rejected iff it is under 9 bytes, has a version other than 4 or a command other than 1; every rejection is the same 8 bytes `00 5B 00 00 00 00 00 00` |
| Socks.ConnectExample | socks.py:122-134 | `04 01 1F 90 7F 00 00 01 00` leads to a dial of 127.0.0.1 port 8080 |
| Socks.GrantedReplyExample | socks.py:96-97 | granting a CONNECT to 127.0.0.1:8080 sends `00 5A 1F 90 7F 00 00 01` |
| Socks.RejectExamples | socks.py:122-134 | a wrong version (`03 ...`) and a BIND (`04 02 ...`) are each answered with `00 5B 00 00 00 00 00 00` |

## Left out

- The listener loop `SocksProxy.start` (socks.py:72-94) is not modelled. It is socket setup, accept, a single `recv`, printing and `sys.exit`.
- The connect handler `_process_connect_request` (socks.py:99-115) is not modelled. It dials the destination over the network with a timeout and sends the replies. The model stops at the `Connect` decision.
- The connect handler's timeout path sends REJECTED and closes both sockets (socks.py:107-109), then falls through to the GRANTED `send` at socks.py:111. That `send` runs on the closed client socket and raises `OSError`, so no GRANTED reply goes out and no relay starts (socks.py:113-115). The exception propagates to the listener's `except Exception` (socks.py:91-94), which prints it, closes the listening socket and exits the process. This needs the network and is not modelled, so the model states no single-reply property for CONNECT.
- The relay `_forward_connection` (socks.py:140-165) and `_close_all` (socks.py:136-138) are not modelled. They are concurrency and socket readiness. The relay calls an unqualified `_close_all`, which is not defined at module level.
- Threads, timeouts and the configuration constants HOST, PORT, BUFSIZE, BACKLOG and CONNECT_TIMEOUT (socks.py:8-16) are not modelled.
- Python's `struct` and `ipaddress` modules are not part of this model. `Wire` and `Ipv4` state the behaviour the code relies on: big-endian `>BBHL` packing, and the dotted quad of a 32-bit integer.
- Wire.Unpack does not model the `struct.error` that `struct.unpack` raises for a buffer of the wrong length: it requires exactly 8 bytes, which is what the decoder always passes it (`data[:8]` of a buffer of at least 9 bytes, socks.py:36-41).
