/**
 * The dotted-quad text of an IPv4 address, as Python's
 * `ipaddress.IPv4Address(n).exploded` writes a 32-bit integer `n`: its four
 * octets, most significant first, each in decimal, joined by '.'.
 * `ParseDottedQuad` is the reverse reading (`IPv4Address(text)`), which
 * accepts exactly four '.'-separated decimal octets up to 255 without
 * leading zeros.
 */
module Ipv4 {
  import opened Wrappers
  import opened Wire
  import Decimal

  predicate DotFree(s: string) {
    forall i :: 0 <= i < |s| ==> s[i] != '.'
  }

  /** The pieces of `s` between dots, like Python's `s.split('.')`. */
  function Split(s: string): (parts: seq<string>)
    ensures |parts| >= 1
    ensures forall i :: 0 <= i < |parts| ==> DotFree(parts[i])
  {
    if s == [] then [[]]
    else
      var rest := Split(s[1..]);
      if s[0] == '.' then [[]] + rest
      else [[s[0]] + rest[0]] + rest[1..]
  }

  /** The pieces joined with '.', like Python's `'.'.join(parts)`. */
  function Join(parts: seq<string>): string
    requires |parts| >= 1
  {
    if |parts| == 1 then parts[0] else parts[0] + ['.'] + Join(parts[1..])
  }

  /** Splitting a string and joining the pieces gives the string back. */
  lemma {:induction false} JoinSplit(s: string)
    ensures Join(Split(s)) == s
  {
    if s != [] {
      var rest := Split(s[1..]);
      JoinSplit(s[1..]);
      if s[0] != '.' && |rest| > 1 {
        assert Join(rest) == rest[0] + ['.'] + Join(rest[1..]);
        assert Split(s)[1..] == rest[1..];
      }
    }
  }

  /** A dot-free prefix becomes the head of the first piece. */
  lemma {:induction false} SplitDotFreePrefix(p: string, t: string)
    requires DotFree(p)
    ensures Split(p + t) == [p + Split(t)[0]] + Split(t)[1..]
  {
    var st := Split(t);
    if p == [] {
      assert p + t == t && p + st[0] == st[0] && st == [st[0]] + st[1..];
    } else {
      assert (p + t)[0] == p[0] && (p + t)[1..] == p[1..] + t;
      SplitDotFreePrefix(p[1..], t);
      var rest := Split(p[1..] + t);
      assert rest[0] == p[1..] + st[0] && rest[1..] == st[1..];
      assert [p[0]] + rest[0] == p + st[0];
    }
  }

  /** Joining dot-free pieces and splitting the result gives the pieces back. */
  lemma {:induction false} SplitJoin(parts: seq<string>)
    requires |parts| >= 1
    requires forall i :: 0 <= i < |parts| ==> DotFree(parts[i])
    ensures Split(Join(parts)) == parts
  {
    if |parts| == 1 {
      SplitDotFreePrefix(parts[0], []);
      assert parts[0] + [] == parts[0];
    } else {
      var t := Join(parts[1..]);
      SplitJoin(parts[1..]);
      assert parts[0] + ['.'] + t == parts[0] + (['.'] + t);
      SplitDotFreePrefix(parts[0], ['.'] + t);
      assert (['.'] + t)[0] == '.' && (['.'] + t)[1..] == t;
      var sd := Split(['.'] + t);
      assert sd == [[]] + Split(t);
      assert sd[0] == [] && sd[1..] == parts[1..];
      assert parts[0] + sd[0] == parts[0];
      assert parts == [parts[0]] + parts[1..];
    }
  }

  lemma RenderDotFree(n: nat)
    ensures DotFree(Decimal.Render(n))
  {
  }

  /** `IPv4Address(ip).exploded`: the four octets in decimal, joined by '.'. */
  function DottedQuad(ip: uint32): (s: string)
    ensures |Split(s)| == 4
    ensures forall i :: 0 <= i < 4 ==> IsOctet(Split(s)[i])
  {
    var o := Pack32(ip);
    var parts := [Decimal.Render(o[0]), Decimal.Render(o[1]), Decimal.Render(o[2]), Decimal.Render(o[3])];
    forall i | 0 <= i < 4
      ensures DotFree(parts[i]) && IsOctet(parts[i])
    {
      RenderDotFree(o[i]);
      Decimal.ParseRender(o[i]);
    }
    SplitJoin(parts);
    Join(parts)
  }

  /** A decimal octet as `IPv4Address(text)` accepts it. */
  predicate IsOctet(s: string) {
    Decimal.Canonical(s) && Decimal.Parse(s) < 0x100
  }

  /** `IPv4Address(text)` read as a 32-bit value, or None where it raises. */
  function ParseDottedQuad(s: string): Option<uint32>
  {
    var parts := Split(s);
    if |parts| == 4 && IsOctet(parts[0]) && IsOctet(parts[1]) && IsOctet(parts[2]) && IsOctet(parts[3])
    then Some(Unpack32([Decimal.Parse(parts[0]), Decimal.Parse(parts[1]), Decimal.Parse(parts[2]), Decimal.Parse(parts[3])]))
    else None
  }

  /** The text has four pieces: the decimal octets of `ip`, most significant first. */
  lemma DottedQuadPieces(ip: uint32)
    ensures var o := Pack32(ip);
            Split(DottedQuad(ip)) == [Decimal.Render(o[0]), Decimal.Render(o[1]), Decimal.Render(o[2]), Decimal.Render(o[3])]
  {
    var o := Pack32(ip);
    RenderDotFree(o[0]);
    RenderDotFree(o[1]);
    RenderDotFree(o[2]);
    RenderDotFree(o[3]);
    SplitJoin([Decimal.Render(o[0]), Decimal.Render(o[1]), Decimal.Render(o[2]), Decimal.Render(o[3])]);
  }

  /** The same four pieces, with each octet computed from the 32-bit value. */
  lemma DottedQuadOctets(ip: uint32)
    ensures Split(DottedQuad(ip)) == [Decimal.Render(ip / 0x100_0000), Decimal.Render((ip / 0x1_0000) % 0x100),
                                      Decimal.Render((ip / 0x100) % 0x100), Decimal.Render(ip % 0x100)]
  {
    DottedQuadPieces(ip);
    Pack32Octets(ip);
  }

  /** Reading the dotted quad back gives the original 32-bit address. */
  lemma DottedQuadRoundTrip(ip: uint32)
    ensures ParseDottedQuad(DottedQuad(ip)) == Some(ip)
  {
    var o := Pack32(ip);
    var parts := [Decimal.Render(o[0]), Decimal.Render(o[1]), Decimal.Render(o[2]), Decimal.Render(o[3])];
    forall i | 0 <= i < 4
      ensures DotFree(parts[i]) && IsOctet(parts[i]) && Decimal.Parse(parts[i]) == o[i]
    {
      RenderDotFree(o[i]);
      Decimal.ParseRender(o[i]);
    }
    SplitJoin(parts);
    assert [o[0], o[1], o[2], o[3]] == o;
  }

  /** Every text `IPv4Address` accepts is the dotted quad of the value it denotes. */
  lemma DottedQuadOnto(s: string, ip: uint32)
    requires ParseDottedQuad(s) == Some(ip)
    ensures DottedQuad(ip) == s
  {
    var parts := Split(s);
    var o := [Decimal.Parse(parts[0]), Decimal.Parse(parts[1]), Decimal.Parse(parts[2]), Decimal.Parse(parts[3])];
    Pack32Unpack32(o);
    forall i | 0 <= i < 4
      ensures Decimal.Render(o[i]) == parts[i]
    {
      Decimal.RenderParse(parts[i]);
    }
    assert [parts[0], parts[1], parts[2], parts[3]] == parts;
    JoinSplit(s);
  }

  /** Distinct addresses are written differently. */
  lemma DottedQuadInjective(a: uint32, b: uint32)
    requires DottedQuad(a) == DottedQuad(b)
    ensures a == b
  {
    DottedQuadRoundTrip(a);
    DottedQuadRoundTrip(b);
  }

}
