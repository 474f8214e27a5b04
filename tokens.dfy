/** The random tokens and expiry instants of `api/utils/tokens.go`. The 32
    random bytes are an input: `None` stands for a failed read of the random
    source. */
module Tokens {
  import opened Common

  /** The buffer every token generator fills. */
  type TokenBytes = s: seq<Byte> | |s| == 32 witness seq(32, i => 0)

  /** What the random source delivered. */
  type RandomRead = Option<TokenBytes>

  const HexAlphabet: string := "0123456789abcdef"

  predicate IsHexChar(c: char)
  {
    '0' <= c <= '9' || 'a' <= c <= 'f'
  }

  function HexChar(d: nat): (c: char)
    requires d < 16
    ensures IsHexChar(c)
  {
    HexAlphabet[d]
  }

  function HexValue(c: char): (d: nat)
    requires IsHexChar(c)
    ensures d < 16 && HexChar(d) == c
  {
    if c <= '9' then c as int - '0' as int else c as int - 'a' as int + 10
  }

  lemma HexValueOfChar(d: nat)
    requires d < 16
    ensures HexValue(HexChar(d)) == d
  {
    assert HexAlphabet[d] as int == if d < 10 then '0' as int + d else 'a' as int + d - 10;
  }

  /** `hex.EncodeToString`: two lower-case digits per byte, high nibble first. */
  function HexEncode(bytes: seq<Byte>): (s: string)
    ensures |s| == 2 * |bytes|
    ensures forall i :: 0 <= i < |s| ==> IsHexChar(s[i])
  {
    if bytes == [] then [] else [HexChar(bytes[0] / 16), HexChar(bytes[0] % 16)] + HexEncode(bytes[1..])
  }

  /** The inverse reading: pairs of lower-case hex digits back to bytes. */
  function HexDecode(s: string): Option<seq<Byte>>
  {
    if s == [] then Some([])
    else if |s| == 1 || !IsHexChar(s[0]) || !IsHexChar(s[1]) then None
    else match HexDecode(s[2..])
      case None => None
      case Some(rest) => Some([16 * HexValue(s[0]) + HexValue(s[1])] + rest)
  }

  /** Encoding loses nothing: the token determines the bytes it came from. */
  lemma {:induction false} HexRoundTrip(bytes: seq<Byte>)
    ensures HexDecode(HexEncode(bytes)) == Some(bytes)
  {
    if bytes != [] {
      var b, rest := bytes[0], bytes[1..];
      HexRoundTrip(rest);
      HexValueOfChar(b / 16);
      HexValueOfChar(b % 16);
      var s := HexEncode(bytes);
      assert s == [HexChar(b / 16), HexChar(b % 16)] + HexEncode(rest);
      assert s[2..] == HexEncode(rest);
      assert HexDecode(s) == Some([16 * (b / 16) + b % 16] + rest);
      assert bytes == [b] + rest;
    }
  }

  lemma HexEncodeInjective(a: seq<Byte>, b: seq<Byte>)
    requires HexEncode(a) == HexEncode(b)
    ensures a == b
  {
    HexRoundTrip(a);
    HexRoundTrip(b);
  }

  /** `GenerateVerificationToken`, and `GenerateInvitationToken` in both
      invitation services, which is the same code: 64 lower-case hex
      characters, or the read error. */
  function GenerateToken(random: RandomRead): (r: Result<string>)
    ensures r.Ok? <==> random.Some?
    ensures r.Ok? ==> |r.value| == 64 && forall i :: 0 <= i < 64 ==> IsHexChar(r.value[i])
    ensures r.Ok? ==> var bytes: seq<Byte> := random.value; HexDecode(r.value) == Some(bytes)
  {
    match random
    case None => Err(RandomReadFailed)
    case Some(bytes) => HexRoundTrip(bytes); Ok(HexEncode(bytes))
  }

  /** The text of a failed read is the random source's; the model uses one. */
  const RandomReadFailed: string := "random source read failed"

  /** `GetTokenExpiration` */
  function GetTokenExpiration(now: int): int
  {
    now + 24 * HourMs
  }

  /** `GetInvitationExpiration` */
  function GetInvitationExpiration(now: int): int
  {
    now + 7 * 24 * HourMs
  }

  /** `IsTokenExpired`: a missing expiry counts as expired; otherwise the
      token expires only once `now` is strictly after the instant. */
  predicate IsTokenExpired(expiresAt: Option<int>, now: int)
  {
    expiresAt.None? || now > expiresAt.value
  }

  /** A verification token issued at `issued` is accepted through the very
      instant 24 hours later, and refused from the next millisecond on. */
  lemma VerificationTokenLifetime(issued: int, now: int)
    ensures !IsTokenExpired(Some(GetTokenExpiration(issued)), now) <==> now <= issued + DayMs
  {
  }
}
