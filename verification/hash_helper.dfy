/** HashHelper: lowercase hex encoding of a SHA-256 digest. SHA-256 itself
    (and the UTF-8 encoding of its input) is an abstract function. */
module HashHelper {

  type Byte = b: int | 0 <= b < 256

  /** A SHA-256 digest: 256 bits, that is 32 bytes (FIPS 180-4, section 6.2). */
  type Sha256Digest = d: seq<Byte> | |d| == 32 witness seq(32, _ => 0)

  /** SHA256.HashData(Encoding.UTF8.GetBytes(input)), left uninterpreted. */
  type Sha256 = string -> Sha256Digest

  predicate IsLowerHex(c: char)
  {
    '0' <= c <= '9' || 'a' <= c <= 'f'
  }

  /** The value of one lowercase hex digit. */
  function HexValue(c: char): (v: int)
    requires IsLowerHex(c)
    ensures 0 <= v < 16
  {
    if c <= '9' then c as int - '0' as int else c as int - 'a' as int + 10
  }

  /** The lowercase hex digit of a nibble; the inverse of HexValue. */
  function HexDigit(n: int): (c: char)
    requires 0 <= n < 16
    ensures IsLowerHex(c) && HexValue(c) == n
  {
    if n < 10 then ('0' as int + n) as char else ('a' as int + n - 10) as char
  }

  /** Byte.ToString("x2"): two lowercase digits, high nibble first, so values
      below 16 get a leading '0'. */
  function ByteHex(b: Byte): (s: string)
    ensures |s| == 2 && IsLowerHex(s[0]) && IsLowerHex(s[1])
    ensures 16 * HexValue(s[0]) + HexValue(s[1]) == b
  {
    [HexDigit(b / 16), HexDigit(b % 16)]
  }

  /** The string ComputeSha256Hash builds: ByteHex of every byte, in order. */
  function Hex(bytes: seq<Byte>): (s: string)
    ensures |s| == 2 * |bytes|
    ensures forall i | 0 <= i < |s| :: IsLowerHex(s[i])
  {
    if |bytes| == 0 then "" else ByteHex(bytes[0]) + Hex(bytes[1..])
  }

  /** Reads a Hex string back into bytes. */
  function Unhex(s: string): (bytes: seq<Byte>)
    requires |s| % 2 == 0
    requires forall i | 0 <= i < |s| :: IsLowerHex(s[i])
    ensures 2 * |bytes| == |s|
  {
    if |s| == 0 then [] else [16 * HexValue(s[0]) + HexValue(s[1])] + Unhex(s[2..])
  }

  lemma {:induction false} HexAppend(a: seq<Byte>, b: seq<Byte>)
    ensures Hex(a + b) == Hex(a) + Hex(b)
  {
    if |a| == 0 {
      assert a + b == b;
    } else {
      assert (a + b)[1..] == a[1..] + b;
      HexAppend(a[1..], b);
    }
  }

  /** Byte i occupies characters 2i (high nibble) and 2i+1 (low nibble). */
  lemma {:induction false} HexLayout(bytes: seq<Byte>, i: int)
    requires 0 <= i < |bytes|
    ensures Hex(bytes)[2 * i] == HexDigit(bytes[i] / 16)
    ensures Hex(bytes)[2 * i + 1] == HexDigit(bytes[i] % 16)
  {
    if i > 0 {
      HexLayout(bytes[1..], i - 1);
    }
  }

  lemma {:induction false} HexRoundTrip(bytes: seq<Byte>)
    ensures Unhex(Hex(bytes)) == bytes
  {
    if |bytes| > 0 {
      var s := Hex(bytes);
      assert s[..2] == ByteHex(bytes[0]);
      assert s[2..] == Hex(bytes[1..]);
      HexRoundTrip(bytes[1..]);
    }
  }

  /** Distinct digests give distinct hex strings. */
  lemma HexInjective(a: seq<Byte>, b: seq<Byte>)
    requires Hex(a) == Hex(b)
    ensures a == b
  {
    HexRoundTrip(a);
    HexRoundTrip(b);
  }

  /** The first six hex characters depend only on the first three bytes. */
  lemma HexPrefix(bytes: seq<Byte>)
    requires |bytes| >= 3
    ensures Hex(bytes)[..6] == Hex(bytes[..3])
  {
    assert bytes[..3] + bytes[3..] == bytes;
    HexAppend(bytes[..3], bytes[3..]);
  }

  /** ComputeSha256Hash: hashes the input and appends each digest byte in
      "x2" format. The result always has 64 characters. */
  method ComputeSha256Hash(input: string, sha256: Sha256) returns (hash: string)
    ensures hash == Hex(sha256(input))
    ensures |hash| == 64
  {
    var bytes := sha256(input);
    var builder := "";
    for i := 0 to |bytes|
      invariant builder == Hex(bytes[..i])
    {
      assert Hex([bytes[i]]) == ByteHex(bytes[i]) + Hex([]);
      HexAppend(bytes[..i], [bytes[i]]);
      assert bytes[..i + 1] == bytes[..i] + [bytes[i]];
      builder := builder + ByteHex(bytes[i]);
    }
    assert bytes[..|bytes|] == bytes;
    hash := builder;
  }
}
