/** Bytes and 32-bit words as they lie in memory, on disk and on the wire. */
module Bytes {

  type byte = b: int | 0 <= b < 256

  const WORD: nat := 0x1_0000_0000

  /** A uint32_t, little-endian. */
  function EncodeWord(n: nat): (s: seq<byte>)
    requires n < WORD
    ensures |s| == 4
  {
    [n % 256, n / 0x100 % 256, n / 0x1_0000 % 256, n / 0x100_0000 % 256]
  }

  function DecodeWord(s: seq<byte>): (n: nat)
    requires |s| == 4
    ensures n < WORD
  {
    var a: int, b: int, c: int, d: int := s[0], s[1], s[2], s[3];
    a + 0x100 * b + 0x1_0000 * c + 0x100_0000 * d
  }

  lemma WordRoundTrip(n: nat)
    requires n < WORD
    ensures DecodeWord(EncodeWord(n)) == n
  {
    assert n == n % 256 + 256 * (n / 256);
    assert n / 256 == n / 256 % 256 + 256 * (n / 0x1_0000);
    assert n / 0x1_0000 == n / 0x1_0000 % 256 + 256 * (n / 0x100_0000);
  }

  // ---- numbers, byte by byte ----

  function Two(a: int, b: int): int {
    a + 0x100 * b
  }

  function Four(a: int, b: int, c: int, d: int): int {
    a + 0x100 * b + 0x1_0000 * c + 0x100_0000 * d
  }

  /** A 32-bit number at `at`. */
  ghost predicate WordAt(b: seq<byte>, at: nat, n: nat) {
    at + 4 <= |b| && Four(b[at], b[at + 1], b[at + 2], b[at + 3]) == n
  }

  lemma WordIs(b: seq<byte>, at: nat, n: nat)
    requires at + 4 <= |b|
    ensures WordAt(b, at, n) <==> DecodeWord(b[at..at + 4]) == n
  {
  }

  lemma Digit(low: int, high: nat)
    requires 0 <= low < 256
    ensures (low + 0x100 * high) % 256 == low && (low + 0x100 * high) / 256 == high
  {
  }

  /** No other bytes decode to the same word. */
  lemma WordInjective(s: seq<byte>)
    requires |s| == 4
    ensures EncodeWord(DecodeWord(s)) == s
  {
    var a: int, b: int, c: int, d: int := s[0], s[1], s[2], s[3];
    var n := DecodeWord(s);
    Digit(a, b + 0x100 * c + 0x1_0000 * d);
    Digit(b, c + 0x100 * d);
    Digit(c, d);
    assert n / 0x1_0000 == n / 256 / 256 && n / 0x100_0000 == n / 0x1_0000 / 256;
  }
}
