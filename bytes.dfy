/** Byte-level helpers of the prototype scanner (Gaijer/main.go, and the
    identical copies in main.go): the two-byte pattern, its byte swap, the
    pattern search, and how a glyph's pattern is derived from its character.
    A Go `byte` is an integer in [0, 256). */
module Bytes {
  import opened Text

  type Byte = b: int | 0 <= b < 256

  /** A Go `[2]byte`. */
  datatype BytePair = BytePair(first: Byte, second: Byte)

  /** `swap`: the two bytes exchanged. */
  function Swap(a: BytePair): BytePair
  {
    BytePair(a.second, a.first)
  }

  /** Swapping twice gives the pair back, and a swap changes the pair unless
      its bytes are equal. */
  lemma SwapInvolution(a: BytePair)
    ensures Swap(Swap(a)) == a
    ensures Swap(a) == a <==> a.first == a.second
  {
  }

  /** `contains`: `bytes.Contains(b1, b2[:])`. */
  predicate ContainsPair(b1: seq<Byte>, b2: BytePair)
  {
    Contains(b1, [b2.first, b2.second])
  }

  /** The pair occurs in `b1` exactly when its two bytes stand side by side
      somewhere in `b1`, in order. */
  lemma ContainsPairIff(b1: seq<Byte>, b2: BytePair)
    ensures ContainsPair(b1, b2) <==> exists i :: 0 <= i < |b1| - 1 && b1[i] == b2.first && b1[i + 1] == b2.second
  {
    var pat := [b2.first, b2.second];
    ContainsAt(b1, pat);
    if ContainsPair(b1, b2) {
      var i :| OccursAt(b1, pat, i);
      assert b1[i..i + 2][0] == b1[i] && b1[i..i + 2][1] == b1[i + 1];
    }
    if exists i :: 0 <= i < |b1| - 1 && b1[i] == b2.first && b1[i + 1] == b2.second {
      var i :| 0 <= i < |b1| - 1 && b1[i] == b2.first && b1[i + 1] == b2.second;
      assert b1[i..i + 2] == pat;
      assert OccursAt(b1, pat, i);
    }
  }

  // ---------------------------------------------------------------------------
  // Encodings of one character

  /** `[]byte(string(c))`: the UTF-8 encoding of the character. */
  function Utf8(c: char): (u: seq<Byte>)
    ensures 1 <= |u| <= 4
  {
    var n := c as int;
    if n < 0x80 then [n]
    else if n < 0x800 then [0xC0 + n / 64, 0x80 + n % 64]
    else if n < 0x10000 then [0xE0 + n / 4096, 0x80 + (n / 64) % 64, 0x80 + n % 64]
    else [0xF0 + n / 0x40000, 0x80 + (n / 4096) % 64, 0x80 + (n / 64) % 64, 0x80 + n % 64]
  }

  /** Reads one UTF-8 sequence back into a code point. */
  function DecodeUtf8(u: seq<Byte>): int
  {
    if |u| == 1 then u[0]
    else if |u| == 2 then (u[0] as int - 0xC0) * 64 + (u[1] as int - 0x80)
    else if |u| == 3 then (u[0] as int - 0xE0) * 4096 + (u[1] as int - 0x80) * 64 + (u[2] as int - 0x80)
    else if |u| == 4 then
      (u[0] as int - 0xF0) * 0x40000 + (u[1] as int - 0x80) * 4096 + (u[2] as int - 0x80) * 64 + (u[3] as int - 0x80)
    else -1
  }

  /** The encoding loses nothing: it decodes back to the character's code
      point, and its length is fixed by the code point's range. */
  lemma Utf8RoundTrip(c: char)
    ensures DecodeUtf8(Utf8(c)) == c as int
    ensures |Utf8(c)| == (if c as int < 0x80 then 1 else if c as int < 0x800 then 2
                          else if c as int < 0x10000 then 3 else 4)
  {
    var n := c as int;
    if 0x80 <= n < 0x800 {
      Digits(n, 1);
    } else if 0x800 <= n < 0x10000 {
      Digits(n, 2);
      Digits(n / 64, 1);
    } else if 0x10000 <= n {
      Digits(n, 3);
      Digits(n / 64, 2);
      Digits(n / 4096, 1);
    }
  }

  /** Splitting off the last base-64 digit: `n` is `64 * (n / 64) + n % 64`,
      and the quotient has one digit fewer. */
  lemma Digits(n: nat, k: nat)
    ensures n == 64 * (n / 64) + n % 64
    ensures k == 1 ==> n / 64 == n / 64 / 64 * 64 + n / 64 % 64
    ensures k == 2 ==> n / 4096 == n / 64 / 64
    ensures k == 3 ==> n / 0x40000 == n / 64 / 64 / 64
  {
  }

  /** The pattern the scanner searches for a glyph: the first two bytes of
      the character's UTF-8 encoding (a zero byte after a one-byte encoding),
      swapped. */
  function MatchKey(c: char): BytePair
  {
    var u := Utf8(c);
    Swap(BytePair(u[0], if |u| > 1 then u[1] else 0))
  }

  /** The pattern the scan evidently intends: the character's first UTF-16
      code unit in little-endian byte order, as it appears in a UTF-16LE
      input. */
  function Utf16LEKey(c: char): BytePair
  {
    var n := c as int;
    var unit := if n < 0x10000 then n else 0xD800 + (n - 0x10000) / 1024;
    BytePair(unit % 256, unit / 256)
  }

  /** The UTF-16LE encoding of text made of characters of the Basic
      Multilingual Plane. */
  function Utf16LE(t: string): (b: seq<Byte>)
    requires forall i :: 0 <= i < |t| ==> t[i] as int < 0x10000
    ensures |b| == 2 * |t|
  {
    if t == [] then []
    else [Utf16LEKey(t[0]).first, Utf16LEKey(t[0]).second] + Utf16LE(t[1..])
  }

  /** For a character of the Basic Multilingual Plane the intended pattern is
      exactly its UTF-16LE encoding, so it reads back as the character. */
  lemma Utf16LEKeyRoundTrip(c: char)
    requires c as int < 0x10000
    ensures Utf16LE([c]) == [Utf16LEKey(c).first, Utf16LEKey(c).second]
    ensures Utf16LEKey(c).second * 256 + Utf16LEKey(c).first == c as int
  {
    assert [c][1..] == [];
  }

  /** Character `j` of the text occupies bytes `2j` and `2j + 1` of its
      UTF-16LE encoding. */
  lemma {:induction false} Utf16LEAt(t: string, j: nat)
    requires forall i :: 0 <= i < |t| ==> t[i] as int < 0x10000
    requires j < |t|
    ensures Utf16LE(t)[2 * j] == Utf16LEKey(t[j]).first
    ensures Utf16LE(t)[2 * j + 1] == Utf16LEKey(t[j]).second
  {
    if j > 0 {
      Utf16LEAt(t[1..], j - 1);
    }
  }

  /** For a character of three UTF-8 bytes, the pattern as written is the
      intended one only for U+EEBA. */
  lemma ThreeByteKeys(n: int)
    requires 0x800 <= n < 0x10000
    ensures BytePair(0x80 + (n / 64) % 64, 0xE0 + n / 4096) == BytePair(n % 256, n / 256) <==> n == 0xEEBA
  {
    var h, l := n / 256, n % 256;
    assert n == 256 * h + l;
    assert n / 4096 == h / 16;
    assert n / 64 == 4 * h + l / 64;
    assert (n / 64) % 64 == (h % 16) * 4 + l / 64;
    if 0xE0 + n / 4096 == h {
      assert h == 0xEE;
    }
  }

  /** The pattern as written agrees with the intended one for exactly two
      characters, U+0000 and U+EEBA; for every other character the scanner
      searches for the wrong bytes. */
  lemma MatchKeyIsNotUtf16LE(c: char)
    ensures MatchKey(c) == Utf16LEKey(c) <==> c as int == 0 || c as int == 0xEEBA
  {
    var n := c as int;
    if 0x800 <= n < 0x10000 {
      ThreeByteKeys(n);
    }
  }

  /** The glyph '垠' (U+57A0): the scanner searches for the bytes 9E E5, but
      the character is stored as A0 57 in a UTF-16LE input. */
  lemma MatchKeyExample()
    ensures MatchKey('垠') == BytePair(0x9E, 0xE5) && Utf16LEKey('垠') == BytePair(0xA0, 0x57)
    ensures !ContainsPair(Utf16LE("垠"), MatchKey('垠'))
  {
    Utf16LEKeyRoundTrip('垠');
    assert "垠" == ['垠'];
    ContainsPairIff(Utf16LE("垠"), MatchKey('垠'));
  }
}
