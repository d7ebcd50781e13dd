// compute_hash: 32-bit FNV-1a over a NUL-terminated string, and the cache
// file name "cache/%08X" derived from it.

module Fnv {
  import opened CStrings

  /** FNV-1a 32-bit offset basis. */
  const OffsetBasis: bv32 := 2166136261
  /** FNV-1a 32-bit prime. */
  const Prime: bv32 := 16777619

  /** The `(unsigned char)` cast of one character. */
  function Octet(c: char): (b: bv32)
    ensures b as int < 256
  {
    ((c as int) % 256) as bv32
  }

  /** One FNV-1a round: XOR the byte in, then multiply by the prime modulo 2^32 (bv32 wraps). */
  function Step(h: bv32, c: char): bv32 {
    (h ^ Octet(c)) * Prime
  }

  /** The hash state after feeding the bytes of s, left to right, into h. */
  function HashFrom(h: bv32, s: string): bv32
    decreases |s|
  {
    if s == [] then h else HashFrom(Step(h, s[0]), s[1..])
  }

  /** FNV-1a of a byte string (no NUL handling: see ComputeHash). */
  function Fnv1a(s: string): (h: bv32)
    ensures s == [] ==> h == OffsetBasis
    ensures s != [] ==> h == Step(HashFrom(OffsetBasis, s[..|s| - 1]), s[|s| - 1])
  {
    if s == [] then OffsetBasis
    else
      var init := s[..|s| - 1];
      assert s == init + [s[|s| - 1]];
      HashFromAppend(OffsetBasis, init, s[|s| - 1]);
      HashFrom(OffsetBasis, s)
  }

  /** The empty string hashes to the offset basis. */
  lemma HashEmpty()
    ensures Fnv1a("") == 2166136261
  {
  }

  lemma {:induction false} HashFromAppend(h: bv32, s: string, c: char)
    ensures HashFrom(h, s + [c]) == Step(HashFrom(h, s), c)
    decreases |s|
  {
    if s == [] {
      assert [] + [c] == [c];
      assert [c][1..] == [];
    } else {
      assert (s + [c])[0] == s[0];
      assert (s + [c])[1..] == s[1..] + [c];
      HashFromAppend(Step(h, s[0]), s[1..], c);
    }
  }

  /** Appending a byte performs exactly one more XOR-then-multiply round. */
  lemma HashAppend(s: string, c: char)
    ensures Fnv1a(s + [c]) == Step(Fnv1a(s), c)
  {
    HashFromAppend(OffsetBasis, s, c);
  }

  /** compute_hash: hash the bytes of str up to (not including) its first NUL. */
  method ComputeHash(str: string) returns (hash: bv32)
    ensures hash == Fnv1a(CString(str))
  {
    hash := OffsetBasis;
    var i := 0;
    while i < |str| && str[i] != NUL
      invariant 0 <= i <= |CString(str)|
      invariant hash == Fnv1a(str[..i])
    {
      HashAppend(str[..i], str[i]);
      assert str[..i + 1] == str[..i] + [str[i]];
      hash := Step(hash, str[i]);
      i := i + 1;
    }
    assert str[..i] == CString(str);
  }

  /** Bytes after a NUL do not affect compute_hash. */
  lemma HashStopsAtNul(s: string, t: string)
    requires NUL !in s
    ensures Fnv1a(CString(s + [NUL] + t)) == Fnv1a(s)
  {
    var r := CString(s + [NUL] + t);
    assert (s + [NUL] + t)[..|s|] == s;
    assert (s + [NUL] + t)[|s|] == NUL;
    assert r == s;
  }

  // ---- "cache/%08X" ----

  function Pow16(k: nat): (r: nat)
    ensures r >= 1
  {
    if k == 0 then 1 else 16 * Pow16(k - 1)
  }

  predicate IsUpperHex(c: char) {
    '0' <= c <= '9' || 'A' <= c <= 'F'
  }

  /** The uppercase hexadecimal digit of a value below 16 ("%X"). */
  function HexDigit(d: nat): (c: char)
    requires d < 16
    ensures IsUpperHex(c)
  {
    if d < 10 then ('0' as int + d) as char else ('A' as int + d - 10) as char
  }

  function HexValue(c: char): nat {
    if '0' <= c <= '9' then c as int - '0' as int
    else if 'A' <= c <= 'F' then c as int - 'A' as int + 10
    else 0
  }

  /** The low `width` hex digits of n, most significant first, zero-padded ("%0*X"). */
  function Hex(n: nat, width: nat): (r: string)
    ensures |r| == width
    ensures forall i :: 0 <= i < |r| ==> IsUpperHex(r[i])
    decreases width
  {
    if width == 0 then [] else Hex(n / 16, width - 1) + [HexDigit(n % 16)]
  }

  /** The value of a string of hex digits, most significant first. */
  function ParseHex(s: string): nat
    decreases |s|
  {
    if s == [] then 0 else ParseHex(s[..|s| - 1]) * 16 + HexValue(s[|s| - 1])
  }

  /** Reading back the hex digits of a value that fits in `width` digits gives the value. */
  lemma {:induction false} ParseHexRoundTrip(n: nat, width: nat)
    requires n < Pow16(width)
    ensures ParseHex(Hex(n, width)) == n
    decreases width
  {
    if width > 0 {
      var d := Hex(n / 16, width - 1);
      assert (d + [HexDigit(n % 16)])[..|d|] == d;
      ParseHexRoundTrip(n / 16, width - 1);
    }
  }

  lemma Pow16Of8()
    ensures Pow16(8) == 0x1_0000_0000
  {
    calc {
      Pow16(8);
      16 * Pow16(7);
      16 * (16 * Pow16(6));
      16 * (16 * (16 * Pow16(5)));
      16 * (16 * (16 * (16 * Pow16(4))));
      65536 * Pow16(4);
      65536 * (16 * (16 * (16 * (16 * Pow16(0)))));
    }
  }

  /** The cache file name of a hash: snprintf(filepath, 15, "cache/%08X", hash). */
  function CachePath(h: bv32): (p: string)
    ensures |p| == 14 && p[..6] == "cache/"
  {
    "cache/" + Hex(h as int, 8)
  }

  /** The shape of every cache file name: "cache/" then eight uppercase hex digits. */
  predicate IsCachePath(p: string) {
    |p| == 14 && p[..6] == "cache/" && forall i :: 6 <= i < 14 ==> IsUpperHex(p[i])
  }

  /** A cache path is 14 characters: "cache/" followed by exactly 8 uppercase hex digits. */
  lemma CachePathShape(h: bv32)
    ensures IsCachePath(CachePath(h))
  {
    var p := CachePath(h);
    assert p[..6] == "cache/";
    forall i | 6 <= i < 14 ensures IsUpperHex(p[i]) {
      assert p[i] == Hex(h as int, 8)[i - 6];
    }
  }

  /** The eight digits encode the whole hash: reading them back as hex gives the hash. */
  lemma CachePathDecodes(h: bv32)
    ensures ParseHex(CachePath(h)[6..]) == h as int
  {
    assert CachePath(h)[6..] == Hex(h as int, 8);
    Pow16Of8();
    ParseHexRoundTrip(h as int, 8);
  }

  /** Two hashes share a cache file exactly when they are equal. */
  lemma CachePathInjective(h1: bv32, h2: bv32)
    ensures CachePath(h1) == CachePath(h2) <==> h1 == h2
  {
    CachePathDecodes(h1);
    CachePathDecodes(h2);
    assert h1 == (h1 as int) as bv32 && h2 == (h2 as int) as bv32;
  }
}
