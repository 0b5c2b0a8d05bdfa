/** Byte sequences as Python's `bytes` sees them: clamped slicing, `find`,
    and the `int.from_bytes` / `int.to_bytes` conversions the recook code uses. */
module Bytes {

  /** One element of a Python `bytes` or `bytearray`. */
  type byte = x: int | 0 <= x < 256

  /** 2^32: the first value that `n.to_bytes(4, ...)` refuses. */
  const U32_LIMIT: nat := 0x1_0000_0000

  function Min(a: int, b: int): (m: int)
    ensures m <= a && m <= b && (m == a || m == b)
  {
    if a <= b then a else b
  }

  /** 256^n: one more than the largest number n bytes can hold. */
  function Pow256(n: nat): (p: nat)
    ensures p >= 1
  {
    if n == 0 then 1 else 256 * Pow256(n - 1)
  }

  lemma Pow256Four()
    ensures Pow256(4) == U32_LIMIT
  {
  }

  lemma {:induction false} Pow256Monotone(m: nat, n: nat)
    requires m <= n
    ensures Pow256(m) <= Pow256(n)
  {
    if m < n {
      Pow256Monotone(m, n - 1);
    }
  }

  /** Python's `s[lo:hi]` for non-negative bounds: the part of `lo..hi` that lies
      inside `s`, and empty when `hi <= lo` or `lo` is past the end. Never fails. */
  function Slice(s: seq<byte>, lo: nat, hi: nat): (r: seq<byte>)
    ensures |r| == if lo < hi && lo < |s| then Min(hi, |s|) - lo else 0
    ensures |r| <= |s|
    ensures forall i :: 0 <= i < |r| ==> lo + i < |s| && r[i] == s[lo + i]
    ensures lo <= hi <= |s| ==> r == s[lo..hi]
    ensures lo == 0 ==> r == s[..Min(hi, |s|)]
  {
    if lo < hi && lo < |s| then s[lo..Min(hi, |s|)] else []
  }

  lemma SplitJoin(s: seq<byte>, n: nat)
    requires n <= |s|
    ensures s[..n] + s[n..] == s
  {
  }

  /** The pattern `pat` starts at index `i` of `s`. */
  predicate OccursAt(s: seq<byte>, pat: seq<byte>, i: nat)
  {
    i + |pat| <= |s| && s[i..i + |pat|] == pat
  }

  /** `i` is where `pat` first occurs in `s`. */
  predicate IsFirstOccurrence(s: seq<byte>, pat: seq<byte>, i: nat)
  {
    OccursAt(s, pat, i) && forall j: nat :: j < i ==> !OccursAt(s, pat, j)
  }

  /** `pat` occurs nowhere in `s`. */
  ghost predicate Absent(s: seq<byte>, pat: seq<byte>)
  {
    forall i: nat :: !OccursAt(s, pat, i)
  }

  lemma FirstOccurrenceUnique(s: seq<byte>, pat: seq<byte>, i: nat, j: nat)
    requires IsFirstOccurrence(s, pat, i) && IsFirstOccurrence(s, pat, j)
    ensures i == j
  {
  }

  /** Python's `s.find(pat)`: the index of the first occurrence, or -1. */
  function Find(s: seq<byte>, pat: seq<byte>): (r: int)
    ensures r == -1 || (r >= 0 && IsFirstOccurrence(s, pat, r))
    ensures r == -1 <==> Absent(s, pat)
  {
    FindFrom(s, pat, 0)
  }

  /** The search of `Find`, from index `from` on, knowing that `pat` does not
      start anywhere before `from`. */
  function FindFrom(s: seq<byte>, pat: seq<byte>, from: nat): (r: int)
    requires forall j: nat :: j < from ==> !OccursAt(s, pat, j)
    ensures r == -1 || (r >= from && IsFirstOccurrence(s, pat, r))
    ensures r == -1 <==> Absent(s, pat)
    decreases |s| - from
  {
    if from + |pat| > |s| then -1
    else if s[from..from + |pat|] == pat then from
    else FindFrom(s, pat, from + 1)
  }

  /** Python's `int.from_bytes(s, "big")`, for a sequence of any length
      (an empty one decodes to 0). */
  function DecodeBE(s: seq<byte>): (n: nat)
    ensures n < Pow256(|s|)
  {
    if s == [] then 0 else DecodeBE(s[..|s| - 1]) * 256 + s[|s| - 1]
  }

  /** Python's `int.from_bytes(s, "little")`, for a sequence of any length. */
  function DecodeLE(s: seq<byte>): (n: nat)
    ensures n < Pow256(|s|)
  {
    if s == [] then 0 else s[0] + 256 * DecodeLE(s[1..])
  }

  /** The number whose four base-256 digits, most significant first, are `a b c d`. */
  function Word(a: byte, b: byte, c: byte, d: byte): (n: nat)
  {
    a * 0x100_0000 + b * 0x1_0000 + c * 0x100 + d
  }

  /** Division by 256 is determined by quotient and remainder. */
  lemma DivMod256(n: nat, q: nat, r: nat)
    requires n == q * 256 + r && r < 256
    ensures n / 256 == q && n % 256 == r
  {
  }

  /** The base-256 digits of a 32-bit number are unique. */
  lemma WordDigits(n: nat, a: byte, b: byte, c: byte, d: byte)
    requires n == Word(a, b, c, d)
    ensures n < U32_LIMIT
    ensures d == n % 256 && c == n / 256 % 256 && b == n / 256 / 256 % 256 && a == n / 256 / 256 / 256
  {
    DivMod256(n, (a * 256 + b) * 256 + c, d);
    DivMod256((a * 256 + b) * 256 + c, a * 256 + b, c);
    DivMod256(a * 256 + b, a, b);
  }

  /** Every 32-bit number is the word of its base-256 digits. */
  lemma DigitsWord(n: nat)
    requires n < U32_LIMIT
    ensures n / 256 / 256 / 256 < 256
    ensures n == Word(n / 256 / 256 / 256, n / 256 / 256 % 256, n / 256 % 256, n % 256)
  {
  }

  lemma DecodeBE4(s: seq<byte>)
    requires |s| == 4
    ensures DecodeBE(s) == Word(s[0], s[1], s[2], s[3])
  {
    assert s[..3][..2] == s[..2];
    assert s[..2][..1] == s[..1];
    assert s[..1][..0] == [];
    calc {
      DecodeBE(s);
      DecodeBE(s[..3]) * 256 + s[3];
      (DecodeBE(s[..2]) * 256 + s[2]) * 256 + s[3];
      ((DecodeBE(s[..1]) * 256 + s[1]) * 256 + s[2]) * 256 + s[3];
      ((s[0] as int * 256 + s[1]) * 256 + s[2]) * 256 + s[3];
    }
  }

  lemma DecodeLE4(s: seq<byte>)
    requires |s| == 4
    ensures DecodeLE(s) == Word(s[3], s[2], s[1], s[0])
  {
    assert s[1..][1..] == s[2..];
    assert s[2..][1..] == s[3..];
    assert s[3..][1..] == [];
    calc {
      DecodeLE(s);
      s[0] + 256 * DecodeLE(s[1..]);
      s[0] + 256 * (s[1] + 256 * DecodeLE(s[2..]));
      s[0] + 256 * (s[1] + 256 * (s[2] + 256 * DecodeLE(s[3..])));
      s[0] as int + 256 * (s[1] + 256 * (s[2] + 256 * s[3] as int));
    }
  }

  /** Python's `n.to_bytes(4, "big")`, defined where Python does not raise. */
  function EncodeBE32(n: nat): (r: seq<byte>)
    requires n < U32_LIMIT
    ensures |r| == 4 && DecodeBE(r) == n
  {
    var r := [n / 256 / 256 / 256, n / 256 / 256 % 256, n / 256 % 256, n % 256];
    DigitsWord(n);
    DecodeBE4(r);
    r
  }

  /** Python's `n.to_bytes(4, "little")`, the inverse of a 4-byte `DecodeLE`. */
  function EncodeLE32(n: nat): (r: seq<byte>)
    requires n < U32_LIMIT
    ensures |r| == 4 && DecodeLE(r) == n
  {
    var r := [n % 256, n / 256 % 256, n / 256 / 256 % 256, n / 256 / 256 / 256];
    DigitsWord(n);
    DecodeLE4(r);
    r
  }

  /** Every 4-byte sequence is the big-endian encoding of what it decodes to. */
  lemma EncodeDecodeBE32(s: seq<byte>)
    requires |s| == 4
    ensures DecodeBE(s) < U32_LIMIT && EncodeBE32(DecodeBE(s)) == s
  {
    DecodeBE4(s);
    WordDigits(DecodeBE(s), s[0], s[1], s[2], s[3]);
  }

  /** Every 4-byte sequence is the little-endian encoding of what it decodes to. */
  lemma EncodeDecodeLE32(s: seq<byte>)
    requires |s| == 4
    ensures DecodeLE(s) < U32_LIMIT && EncodeLE32(DecodeLE(s)) == s
  {
    DecodeLE4(s);
    WordDigits(DecodeLE(s), s[3], s[2], s[1], s[0]);
  }
}
