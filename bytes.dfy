/**
 * Byte strings as PHP sees them: fixed-width unsigned integers in little-endian
 * order (the `unpack` codes `C`, `S`, `L`, `Q` on a little-endian machine) and
 * `substr` / `fread`, which return fewer bytes, or none, at the end of the data.
 */
module Bytes {

  type u8 = x: int | 0 <= x < 0x100
  type u16 = x: int | 0 <= x < 0x1_0000
  type u32 = x: int | 0 <= x < 0x1_0000_0000
  type u64 = x: int | 0 <= x < 0x1_0000_0000_0000_0000

  function Pow256(n: nat): (p: nat)
    ensures p > 0
  {
    if n == 0 then 1 else 256 * Pow256(n - 1)
  }

  function Min(a: nat, b: nat): nat { if a <= b then a else b }

  /** The unsigned integer whose little-endian encoding is `s`. */
  function FromLE(s: seq<u8>): (x: nat)
    ensures x < Pow256(|s|)
  {
    if s == [] then 0
    else
      var rest := FromLE(s[1..]);
      assert 256 * rest <= 256 * (Pow256(|s| - 1) - 1);
      s[0] + 256 * rest
  }

  /** The `n`-byte little-endian encoding of `x`. */
  function ToLE(x: nat, n: nat): (s: seq<u8>)
    requires x < Pow256(n)
    ensures |s| == n
  {
    if n == 0 then []
    else
      assert x / 256 < Pow256(n - 1);
      [x % 256] + ToLE(x / 256, n - 1)
  }

  lemma {:induction false} FromLEOfToLE(x: nat, n: nat)
    requires x < Pow256(n)
    ensures FromLE(ToLE(x, n)) == x
  {
    if n > 0 {
      var s := ToLE(x, n);
      assert s[1..] == ToLE(x / 256, n - 1);
      FromLEOfToLE(x / 256, n - 1);
      assert FromLE(s) == x % 256 + 256 * (x / 256);
    }
  }

  lemma {:induction false} ToLEOfFromLE(s: seq<u8>)
    ensures ToLE(FromLE(s), |s|) == s
  {
    if s != [] {
      var rest := FromLE(s[1..]);
      DivMod256(s[0], rest);
      ToLEOfFromLE(s[1..]);
      assert ToLE(FromLE(s), |s|) == [s[0]] + ToLE(rest, |s| - 1);
    }
  }

  lemma DivMod256(a: nat, b: nat)
    requires a < 256
    ensures (a + 256 * b) % 256 == a && (a + 256 * b) / 256 == b
  {
  }

  /** Two adjacent slices make up the slice that spans both. */
  lemma SplitSlice(s: seq<u8>, i: nat, j: nat, k: nat)
    requires i <= j <= k <= |s|
    ensures s[i..k] == s[i..j] + s[j..k]
  {
  }

  /**
   * At most `len` bytes of `s` from `start` on: PHP's `substr($s, $start, $len)`
   * and `fread` after an `fseek` to `start`, for a non-negative start. The result
   * is short at the end of `s` and empty from the end on.
   */
  function Slice(s: seq<u8>, start: nat, len: nat): (r: seq<u8>)
    ensures |r| <= len
    ensures |r| == len <==> len == 0 || start + len <= |s|
    ensures start + len <= |s| ==> r == s[start..start + len]
    ensures start <= |s| ==> |r| == Min(len, |s| - start) && r == s[start..start + |r|]
    ensures start >= |s| ==> r == []
  {
    if start >= |s| then [] else s[start..Min(start + len, |s|)]
  }
}
