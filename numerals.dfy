/**
 * Byte-level numerals used by the size field: the base-8 text parse performed by
 * Rust's `u64::from_str_radix(_, 8)` and the little-endian reading performed by
 * `u64::from_le_bytes`, each with the encoder that inverts it.
 */
module Numerals {
  import opened Results

  type Byte = b: int | 0 <= b < 256

  const Plus: Byte := 0x2B        // '+'
  const DigitZero: Byte := 0x30   // '0'

  function Pow(base: nat, k: nat): (r: nat)
    ensures base > 0 ==> r > 0
  {
    if k == 0 then 1 else base * Pow(base, k - 1)
  }

  /** One more than the largest `u64`. */
  const U64Limit: nat := 0x1_0000_0000_0000_0000

  lemma Pow256Eight()
    ensures Pow(256, 8) == U64Limit
  {
    assert Pow(256, 2) == 0x1_0000;
    assert Pow(256, 4) == 0x1_0000_0000 by {
      assert Pow(256, 3) == 256 * Pow(256, 2);
    }
    assert Pow(256, 6) == 0x1_0000_0000_0000 by {
      assert Pow(256, 5) == 256 * Pow(256, 4);
    }
    assert Pow(256, 7) == 256 * Pow(256, 6);
  }

  // ---------------------------------------------------------------------------
  // Little-endian bytes (`u64::from_le_bytes`)
  // ---------------------------------------------------------------------------

  /** The unsigned value of `s` read least significant byte first. */
  function LeValue(s: seq<Byte>): (v: nat)
    ensures v < Pow(256, |s|)
  {
    if s == [] then 0
    else
      var rest := LeValue(s[1..]);
      assert 256 * rest <= 256 * (Pow(256, |s| - 1) - 1);
      s[0] + 256 * rest
  }

  /** The `k` least significant bytes of `n`, least significant first. */
  function LeBytes(n: nat, k: nat): (s: seq<Byte>)
    ensures |s| == k
  {
    if k == 0 then [] else [n % 256] + LeBytes(n / 256, k - 1)
  }

  lemma {:induction false} LeValueOfLeBytes(n: nat, k: nat)
    requires n < Pow(256, k)
    ensures LeValue(LeBytes(n, k)) == n
  {
    if k > 0 {
      var s := LeBytes(n, k);
      assert s[1..] == LeBytes(n / 256, k - 1);
      LeValueOfLeBytes(n / 256, k - 1);
    }
  }

  lemma {:induction false} LeBytesOfLeValue(s: seq<Byte>)
    ensures LeBytes(LeValue(s), |s|) == s
  {
    if s != [] {
      var v := LeValue(s);
      assert v % 256 == s[0] && v / 256 == LeValue(s[1..]);
      LeBytesOfLeValue(s[1..]);
    }
  }

  // ---------------------------------------------------------------------------
  // Base-8 ASCII text (`u64::from_str_radix(_, 8)`)
  // ---------------------------------------------------------------------------

  /** '0' ..= '7': the bytes `char::to_digit(8)` accepts. */
  predicate IsOctalDigit(b: Byte)
  {
    DigitZero <= b <= DigitZero + 7
  }

  predicate AllOctal(s: seq<Byte>)
  {
    forall i :: 0 <= i < |s| ==> IsOctalDigit(s[i])
  }

  /** The value of the octal digit string `s`, most significant digit first. */
  function OctalValue(s: seq<Byte>): (v: nat)
    requires AllOctal(s)
    ensures v < Pow(8, |s|)
  {
    if s == [] then 0
    else
      var high := OctalValue(s[..|s| - 1]);
      assert 8 * high <= 8 * (Pow(8, |s| - 1) - 1);
      8 * high + (s[|s| - 1] - DigitZero)
  }

  /** The `k` least significant octal digits of `n`, zero-filled on the left. */
  function OctalDigits(n: nat, k: nat): (s: seq<Byte>)
    ensures |s| == k && AllOctal(s)
  {
    if k == 0 then [] else OctalDigits(n / 8, k - 1) + [DigitZero + n % 8]
  }

  lemma {:induction false} OctalValueOfDigits(n: nat, k: nat)
    requires n < Pow(8, k)
    ensures OctalValue(OctalDigits(n, k)) == n
  {
    if k > 0 {
      var s := OctalDigits(n, k);
      assert s[..k - 1] == OctalDigits(n / 8, k - 1);
      OctalValueOfDigits(n / 8, k - 1);
    }
  }

  lemma {:induction false} OctalDigitsOfValue(s: seq<Byte>)
    requires AllOctal(s)
    ensures OctalDigits(OctalValue(s), |s|) == s
  {
    if s != [] {
      var k := |s|;
      var v := OctalValue(s);
      assert v % 8 == s[k - 1] - DigitZero && v / 8 == OctalValue(s[..k - 1]);
      OctalDigitsOfValue(s[..k - 1]);
      assert s == s[..k - 1] + [s[k - 1]];
    }
  }

  /**
   * `u64::from_str_radix(s, 8)` on an ASCII byte string: an optional leading '+'
   * followed by at least one octal digit, whose value must fit in a `u64`.
   * A successful parse is undone by `OctalDigits`, so the text is the
   * zero-filled rendering of the value, possibly behind a '+'.
   */
  function ParseOctalU64(s: seq<Byte>): (r: Option<nat>)
    ensures r.Some? ==> r.value < U64Limit && r.value < Pow(8, |s|)
    ensures r.Some? ==> |s| > 0 && (s[0] == Plus ==> r.value < Pow(8, |s| - 1))
    ensures r.Some? ==>
              OctalDigits(r.value, |s|) == s ||
              (s[0] == Plus && OctalDigits(r.value, |s| - 1) == s[1..])
  {
    if s == [] then None
    else if s[0] == Plus && |s| == 1 then None
    else
      var digits := if s[0] == Plus then s[1..] else s;
      if !AllOctal(digits) then None
      else
        var v := OctalValue(digits);
        OctalDigitsOfValue(digits);
        if digits != s then
          assert Pow(8, |s|) == 8 * Pow(8, |digits|);
          if v < U64Limit then Some(v) else None
        else if v < U64Limit then Some(v) else None
  }

  lemma ParseOctalDigits(n: nat, k: nat)
    requires 0 < k && n < Pow(8, k) && n < U64Limit
    ensures ParseOctalU64(OctalDigits(n, k)) == Some(n)
  {
    OctalValueOfDigits(n, k);
    assert IsOctalDigit(OctalDigits(n, k)[0]);
  }
}
