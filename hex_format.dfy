/**
 * Lower-case hexadecimal numerals: the `'%05x' % n` formatting used to build
 * KanjiVG file names and the `int(digits, 16)` parse used to read them back.
 */
module HexFormat {

  predicate IsHexDigit(c: char) {
    '0' <= c <= '9' || 'a' <= c <= 'f'
  }

  predicate AllHex(s: string) {
    forall i :: 0 <= i < |s| ==> IsHexDigit(s[i])
  }

  function DigitValue(c: char): (d: nat)
    requires IsHexDigit(c)
    ensures d < 16
  {
    if c <= '9' then c as int - '0' as int else c as int - 'a' as int + 10
  }

  function Digit(d: nat): (c: char)
    requires d < 16
    ensures IsHexDigit(c) && DigitValue(c) == d
  {
    if d < 10 then ('0' as int + d) as char else ('a' as int + d - 10) as char
  }

  /**
   * The value of a numeral of lower-case hex digits, most significant first;
   * it is zero exactly when every digit is `0` (so the empty numeral is zero
   * too).
   */
  function HexValue(s: string): (r: nat)
    requires AllHex(s)
    ensures r == 0 <==> forall i :: 0 <= i < |s| ==> s[i] == '0'
  {
    if |s| == 0 then 0 else 16 * HexValue(s[..|s| - 1]) + DigitValue(s[|s| - 1])
  }

  /**
   * The numeral for `n` in lower-case hex, most significant digit first,
   * padded with leading zeros to at least `width` digits (and at least one):
   * what `'%0<width>x' % n` gives.
   */
  function HexDigits(n: nat, width: nat): (r: string)
    ensures |r| >= 1 && |r| >= width && AllHex(r)
    decreases n, width
  {
    if n < 16 && width <= 1 then [Digit(n)]
    else HexDigits(n / 16, if width == 0 then 0 else width - 1) + [Digit(n % 16)]
  }

  /** `'%05x' % n`, the digits of a KanjiVG file name. */
  function Format05x(n: nat): (r: string)
    ensures |r| >= 5 && AllHex(r)
  {
    HexDigits(n, 5)
  }

  /** Reading the padded numeral back with `int(digits, 16)` gives `n`. */
  lemma {:induction false} HexDigitsValue(n: nat, width: nat)
    ensures HexValue(HexDigits(n, width)) == n
    decreases n, width
  {
    var r := HexDigits(n, width);
    if n < 16 && width <= 1 {
      assert r[..|r| - 1] == [];
    } else {
      var w := if width == 0 then 0 else width - 1;
      HexDigitsValue(n / 16, w);
      assert r[..|r| - 1] == HexDigits(n / 16, w);
    }
  }

  /** Digits beyond the padding width are significant: the first is not `0`. */
  lemma {:induction false} HexDigitsLeading(n: nat, width: nat)
    ensures var r := HexDigits(n, width);
            |r| > width && |r| > 1 ==> r[0] != '0'
    decreases n, width
  {
    var r := HexDigits(n, width);
    if !(n < 16 && width <= 1) {
      var w := if width == 0 then 0 else width - 1;
      var init := HexDigits(n / 16, w);
      assert r == init + [Digit(n % 16)];
      if |r| > width {
        HexDigitsLeading(n / 16, w);
        if |init| == 1 {
          HexDigitsValue(n / 16, w);
          assert init == [init[0]] && HexValue(init) == DigitValue(init[0]) by {
            assert init[..0] == [];
          }
          assert n >= 16 by {
            assert !(n / 16 == 0 && width <= 1);
          }
        }
        assert r[0] == init[0];
      }
    }
  }

  /**
   * `'%05x' % n` in full: lower-case hex digits, at least five of them,
   * reading back as `n`, and no leading zero beyond the padding.
   */
  lemma Format05xSpec(n: nat)
    ensures var r := Format05x(n);
            |r| >= 5 && AllHex(r) && HexValue(r) == n && (|r| > 5 ==> r[0] != '0')
  {
    HexDigitsValue(n, 5);
    HexDigitsLeading(n, 5);
  }

  /**
   * The longest leading run of `[0-9a-f]` in `s`, which is what the greedy
   * group `([0-9a-f]*)` tries first.
   */
  function HexRun(s: string): (k: nat)
    ensures k <= |s| && AllHex(s[..k])
    ensures k < |s| ==> !IsHexDigit(s[k])
  {
    if |s| == 0 || !IsHexDigit(s[0]) then 0
    else
      var k := 1 + HexRun(s[1..]);
      assert s[..k] == [s[0]] + s[1..][..k - 1];
      k
  }

  /** A run of hex digits followed by a non-digit is exactly the leading run. */
  lemma {:induction false} HexRunOfConcat(a: string, b: string)
    requires AllHex(a)
    requires b != [] ==> !IsHexDigit(b[0])
    ensures HexRun(a + b) == |a|
    decreases |a|
  {
    if |a| == 0 {
      assert a + b == b;
    } else {
      assert (a + b)[1..] == a[1..] + b;
      HexRunOfConcat(a[1..], b);
    }
  }

  /** Appending to a string can lengthen its leading run only if the run was the whole string. */
  lemma HexRunOfExtension(s: string, t: string)
    ensures HexRun(s) < |s| ==> HexRun(s + t) == HexRun(s)
    ensures HexRun(s) == |s| ==> HexRun(s + t) >= |s|
  {
    var k, k' := HexRun(s), HexRun(s + t);
    assert forall j :: 0 <= j < k' ==> IsHexDigit((s + t)[j]);
    assert forall j :: 0 <= j < k ==> IsHexDigit(s[..k][j]);
    assert k < |s| ==> (s + t)[k] == s[k];
  }

  /** The leading run of a prefix is the leading run, cut at the prefix's end. */
  lemma HexRunOfPrefix(s: string, n: nat)
    requires n <= |s|
    ensures HexRun(s[..n]) == if HexRun(s) < n then HexRun(s) else n
  {
    HexRunOfExtension(s[..n], s[n..]);
    assert s[..n] + s[n..] == s;
  }
}
