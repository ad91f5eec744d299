/** The text handling of the band-averaging code and the conversion
    scripts: column keys such as `R_rs_352.5` are built by formatting a
    wavelength and read back by taking the text after the last underscore
    and converting it with `float()`. */
module Text {
  import opened Numbers

  predicate IsDigit(c: char)
  {
    '0' <= c <= '9'
  }

  predicate AllDigits(s: string)
  {
    forall i :: 0 <= i < |s| ==> IsDigit(s[i])
  }

  function DigitChar(d: nat): (c: char)
    requires d < 10
    ensures IsDigit(c)
  {
    ('0' as int + d) as char
  }

  function DigitValue(c: char): (d: nat)
    requires IsDigit(c)
    ensures d < 10 && DigitChar(d) == c
  {
    c as int - '0' as int
  }

  /** Decimal notation of a natural number, without leading zeros:
      Python's `f"{n}"`, and `f"{x:.0f}"` for a whole `x`. */
  function IntStr(n: nat): (s: string)
    ensures |s| >= 1 && AllDigits(s)
    ensures n >= 10 ==> s[0] != '0'
  {
    if n < 10 then [DigitChar(n)] else IntStr(n / 10) + [DigitChar(n % 10)]
  }

  /** The number a non-empty run of digits denotes (leading zeros allowed). */
  function DigitsValue(s: string): nat
    requires AllDigits(s)
  {
    if |s| == 0 then 0 else 10 * DigitsValue(s[..|s| - 1]) + DigitValue(s[|s| - 1])
  }

  /** Reading a natural number: one or more digits and nothing else. */
  function ParseNat(s: string): (r: Option<nat>)
    ensures r.Some? <==> |s| >= 1 && AllDigits(s)
  {
    if |s| >= 1 && AllDigits(s) then Some(DigitsValue(s)) else None
  }

  lemma {:induction false} DigitsOfIntStr(n: nat)
    ensures DigitsValue(IntStr(n)) == n
  {
    if n >= 10 {
      var s := IntStr(n);
      DigitsOfIntStr(n / 10);
      assert s[..|s| - 1] == IntStr(n / 10);
    }
  }

  /** Reading back a formatted number gives that number... */
  lemma ParseIntStr(n: nat)
    ensures ParseNat(IntStr(n)) == Some(n)
  {
    DigitsOfIntStr(n);
  }

  /** ...so different numbers are never formatted alike. */
  lemma IntStrInjective(m: nat, n: nat)
    requires IntStr(m) == IntStr(n)
    ensures m == n
  {
    ParseIntStr(m);
    ParseIntStr(n);
  }

  /** Position of the first `c` in `s`, or `|s|` when there is none. */
  function Find(s: string, c: char): (i: nat)
    ensures i <= |s|
    ensures i < |s| ==> s[i] == c
    ensures forall k :: 0 <= k < i ==> s[k] != c
  {
    if |s| == 0 then 0 else if s[0] == c then 0 else 1 + Find(s[1..], c)
  }

  function Pow10(n: nat): (r: nat)
    ensures r >= 1
  {
    if n == 0 then 1 else 10 * Pow10(n - 1)
  }

  /** `float(s)` for the plain decimal notation the keys use: digits,
      optionally followed by a point and at least one more digit. */
  function ParseDecimal(s: string): (r: Option<real>)
    ensures r.Some? ==> r.value >= 0.0
    ensures AllDigits(s) ==> r == (if |s| >= 1 then Some(DigitsValue(s) as real) else None)
  {
    var i := Find(s, '.');
    if i == |s| then
      if |s| >= 1 && AllDigits(s) then Some(DigitsValue(s) as real) else None
    else
      var whole, frac := s[..i], s[i + 1..];
      if |whole| >= 1 && AllDigits(whole) && |frac| >= 1 && AllDigits(frac) then
        Some(DigitsValue(whole) as real + DigitsValue(frac) as real / Pow10(|frac|) as real)
      else None
  }

  /** `f"{w:.1f}"` for a wavelength of `tenths / 10` nm, which every grid of
      the conversion scripts hits exactly. */
  function OneDecimal(tenths: nat): (s: string)
  {
    IntStr(tenths / 10) + "." + [DigitChar(tenths % 10)]
  }

  /** The wavelength text of the source's Ed headers: no decimals for a
      whole wavelength, one otherwise. */
  function HeaderWavelength(tenths: nat): (s: string)
  {
    if tenths % 10 == 0 then IntStr(tenths / 10) else OneDecimal(tenths)
  }

  lemma ParseWhole(n: nat)
    ensures ParseDecimal(IntStr(n)) == Some(n as real)
  {
    DigitsOfIntStr(n);
  }

  /** One-decimal text reads back as the wavelength it was made from. */
  lemma ParseOneDecimal(tenths: nat)
    ensures ParseDecimal(OneDecimal(tenths)) == Some(tenths as real / 10.0)
  {
    var q, d := tenths / 10, tenths % 10;
    ParseOneDecimalParts(tenths);
    TenthsSplit(tenths);
    SameValue(ParseDecimal(OneDecimal(tenths)), q as real + d as real / 10.0, tenths as real / 10.0);
  }

  /** The text `q.d` reads as the whole part `q` plus `d` tenths. */
  lemma ParseOneDecimalParts(tenths: nat)
    ensures ParseDecimal(OneDecimal(tenths)) == Some((tenths / 10) as real + (tenths % 10) as real / 10.0)
  {
    var q, d := tenths / 10, tenths % 10;
    var whole, frac, s := IntStr(q), [DigitChar(d)], OneDecimal(tenths);
    assert s == whole + (['.'] + frac);
    assert Find(s, '.') == |whole| by {
      FindAfterDigits(whole, ['.'] + frac, '.');
    }
    assert s[..|whole|] == whole;
    assert s[|whole| + 1..] == frac;
    DigitsOfIntStr(q);
    assert DigitsValue(frac) == d by {
      assert frac[..0] == [];
    }
    assert Pow10(|frac|) == 10;
  }

  lemma TenthsSplit(tenths: nat)
    ensures (tenths / 10) as real + (tenths % 10) as real / 10.0 == tenths as real / 10.0
  {
    assert tenths == 10 * (tenths / 10) + tenths % 10;
  }

  /** The header text reads back as the same wavelength whichever of its two
      forms it takes. */
  lemma ParseHeaderWavelength(tenths: nat)
    ensures ParseDecimal(HeaderWavelength(tenths)) == Some(tenths as real / 10.0)
  {
    if tenths % 10 == 0 {
      ParseWhole(tenths / 10);
    } else {
      ParseOneDecimal(tenths);
    }
  }

  /** Different wavelengths get different one-decimal keys. */
  lemma OneDecimalInjective(s: nat, t: nat)
    requires OneDecimal(s) == OneDecimal(t)
    ensures s == t
  {
    ParseOneDecimal(s);
    ParseOneDecimal(t);
  }

  lemma FindAfterDigits(a: string, b: string, c: char)
    requires AllDigits(a) && !IsDigit(c) && |b| >= 1 && b[0] == c
    ensures Find(a + b, c) == |a|
  {
    assert (a + b)[|a|] == c;
  }

  predicate StartsWith(s: string, p: string)
  {
    |p| <= |s| && s[..|p|] == p
  }

  /** Python's `sub in s`. */
  predicate Contains(s: string, sub: string)
    decreases |s|
  {
    StartsWith(s, sub) || (|s| > 0 && Contains(s[1..], sub))
  }

  /** `sub` is the text of `s` starting at position `i`. */
  predicate OccursAt(s: string, sub: string, i: int)
  {
    0 <= i <= |s| - |sub| && s[i..i + |sub|] == sub
  }

  /** `sub in s` holds exactly when `sub` occurs at some position of `s`. */
  lemma {:induction false} ContainsAt(s: string, sub: string)
    ensures Contains(s, sub) <==> exists i :: OccursAt(s, sub, i)
    decreases |s|
  {
    if StartsWith(s, sub) {
      assert OccursAt(s, sub, 0);
    }
    if |s| > 0 {
      ContainsAt(s[1..], sub);
      if exists i :: OccursAt(s, sub, i) {
        var i :| OccursAt(s, sub, i);
        if i > 0 {
          assert s[1..][i - 1..i - 1 + |sub|] == sub;
          assert OccursAt(s[1..], sub, i - 1);
        }
      }
      if Contains(s[1..], sub) {
        var i :| OccursAt(s[1..], sub, i);
        assert s[i + 1..i + 1 + |sub|] == sub;
        assert OccursAt(s, sub, i + 1);
      }
    } else {
      if exists i :: OccursAt(s, sub, i) {
        var i :| OccursAt(s, sub, i);
        assert s[..|sub|] == sub;
      }
    }
  }

  /** A key built around a quantity contains that quantity. */
  lemma ContainsInside(p: string, sub: string, q: string)
    ensures Contains(p + sub + q, sub)
  {
    var s := p + sub + q;
    assert s[|p|..|p| + |sub|] == sub;
    assert OccursAt(s, sub, |p|);
    ContainsAt(s, sub);
  }

  /** `s.split(sep)[-1]`: the text after the last `sep`, or all of `s` when
      it has none. */
  function LastSegment(s: string, sep: char): (r: string)
    ensures |r| <= |s| && r == s[|s| - |r|..]
    ensures sep !in r
    ensures |r| < |s| ==> s[|s| - |r| - 1] == sep
  {
    if |s| == 0 then ""
    else if s[|s| - 1] == sep then ""
    else LastSegment(s[..|s| - 1], sep) + [s[|s| - 1]]
  }

  /** Whatever comes before the last separator does not matter. */
  lemma {:induction false} LastSegmentAfter(p: string, sep: char, t: string)
    requires sep !in t
    ensures LastSegment(p + [sep] + t, sep) == t
    decreases |t|
  {
    var s := p + [sep] + t;
    if |t| == 0 {
      assert s[|s| - 1] == sep;
    } else {
      var n := |t| - 1;
      assert s[..|s| - 1] == p + [sep] + t[..n];
      LastSegmentAfter(p, sep, t[..n]);
      assert t == t[..n] + [t[n]];
    }
  }

  /** A wavelength key: a quantity label, an underscore, the wavelength text. */
  function Key(quantity: string, wavelength: string): string
  {
    quantity + "_" + wavelength
  }

  /** The wavelength `split_spectrum` reads from a key. */
  function KeyWavelength(key: string): Option<real>
  {
    ParseDecimal(LastSegment(key, '_'))
  }

  lemma NoUnderscoreInDigits(s: string)
    requires AllDigits(s)
    ensures '_' !in s
  {
  }

  /** Keys with a one-decimal wavelength read back as that wavelength,
      whatever the quantity (underscores in it included). */
  lemma KeyWavelengthOneDecimal(quantity: string, tenths: nat)
    ensures KeyWavelength(Key(quantity, OneDecimal(tenths))) == Some(tenths as real / 10.0)
  {
    var w := OneDecimal(tenths);
    NoUnderscoreInDigits(IntStr(tenths / 10));
    assert '_' !in w;
    assert Key(quantity, w) == quantity + ['_'] + w;
    LastSegmentAfter(quantity, '_', w);
    ParseOneDecimal(tenths);
  }

  /** Keys with a whole wavelength, such as `Ed_320`, read back likewise. */
  lemma KeyWavelengthWhole(quantity: string, n: nat)
    ensures KeyWavelength(Key(quantity, IntStr(n))) == Some(n as real)
  {
    NoUnderscoreInDigits(IntStr(n));
    assert Key(quantity, IntStr(n)) == quantity + ['_'] + IntStr(n);
    LastSegmentAfter(quantity, '_', IntStr(n));
    ParseWhole(n);
  }
}
