/** The string operations the fetchers rely on: `str.lower()`, the `in`
    substring test, `str.replace(c, '')` and the numeric parse that
    `pd.to_numeric` performs on a cleaned string. */
module Text {
  import opened Values

  function LowerChar(c: char): char {
    if 'A' <= c <= 'Z' then (c as int + 32) as char else c
  }

  /** `s.lower()`, on the ASCII letters. */
  function Lower(s: string): string {
    seq(|s|, i requires 0 <= i < |s| => LowerChar(s[i]))
  }

  predicate IsPrefix(p: string, s: string) {
    |p| <= |s| && s[..|p|] == p
  }

  /** Python's `p in s` for strings. */
  predicate Contains(s: string, p: string)
    decreases |s|
  {
    IsPrefix(p, s) || (|s| > 0 && Contains(s[1..], p))
  }

  /** `Contains` finds `p` exactly when `p` starts at some position of `s`. */
  lemma {:induction false} ContainsIffOccurs(s: string, p: string)
    ensures Contains(s, p) <==> exists i :: 0 <= i <= |s| && IsPrefix(p, s[i..])
  {
    if exists i :: 0 <= i <= |s| && IsPrefix(p, s[i..]) {
      var i :| 0 <= i <= |s| && IsPrefix(p, s[i..]);
      if i == 0 {
        assert s[0..] == s;
      } else {
        assert s[1..][i - 1..] == s[i..];
        ContainsIffOccurs(s[1..], p);
      }
    }
    if Contains(s, p) && !IsPrefix(p, s) {
      ContainsIffOccurs(s[1..], p);
      var i :| 0 <= i <= |s[1..]| && IsPrefix(p, s[1..][i..]);
      assert s[1..][i..] == s[i + 1..];
    } else if Contains(s, p) {
      assert s[0..] == s;
    }
  }

  /** `s.replace(ch, '')`. */
  function RemoveChar(s: string, ch: char): (r: string)
    ensures ch !in r
  {
    if s == [] then []
    else (if s[0] == ch then [] else [s[0]]) + RemoveChar(s[1..], ch)
  }

  /** Every `ch` goes and every other character stays as often as it was. */
  lemma {:induction false} RemoveCharCounts(s: string, ch: char)
    ensures multiset(RemoveChar(s, ch)) == multiset(s)[ch := 0]
  {
    if s != [] {
      assert s == [s[0]] + s[1..];
      RemoveCharCounts(s[1..], ch);
    }
  }

  /** Removing characters works piece by piece, so it keeps the order of what stays. */
  lemma {:induction false} RemoveCharConcat(a: string, b: string, ch: char)
    ensures RemoveChar(a + b, ch) == RemoveChar(a, ch) + RemoveChar(b, ch)
  {
    if a != [] {
      assert (a + b)[0] == a[0] && (a + b)[1..] == a[1..] + b;
      RemoveCharConcat(a[1..], b, ch);
    } else {
      assert a + b == b;
    }
  }

  /** A string without `ch` is left as it is. */
  lemma {:induction false} RemoveCharAbsent(s: string, ch: char)
    requires ch !in s
    ensures RemoveChar(s, ch) == s
  {
    if s != [] {
      assert s[0] in s;
      assert forall c :: c in s[1..] ==> c in s;
      RemoveCharAbsent(s[1..], ch);
    }
  }

  /** The cleaning the savings column gets before parsing (theOGagent.py:79):
      thousands separators first, then dollar signs. */
  function StripCurrency(s: string): (r: string)
    ensures ',' !in r && '$' !in r
  {
    var r := RemoveChar(RemoveChar(s, ','), '$');
    RemoveCharCounts(RemoveChar(s, ','), '$');
    assert multiset(r)[','] == 0;
    r
  }

  /** Cleaning keeps every other character as often as it was. */
  lemma StripCurrencyCounts(s: string, c: char)
    requires c != ',' && c != '$'
    ensures multiset(StripCurrency(s))[c] == multiset(s)[c]
  {
    RemoveCharCounts(s, ',');
    RemoveCharCounts(RemoveChar(s, ','), '$');
  }

  /** Cleaning works piece by piece. */
  lemma StripConcat(a: string, b: string)
    ensures StripCurrency(a + b) == StripCurrency(a) + StripCurrency(b)
  {
    RemoveCharConcat(a, b, ',');
    RemoveCharConcat(RemoveChar(a, ','), RemoveChar(b, ','), '$');
  }

  /** A string without separators or dollar signs is left as it is. */
  lemma StripCurrencyClean(s: string)
    requires ',' !in s && '$' !in s
    ensures StripCurrency(s) == s
  {
    RemoveCharAbsent(s, ',');
    RemoveCharAbsent(s, '$');
  }

  /** A lone separator or dollar sign is removed. */
  lemma StripSymbol(c: char)
    requires c == ',' || c == '$'
    ensures StripCurrency([c]) == []
  {
    assert [c][1..] == [];
    assert RemoveChar([c], ',') == (if c == ',' then [] else [c]) + RemoveChar([], ',');
    if c == '$' {
      assert RemoveChar([c], '$') == [] + RemoveChar([], '$');
    }
  }

  predicate IsDigit(c: char) {
    '0' <= c <= '9'
  }

  predicate AllDigits(s: string) {
    forall i :: 0 <= i < |s| ==> IsDigit(s[i])
  }

  /** The number a string of decimal digits denotes. */
  function DigitsValue(s: string): nat
    requires AllDigits(s)
  {
    if s == [] then 0
    else DigitsValue(s[..|s| - 1]) * 10 + (s[|s| - 1] as int - '0' as int)
  }

  /** "$" + w + "," + d is cleaned to w + d when neither part holds a
      separator or a dollar sign. */
  lemma StripThousands(w: string, d: string)
    requires ',' !in w && '$' !in w && ',' !in d && '$' !in d
    ensures StripCurrency("$" + w + "," + d) == w + d
  {
    var x := "," + d;
    assert StripCurrency(x) == d by {
      StripConcat(",", d);
      StripSymbol(',');
      StripCurrencyClean(d);
    }
    var y := w + x;
    assert StripCurrency(y) == w + d by {
      StripConcat(w, x);
      StripCurrencyClean(w);
    }
    assert StripCurrency("$" + y) == w + d by {
      StripConcat("$", y);
      StripSymbol('$');
    }
    assert "$" + w + "," + d == "$" + y;
  }

  /** Digits hold no separator, dollar sign or decimal point. */
  lemma DigitsClean(s: string)
    requires AllDigits(s)
    ensures ',' !in s && '$' !in s && '.' !in s
  {
    forall c | c in s ensures c != ',' && c != '$' && c != '.' {
      var i :| 0 <= i < |s| && s[i] == c;
      assert IsDigit(s[i]);
    }
  }

  /** Writing digits after others shifts the first ones by a power of ten. */
  lemma ShiftDigit(x: int, p: int, y: int, d: int)
    ensures (x * p + y) * 10 + d == x * (p * 10) + (y * 10 + d)
  {
  }

  /** Writing digits after others shifts the first ones by a power of ten. */
  lemma {:induction false} DigitsValueConcat(a: string, b: string)
    requires AllDigits(a) && AllDigits(b)
    ensures AllDigits(a + b) && DigitsValue(a + b) == DigitsValue(a) * Pow10(|b|) + DigitsValue(b)
  {
    if b == [] {
      assert a + b == a;
    } else {
      var b' := b[..|b| - 1];
      var d := b[|b| - 1] as int - '0' as int;
      assert AllDigits(b') by {
        forall i | 0 <= i < |b'| ensures IsDigit(b'[i]) {
          assert b'[i] == b[i];
        }
      }
      DigitsValueConcat(a, b');
      assert AllDigits(a + b) by {
        forall i | 0 <= i < |a + b| ensures IsDigit((a + b)[i]) {
          if i < |a| { assert (a + b)[i] == a[i]; } else { assert (a + b)[i] == b[i - |a|]; }
        }
      }
      assert (a + b)[..|a + b| - 1] == a + b';
      assert (a + b)[|a + b| - 1] == b[|b| - 1];
      assert DigitsValue(a + b) == DigitsValue(a + b') * 10 + d;
      assert DigitsValue(b) == DigitsValue(b') * 10 + d;
      assert Pow10(|b|) == Pow10(|b'|) * 10;
      ShiftDigit(DigitsValue(a), Pow10(|b'|), DigitsValue(b'), d);
    }
  }

  /** A string that starts with neither a sign nor a digit is not a number. */
  lemma ParseNonNumeric(s: string)
    requires s != [] && s[0] != '+' && s[0] != '-' && !IsDigit(s[0])
    ensures ParseNumber(s) == None
  {
    var k := DotPosition(s);
    if k > 0 {
      assert s[..k][0] == s[0];
    }
  }

  function Pow10(n: nat): (p: nat)
    ensures p >= 1
  {
    if n == 0 then 1 else 10 * Pow10(n - 1)
  }

  /** Index of the first '.' in `s`, or `|s|` when there is none. */
  function DotPosition(s: string): (k: nat)
    ensures k <= |s|
    ensures k < |s| ==> s[k] == '.'
    ensures forall i :: 0 <= i < k ==> s[i] != '.'
  {
    if s == [] then 0
    else if s[0] == '.' then 0
    else 1 + DotPosition(s[1..])
  }

  /** The number `whole.frac` denotes: the whole part plus the fraction
      `frac / 10^|frac|`. */
  function DecimalValue(whole: string, frac: string): (x: real)
    requires AllDigits(whole) && AllDigits(frac)
    ensures x >= 0.0
  {
    DigitsValue(whole) as real + DigitsValue(frac) as real / Pow10(|frac|) as real
  }

  /** An unsigned decimal: digits, optionally followed by '.' and more digits. */
  function ParseUnsigned(s: string): (r: Option<real>)
    ensures r.Some? ==> r.value >= 0.0
  {
    var k := DotPosition(s);
    var whole := s[..k];
    var frac := if k < |s| then s[k + 1..] else [];
    if whole != [] && AllDigits(whole) && (k == |s| || (frac != [] && AllDigits(frac))) then
      Some(DecimalValue(whole, frac))
    else
      None
  }

  /** `pd.to_numeric(s, errors='coerce')` on one string: a signed decimal,
      or None when `s` is not one (pandas gives NaN there). */
  function ParseNumber(s: string): Option<real> {
    if |s| > 0 && (s[0] == '-' || s[0] == '+') then
      match ParseUnsigned(s[1..])
      case Some(x) => Some(if s[0] == '-' then -x else x)
      case None => None
    else
      ParseUnsigned(s)
  }

  /** Where the first '.' of `w + "." + d` is, when `w` has none. */
  lemma DotAfter(w: string, d: string)
    requires '.' !in w
    ensures DotPosition(w + "." + d) == |w|
  {
    var s := w + "." + d;
    assert s[|w|] == '.';
  }

  /** A decimal with a fractional part parses to its whole part plus its
      fraction: "1234.56" is 1234 + 56/100. */
  lemma ParseDecimal(w: string, d: string)
    requires w != [] && d != [] && AllDigits(w) && AllDigits(d)
    ensures ParseNumber(w + "." + d) == Some(DecimalValue(w, d))
  {
    var s := w + "." + d;
    DigitsClean(w);
    DotAfter(w, d);
    assert s[0] == w[0] && IsDigit(w[0]);
    assert ParseNumber(s) == ParseUnsigned(s);
    var k := DotPosition(s);
    assert k == |w| && k < |s|;
    assert s[..k] == w;
    assert s[k + 1..] == d;
  }

  /** The decimal representation of a natural number (Python's `str(n)`). */
  function ShowNat(n: nat): (s: string)
    ensures s != [] && AllDigits(s)
  {
    var d := [('0' as int + n % 10) as char];
    if n < 10 then d else ShowNat(n / 10) + d
  }

  lemma {:induction false} DigitsValueShowNat(n: nat)
    ensures DigitsValue(ShowNat(n)) == n
  {
    var s := ShowNat(n);
    assert s[..|s| - 1] == if n < 10 then [] else ShowNat(n / 10);
    if n >= 10 {
      DigitsValueShowNat(n / 10);
    }
  }

  /** A plain digit string parses to the number it denotes. */
  lemma {:induction false} ParseDigits(s: string)
    requires s != [] && AllDigits(s)
    ensures ParseNumber(s) == Some(DigitsValue(s) as real)
  {
    assert DotPosition(s) == |s|;
    assert s[..|s|] == s;
  }

  /** Round trip: a natural number printed in decimal parses back to itself. */
  lemma ParseShowNat(n: nat)
    ensures ParseNumber(ShowNat(n)) == Some(n as real)
  {
    ParseDigits(ShowNat(n));
    DigitsValueShowNat(n);
  }

  /** A leading minus sign negates what the rest of the string denotes. */
  lemma ParseNegative(s: string)
    requires ParseUnsigned(s).Some?
    ensures ParseNumber("-" + s) == Some(-ParseUnsigned(s).value)
  {
    assert ("-" + s)[1..] == s;
  }
}
