/** Integer <-> text conversions as JavaScript performs them on the values
    this code handles: `${n}` for an integer and the global `parseInt` with
    no radix argument. */
module JsNumber {
  import opened Wrappers
  import opened Js

  predicate IsDecimalDigit(c: char)
  {
    '0' <= c <= '9'
  }

  /** The value of `c` as a digit in base `radix` (10 or 16 here), if it is one. */
  function DigitValue(c: char, radix: nat): (d: Option<nat>)
    ensures d.Some? ==> d.value < radix
  {
    var v :=
      if '0' <= c <= '9' then c as int - '0' as int
      else if 'a' <= c <= 'z' then c as int - 'a' as int + 10
      else if 'A' <= c <= 'Z' then c as int - 'A' as int + 10
      else 36;
    if v < radix then Some(v) else None
  }

  predicate AllDigits(s: String, radix: nat)
  {
    forall i :: 0 <= i < |s| ==> DigitValue(s[i], radix).Some?
  }

  /** The longest prefix of `s` made of base-`radix` digits. */
  function DigitRun(s: String, radix: nat): (r: String)
    ensures |r| <= |s| && r == s[..|r|]
    ensures AllDigits(r, radix)
    ensures |r| < |s| ==> DigitValue(s[|r|], radix).None?
  {
    if s != [] && DigitValue(s[0], radix).Some? then [s[0]] + DigitRun(s[1..], radix) else []
  }

  /** The number a string of digits denotes, most significant digit first. */
  function DigitsValue(ds: String, radix: nat): nat
    requires AllDigits(ds, radix)
  {
    if ds == [] then 0
    else DigitsValue(ds[..|ds| - 1], radix) * radix + DigitValue(ds[|ds| - 1], radix).value
  }

  /** The unsigned part of `parseInt`: a `0x`/`0X` prefix selects base 16;
      the value is that of the longest run of digits that follows, `None`
      when there is no digit at all. */
  function ParseMagnitude(u: String): Option<nat>
  {
    var hex := |u| >= 2 && u[0] == '0' && (u[1] == 'x' || u[1] == 'X');
    var radix := if hex then 16 else 10;
    var digits := DigitRun(if hex then u[2..] else u, radix);
    if digits == [] then None else Some(DigitsValue(digits, radix))
  }

  /** `parseInt` after the leading white space: an optional sign, then the
      magnitude. `None` stands for `NaN`. */
  function ParseSigned(t: String): Option<int>
  {
    var negative := t != [] && t[0] == '-';
    var u := if t != [] && (t[0] == '-' || t[0] == '+') then t[1..] else t;
    match ParseMagnitude(u)
    case None => None
    case Some(m) => Some(if negative then -(m as int) else m as int)
  }

  /** `parseInt(s)` with no radix argument. It is `NaN` unless the text,
      after its leading white space, starts with a sign or a digit. */
  function ParseInt(s: String): (n: Option<int>)
    ensures var t := TrimStart(s);
      (t == [] || (t[0] != '-' && t[0] != '+' && !IsDecimalDigit(t[0]))) ==> n.None?
  {
    ParseSigned(TrimStart(s))
  }

  function DecimalChar(d: nat): (c: char)
    requires d < 10
    ensures IsDecimalDigit(c) && DigitValue(c, 10) == Some(d)
  {
    ('0' as int + d) as char
  }

  /** The decimal numeral of a natural number, without leading zeros. */
  function ShowNat(n: nat): (r: String)
    ensures r != []
    ensures forall i :: 0 <= i < |r| ==> IsDecimalDigit(r[i])
  {
    if n < 10 then [DecimalChar(n)] else ShowNat(n / 10) + [DecimalChar(n % 10)]
  }

  /** `${n}` for an integer `n`. */
  function ShowInt(n: int): (r: String)
    ensures ':' !in r
  {
    if n < 0 then "-" + ShowNat(-n) else ShowNat(n)
  }

  lemma {:induction false} ShowNatValue(n: nat)
    ensures AllDigits(ShowNat(n), 10)
    ensures DigitsValue(ShowNat(n), 10) == n
  {
    if n >= 10 {
      ShowNatValue(n / 10);
      var s := ShowNat(n);
      assert s[..|s| - 1] == ShowNat(n / 10);
    }
  }

  lemma {:induction false} DigitRunOfDigits(s: String, radix: nat)
    requires AllDigits(s, radix)
    ensures DigitRun(s, radix) == s
    decreases |s|
  {
    if s != [] {
      DigitRunOfDigits(s[1..], radix);
      assert [s[0]] + s[1..] == s;
    }
  }

  /** `parseInt`'s magnitude of a run of decimal digits is their value. */
  lemma MagnitudeOfDigits(digits: String)
    requires digits != [] && forall i :: 0 <= i < |digits| ==> IsDecimalDigit(digits[i])
    ensures AllDigits(digits, 10)
    ensures ParseMagnitude(digits) == Some(DigitsValue(digits, 10))
  {
    assert AllDigits(digits, 10) by {
      forall i | 0 <= i < |digits|
        ensures DigitValue(digits[i], 10).Some?
      {
        assert IsDecimalDigit(digits[i]);
      }
    }
    assert !(|digits| >= 2 && (digits[1] == 'x' || digits[1] == 'X')) by {
      if |digits| >= 2 {
        assert IsDecimalDigit(digits[1]);
      }
    }
    DigitRunOfDigits(digits, 10);
  }

  /** The sign step of `parseInt` on a magnitude with no sign. */
  lemma UnsignedMagnitude(s: String, v: nat)
    requires s != [] && IsDecimalDigit(s[0]) && ParseMagnitude(s) == Some(v)
    ensures ParseSigned(s) == Some(v as int)
  {
  }

  /** The sign step of `parseInt` on a minus sign and a magnitude. */
  lemma NegatedMagnitude(s: String, v: nat)
    requires |s| >= 2 && s[0] == '-' && ParseMagnitude(s[1..]) == Some(v)
    ensures ParseSigned(s) == Some(-(v as int))
  {
  }

  /** `parseInt` of a minus sign or none, then a magnitude that starts with
      a decimal digit. */
  lemma SignedMagnitude(s: String, negative: bool, digits: String, v: nat)
    requires digits != [] && IsDecimalDigit(digits[0])
    requires s == (if negative then "-" else "") + digits && ParseMagnitude(digits) == Some(v)
    ensures ParseInt(s) == Some(if negative then -(v as int) else v as int)
  {
    if negative {
      assert s[0] == '-' && s[1..] == digits;
      NegatedMagnitude(s, v);
    } else {
      assert s == digits;
      UnsignedMagnitude(s, v);
    }
    TrimStartOfUnspaced(s);
  }

  /** `parseInt` reads back what `${n}` wrote. */
  lemma ParseShowInt(n: int)
    ensures ParseInt(ShowInt(n)) == Some(n)
  {
    var m: nat := if n < 0 then -n else n;
    ShowNatValue(m);
    MagnitudeOfDigits(ShowNat(m));
    SignedMagnitude(ShowInt(n), n < 0, ShowNat(m), m);
  }

  /** `parseInt(undefined)`, that is `parseInt("undefined")`, is `NaN`. */
  lemma ParseUndefined()
    ensures ParseInt("undefined") == None
  {
    var s := "undefined";
    assert !IsSpace(s[0]);
    assert DigitValue(s[0], 10).None?;
  }
}
