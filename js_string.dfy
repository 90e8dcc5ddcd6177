/** The JavaScript string and number primitives the queue display relies on:
    `padStart`, `parseInt` restricted to a leading run of decimal digits,
    and the `|| ''` / `|| 0` fallbacks for missing values. */
module JsString {
  import opened Wrappers

  /** `s || ''`: a missing string (or the empty string) becomes `''`. */
  function OrEmpty(s: Option<string>): (r: string)
    ensures s.None? ==> r == ""
    ensures s.Some? ==> r == s.value
  {
    s.GetOr("")
  }

  /** `String(v)` for a string field that may be absent: `String(undefined)`
      is the text `"undefined"`. */
  function ToJsString(s: Option<string>): (r: string)
    ensures s.Some? ==> r == s.value
    ensures s.None? ==> r == "undefined"
  {
    s.GetOr("undefined")
  }

  /** `n` copies of `c`. */
  function Repeat(c: char, n: nat): (r: string)
    ensures |r| == n
    ensures forall i :: 0 <= i < n ==> r[i] == c
  {
    if n == 0 then "" else [c] + Repeat(c, n - 1)
  }

  /** `s.padStart(width, fill)` for a one-character fill string: `s` with
      as many copies of `fill` put in front as it takes to reach `width`. */
  function PadStart(s: string, width: nat, fill: char): (r: string)
    ensures |r| == if |s| >= width then |s| else width
    ensures r[|r| - |s|..] == s
    ensures forall i :: 0 <= i < |r| - |s| ==> r[i] == fill
  {
    if |s| >= width then s else Repeat(fill, width - |s|) + s
  }

  /** A string already `width` long or longer is returned as it is. */
  lemma PadStartLongUnchanged(s: string, width: nat, fill: char)
    requires |s| >= width
    ensures PadStart(s, width, fill) == s
  {
  }

  /** Padding is idempotent. */
  lemma PadStartIdempotent(s: string, width: nat, fill: char)
    ensures PadStart(PadStart(s, width, fill), width, fill) == PadStart(s, width, fill)
  {
    PadStartLongUnchanged(PadStart(s, width, fill), width, fill);
  }

  /** The contract of `PadStart` determines its result: any string of the
      right length that ends in `s` and starts with fill characters is it. */
  lemma {:induction false} PadStartUnique(s: string, width: nat, fill: char, t: string)
    requires |t| == if |s| >= width then |s| else width
    requires t[|t| - |s|..] == s
    requires forall i :: 0 <= i < |t| - |s| ==> t[i] == fill
    ensures t == PadStart(s, width, fill)
  {
    var r := PadStart(s, width, fill);
    assert |r| == |t|;
    forall i | 0 <= i < |t|
      ensures t[i] == r[i]
    {
      if i >= |t| - |s| {
        assert t[i] == t[|t| - |s|..][i - (|t| - |s|)];
        assert r[i] == r[|r| - |s|..][i - (|r| - |s|)];
      }
    }
  }

  predicate IsDigit(c: char) {
    '0' <= c <= '9'
  }

  predicate AllDigits(s: string) {
    forall i :: 0 <= i < |s| ==> IsDigit(s[i])
  }

  function DigitValue(c: char): (d: nat)
    requires IsDigit(c)
    ensures d <= 9
  {
    c as int - '0' as int
  }

  /** The decimal value of a digit string, most significant digit first. */
  function DigitsValue(ds: string): (v: nat)
    requires AllDigits(ds)
    ensures ds == [] ==> v == 0
  {
    if ds == [] then 0
    else DigitsValue(ds[..|ds| - 1]) * 10 + DigitValue(ds[|ds| - 1])
  }

  /** The longest prefix of `s` made of decimal digits. */
  function LeadingDigits(s: string): (r: string)
    ensures |r| <= |s| && r == s[..|r|]
    ensures AllDigits(r)
    ensures |r| < |s| ==> !IsDigit(s[|r|])
  {
    if s == [] || !IsDigit(s[0]) then "" else [s[0]] + LeadingDigits(s[1..])
  }

  /** `parseInt(s)` on a string whose number, if any, is a leading run of
      decimal digits: `None` stands for `NaN`, which is what `parseInt`
      yields when the string does not start with a digit. */
  function ParseInt(s: string): (r: Option<int>)
    ensures r.None? <==> (s == [] || !IsDigit(s[0]))
    ensures r.Some? ==> r.value >= 0
  {
    var ds := LeadingDigits(s);
    if ds == [] then None else Some(DigitsValue(ds))
  }

  /** `parseInt(field)` for a field that may be absent: `parseInt(undefined)`
      is `NaN`. */
  function ParseIntField(s: Option<string>): (r: Option<int>)
    ensures s.None? ==> r.None?
    ensures s.Some? ==> r == ParseInt(s.value)
  {
    match s
    case None => None
    case Some(t) => ParseInt(t)
  }

  /** `a > b` on two results of `parseInt`: every comparison with `NaN` is false. */
  predicate NumGreater(a: Option<int>, b: Option<int>) {
    a.Some? && b.Some? && a.value > b.value
  }

  /** `n || 0` on a result of `parseInt`: `NaN` (and `0`) become `0`. */
  function OrZero(n: Option<int>): (r: int)
    ensures n.None? ==> r == 0
    ensures n.Some? ==> r == n.value
  {
    n.GetOr(0)
  }

  /** Leading zeros do not change the value of a digit string. */
  lemma {:induction false} DigitsValueLeadingZeros(k: nat, ds: string)
    requires AllDigits(ds)
    ensures AllDigits(Repeat('0', k) + ds)
    ensures DigitsValue(Repeat('0', k) + ds) == DigitsValue(ds)
  {
    var z := Repeat('0', k);
    var s := z + ds;
    assert AllDigits(s) by {
      forall i | 0 <= i < |s| ensures IsDigit(s[i]) {
        if i < k { assert s[i] == z[i]; } else { assert s[i] == ds[i - k]; }
      }
    }
    if ds == [] {
      assert s == z;
      AllZerosValue(k);
    } else {
      var init := ds[..|ds| - 1];
      assert s[..|s| - 1] == z + init;
      assert s[|s| - 1] == ds[|ds| - 1];
      DigitsValueLeadingZeros(k, init);
    }
  }

  /** A string of zeros has the value 0. */
  lemma {:induction false} AllZerosValue(k: nat)
    ensures AllDigits(Repeat('0', k))
    ensures DigitsValue(Repeat('0', k)) == 0
  {
    if k > 0 {
      var z := Repeat('0', k);
      var init := z[..k - 1];
      assert init == Repeat('0', k - 1) by {
        assert forall i :: 0 <= i < k - 1 ==> init[i] == '0';
      }
      AllZerosValue(k - 1);
    }
  }

  /** The leading digits of a digit string followed by something that does
      not start with a digit are that digit string. */
  lemma {:induction false} LeadingDigitsOfDigits(ds: string, rest: string)
    requires AllDigits(ds)
    requires rest == [] || !IsDigit(rest[0])
    ensures LeadingDigits(ds + rest) == ds
  {
    if ds != [] {
      assert (ds + rest)[1..] == ds[1..] + rest;
      LeadingDigitsOfDigits(ds[1..], rest);
    }
  }

  /** Zero-padding a string that starts with a digit keeps its parsed
      value: `parseInt("0023") == parseInt("23")`. */
  lemma PadStartKeepsParsedValue(s: string, width: nat)
    requires s != [] && IsDigit(s[0])
    ensures ParseInt(PadStart(s, width, '0')) == ParseInt(s)
  {
    if |s| < width {
      var k := width - |s|;
      var z := Repeat('0', k);
      var ds := LeadingDigits(s);
      var rest := s[|ds|..];
      assert s == ds + rest;
      LeadingDigitsOfDigits(ds, rest);
      DigitsValueLeadingZeros(k, ds);
      assert z + s == (z + ds) + rest;
      LeadingDigitsOfDigits(z + ds, rest);
    }
  }

  /** Padding the empty string gives `"0000"`, which parses to 0, while the
      empty string itself parses to `NaN`. */
  lemma PadStartOfEmpty()
    ensures PadStart("", 4, '0') == "0000"
    ensures ParseInt("") == None
    ensures ParseInt("0000") == Some(0)
  {
    assert PadStart("", 4, '0') == Repeat('0', 4);
    LeadingDigitsOfDigits("0000", "");
    AllZerosValue(4);
    assert Repeat('0', 4) == "0000";
  }
}
