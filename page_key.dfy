/** The sort key of a page image: the number in the first run of decimal digits of its
    file name, as `parseInt(name.match(/\d+/)[0])` computes it in index.js. */
module PageKey {
  import opened Wrappers

  /** `\d` in a JavaScript regular expression without the `u` flag: an ASCII decimal digit. */
  predicate IsDigit(c: char) {
    '0' <= c <= '9'
  }

  predicate HasDigit(s: string) {
    exists i :: 0 <= i < |s| && IsDigit(s[i])
  }

  predicate AllDigits(s: string) {
    forall i :: 0 <= i < |s| ==> IsDigit(s[i])
  }

  /** The numeric value of a string of decimal digits, most significant digit first, as
      `parseInt` reads it; leading zeros add nothing. */
  function DecimalValue(ds: string): nat
    requires AllDigits(ds)
  {
    if ds == [] then 0
    else 10 * DecimalValue(ds[..|ds| - 1]) + (ds[|ds| - 1] as int - '0' as int)
  }

  /** The length of the (greedy) run of digits at the start of `s`. */
  function DigitRunLength(s: string): (k: nat)
    ensures k <= |s|
    ensures AllDigits(s[..k])
    ensures k < |s| ==> !IsDigit(s[k])
  {
    if s == [] || !IsDigit(s[0]) then 0
    else
      var k' := DigitRunLength(s[1..]);
      assert s[..k' + 1] == [s[0]] + s[1..][..k'];
      1 + k'
  }

  /** The value of the leftmost, longest match of `/\d+/` in `s`, or None when `s` holds
      no digit (the case in which index.js reads index 0 of a null match and throws). */
  function FirstDigitRun(s: string): Option<nat>
  {
    if s == [] then None
    else if IsDigit(s[0]) then Some(DecimalValue(s[..DigitRunLength(s)]))
    else FirstDigitRun(s[1..])
  }

  /** The match is null exactly when the name holds no digit at all. */
  lemma {:induction false} FirstDigitRunNone(s: string)
    ensures FirstDigitRun(s).None? <==> !HasDigit(s)
  {
    if s != [] && !IsDigit(s[0]) {
      FirstDigitRunNone(s[1..]);
      assert forall i :: 1 <= i < |s| ==> s[i] == s[1..][i - 1];
    }
  }

  /** Whatever precedes the first digit, FirstDigitRun reads exactly the maximal run of
      digits that starts there: the regular expression's leftmost-longest match. */
  lemma {:induction false} FirstDigitRunMatch(s: string, p: nat, q: nat)
    requires p < q <= |s|
    requires forall i :: 0 <= i < p ==> !IsDigit(s[i])
    requires AllDigits(s[p..q])
    requires q == |s| || !IsDigit(s[q])
    ensures FirstDigitRun(s) == Some(DecimalValue(s[p..q]))
  {
    if p == 0 {
      assert IsDigit(s[..q][0]);
      assert DigitRunLength(s) == q;
    } else {
      var t := s[1..];
      assert t[p - 1..q - 1] == s[p..q];
      FirstDigitRunMatch(t, p - 1, q - 1);
    }
  }

  /** Leading zeros do not change the value: `parseInt("007") == 7`. */
  lemma {:induction false} LeadingZero(ds: string)
    requires AllDigits(ds)
    ensures AllDigits("0" + ds) && DecimalValue("0" + ds) == DecimalValue(ds)
  {
    if ds != [] {
      var zs := "0" + ds;
      assert zs[..|zs| - 1] == "0" + ds[..|ds| - 1];
      LeadingZero(ds[..|ds| - 1]);
    }
  }

  /** Any number of leading zeros does not change the value. */
  lemma {:induction false} LeadingZeros(z: nat, ds: string)
    requires AllDigits(ds)
    ensures AllDigits(Zeros(z) + ds) && DecimalValue(Zeros(z) + ds) == DecimalValue(ds)
  {
    if z == 0 {
      assert Zeros(z) + ds == ds;
    } else {
      LeadingZeros(z - 1, ds);
      assert Zeros(z) + ds == "0" + (Zeros(z - 1) + ds);
      LeadingZero(Zeros(z - 1) + ds);
    }
  }

  /** `z` copies of the digit zero. */
  function Zeros(z: nat): (r: string)
    ensures |r| == z && AllDigits(r)
  {
    seq(z, _ => '0')
  }

  /** The decimal numeral of `n` without leading zeros, as a page number is written into
      a file name by the rasteriser. */
  function Decimal(n: nat): (r: string)
    ensures r != [] && AllDigits(r)
  {
    var d := ['0' + (n % 10) as char];
    if n < 10 then d else Decimal(n / 10) + d
  }

  /** Reading back a written page number yields the number: `parseInt(String(n)) == n`. */
  lemma {:induction false} DecimalRoundTrip(n: nat)
    ensures DecimalValue(Decimal(n)) == n
  {
    if n >= 10 {
      var r := Decimal(n);
      assert r[..|r| - 1] == Decimal(n / 10);
      DecimalRoundTrip(n / 10);
    }
  }
}
