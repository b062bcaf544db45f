/**
 * Torset labels: `f"torset-{index:02}"`, the prefix followed by the decimal
 * index padded with zeros to at least two digits.
 */
module TorsetLabels {
  import opened PyStr

  predicate IsDigit(c: char) {
    '0' <= c <= '9'
  }

  predicate AllDigits(s: string) {
    forall i :: 0 <= i < |s| ==> IsDigit(s[i])
  }

  function DigitChar(d: nat): (c: char)
    requires d < 10
    ensures IsDigit(c)
  {
    ('0' as int + d) as char
  }

  function DigitValue(c: char): (d: nat)
    requires IsDigit(c)
    ensures d < 10 && DigitChar(d) == c
  {
    c as int - '0' as int
  }

  /** `str(n)` for a natural number: the shortest decimal numeral. */
  function Decimal(n: nat): (s: string)
    ensures |s| >= 1 && AllDigits(s)
    ensures |s| == 1 <==> n < 10
  {
    if n < 10 then [DigitChar(n)] else Decimal(n / 10) + [DigitChar(n % 10)]
  }

  /** `int(s)` for a string of digits (leading zeros allowed). */
  function ParseDecimal(s: string): nat
    requires AllDigits(s)
  {
    if |s| == 0 then 0 else ParseDecimal(s[..|s| - 1]) * 10 + DigitValue(s[|s| - 1])
  }

  lemma {:induction false} DecimalRoundTrip(n: nat)
    ensures ParseDecimal(Decimal(n)) == n
  {
    if n >= 10 {
      var s := Decimal(n);
      assert s[..|s| - 1] == Decimal(n / 10);
      DecimalRoundTrip(n / 10);
    }
  }

  lemma {:induction false} LeadingZero(s: string)
    requires AllDigits(s)
    ensures ParseDecimal("0" + s) == ParseDecimal(s)
    decreases |s|
  {
    if |s| > 0 {
      var t := "0" + s;
      assert t[..|t| - 1] == "0" + s[..|s| - 1];
      LeadingZero(s[..|s| - 1]);
    }
  }

  /** `f"{n:02}"` */
  function Pad2(n: nat): (s: string)
    ensures AllDigits(s)
  {
    if n < 10 then "0" + Decimal(n) else Decimal(n)
  }

  /** The `:02` format: at least two digits, exactly two below one hundred, read back as `n`. */
  lemma Pad2Value(n: nat)
    ensures |Pad2(n)| >= 2
    ensures n < 100 ==> |Pad2(n)| == 2
    ensures ParseDecimal(Pad2(n)) == n
  {
    DecimalRoundTrip(n);
    if n < 10 {
      LeadingZero(Decimal(n));
    } else if n < 100 {
      assert Decimal(n) == Decimal(n / 10) + [DigitChar(n % 10)];
    }
  }

  const Prefix: string := "torset-"

  /** The label of the torset with index `n`: `torset-` and at least two digits. */
  function Label(n: nat): (r: string)
    ensures |r| >= |Prefix| + 2 && r[..|Prefix|] == Prefix && AllDigits(r[|Prefix|..])
    ensures n < 100 ==> |r| == |Prefix| + 2
  {
    Pad2Value(n);
    Prefix + Pad2(n)
  }

  /** Reading a label's index back: the inverse of `Label`. */
  function IndexOf(tag: string): nat
    requires |tag| >= |Prefix| && AllDigits(tag[|Prefix|..])
  {
    ParseDecimal(tag[|Prefix|..])
  }

  lemma LabelRoundTrip(n: nat)
    ensures |Label(n)| >= |Prefix| && AllDigits(Label(n)[|Prefix|..])
    ensures StartsWith(Label(n), Prefix)
    ensures IndexOf(Label(n)) == n
  {
    assert Label(n)[|Prefix|..] == Pad2(n);
    Pad2Value(n);
  }

  /** Distinct indices give distinct labels. */
  lemma LabelInjective(a: nat, b: nat)
    ensures Label(a) == Label(b) <==> a == b
  {
    LabelRoundTrip(a);
    LabelRoundTrip(b);
  }

  /** The labels with index below `k`: `{torset-00, ..., torset-(k-1)}`. */
  function LabelsBelow(k: nat): set<string> {
    set i | 0 <= i < k :: Label(i)
  }

  lemma {:induction false} LabelsBelowSize(k: nat)
    ensures |LabelsBelow(k)| == k
  {
    if k > 0 {
      LabelsBelowSize(k - 1);
      LabelsBelowStep(k - 1);
    }
  }

  lemma LabelsBelowStep(k: nat)
    ensures LabelsBelow(k + 1) == LabelsBelow(k) + {Label(k)}
    ensures Label(k) !in LabelsBelow(k)
  {
    if Label(k) in LabelsBelow(k) {
      var i :| 0 <= i < k && Label(i) == Label(k);
      LabelInjective(i, k);
    }
  }

  lemma FirstLabels()
    ensures Label(0) == "torset-00" && Label(1) == "torset-01" && Label(10) == "torset-10"
  {
    assert Decimal(10) == Decimal(1) + [DigitChar(0)];
  }
}
