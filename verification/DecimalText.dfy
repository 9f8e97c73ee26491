/** Decimal notation of natural numbers, as String(n) writes it. */
module DecimalText {
  predicate IsDigit(c: char) { '0' <= c <= '9' }

  function Digit(d: nat): (c: char)
    requires d < 10
    ensures IsDigit(c) && DigitValue(c) == d
  {
    "0123456789"[d]
  }

  function DigitValue(c: char): (d: nat)
    requires IsDigit(c)
    ensures d < 10
  {
    c as int - '0' as int
  }

  function Decimal(n: nat): (s: string)
    ensures s != "" && forall c | c in s :: IsDigit(c)
  {
    if n < 10 then [Digit(n)] else Decimal(n / 10) + [Digit(n % 10)]
  }

  function Value(s: string): nat
    requires forall c | c in s :: IsDigit(c)
  {
    if s == "" then 0
    else
      assert forall c | c in s[..|s| - 1] :: c in s;
      10 * Value(s[..|s| - 1]) + DigitValue(s[|s| - 1])
  }

  lemma {:induction false} ValueOfDecimal(n: nat)
    ensures Value(Decimal(n)) == n
  {
    var s := Decimal(n);
    if n < 10 {
      assert s[..0] == "";
    } else {
      ValueOfDecimal(n / 10);
      assert s[..|s| - 1] == Decimal(n / 10);
    }
  }

  /** The canonical spelling: digits without a leading zero, or the zero itself. */
  predicate Canonical(s: string) {
    s != "" && (forall c | c in s :: IsDigit(c)) && (s[0] == '0' ==> s == "0")
  }

  lemma {:induction false} CanonicalIff(s: string)
    ensures Canonical(s) <==> exists n: nat :: s == Decimal(n)
    decreases |s|
  {
    if Canonical(s) {
      var last := s[|s| - 1];
      if |s| == 1 {
        assert s == Decimal(DigitValue(last)) by { OneDigit(last); }
      } else {
        var front := s[..|s| - 1];
        assert forall c | c in front :: c in s;
        CanonicalIff(front);
        var m: nat :| front == Decimal(m);
        DecimalIsCanonical(m);
        OneMoreDigit(m, last);
        assert s == front + [last];
      }
    }
    forall n: nat | s == Decimal(n) ensures Canonical(s) { DecimalIsCanonical(n); }
  }

  lemma OneDigit(c: char)
    requires IsDigit(c)
    ensures Decimal(DigitValue(c)) == [c]
  {
  }

  lemma OneMoreDigit(m: nat, c: char)
    requires m > 0 && IsDigit(c)
    ensures Decimal(10 * m + DigitValue(c)) == Decimal(m) + [c]
  {
    OneDigit(c);
  }

  lemma {:induction false} DecimalIsCanonical(n: nat)
    ensures Canonical(Decimal(n)) && (Decimal(n)[0] == '0' <==> n == 0)
  {
    if n >= 10 { DecimalIsCanonical(n / 10); }
  }
}
