/** Zero-padded decimal printing (`%0wd`), reading it back (`atoi`), and how strings compare. */
module Decimal {

  function Pow10(w: nat): (p: nat)
    ensures p >= 1
  {
    if w == 0 then 1 else 10 * Pow10(w - 1)
  }

  function Digit(d: int): (c: char)
    requires 0 <= d < 10
    ensures IsDigit(c) && DigitValue(c) == d
  {
    '0' + d as char
  }

  predicate IsDigit(c: char) {
    '0' <= c <= '9'
  }

  function DigitValue(c: char): (d: int)
    requires IsDigit(c)
    ensures 0 <= d < 10
  {
    c as int - '0' as int
  }

  // ---------- printing ----------

  /** The decimal digits of `n`, with zeros put in front of them up to `w` characters. */
  function Padded(n: nat, w: nat): (s: string)
    ensures |s| >= 1 && |s| >= w
    ensures forall i :: 0 <= i < |s| ==> IsDigit(s[i])
    decreases n + w
  {
    if n < 10 && w <= 1 then [Digit(n)]
    else Padded(n / 10, if w > 0 then w - 1 else 0) + [Digit(n % 10)]
  }

  /** What `sprintf` makes of `%0wd`: a minus sign counts towards the width. */
  function Field(n: int, w: nat): (s: string)
    requires w >= 1
    ensures |s| >= w
  {
    if n >= 0 then Padded(n, w) else "-" + Padded(-n, w - 1)
  }

  /** The numbers that `%0wd` prints in `w` characters. */
  predicate FitsWidth(n: int, w: nat)
    requires w >= 1
  {
    if n >= 0 then n < Pow10(w) else w >= 2 && -n < Pow10(w - 1)
  }

  lemma {:induction false} PaddedWidth(n: nat, w: nat)
    requires w >= 1
    ensures |Padded(n, w)| == w <==> n < Pow10(w)
    decreases w
  {
    if w == 1 {
      assert Pow10(1) == 10 * Pow10(0);
    } else {
      PaddedWidth(n / 10, w - 1);
      assert n < 10 * Pow10(w - 1) <==> n / 10 < Pow10(w - 1);
    }
  }

  /** A field comes out at its nominal width exactly when its number fits. */
  lemma FieldWidth(n: int, w: nat)
    requires w >= 1
    ensures |Field(n, w)| == w <==> FitsWidth(n, w)
  {
    if n >= 0 {
      PaddedWidth(n, w);
    } else if w >= 2 {
      PaddedWidth(-n, w - 1);
    }
  }

  // ---------- reading ----------

  predicate IsSpace(c: char) {
    c == ' ' || 9 as char <= c <= 13 as char
  }

  /** The value of the digits at the front of `s`, read on from `sofar`. */
  function ReadDigits(s: string, sofar: int): int {
    if s == "" || !IsDigit(s[0]) then sofar
    else ReadDigits(s[1..], 10 * sofar + DigitValue(s[0]))
  }

  /** C's `atoi`: white space, one sign at most, then digits as far as they go. */
  function Atoi(s: string): int {
    if s == "" then 0
    else if IsSpace(s[0]) then Atoi(s[1..])
    else if s[0] == '-' then -ReadDigits(s[1..], 0)
    else if s[0] == '+' then ReadDigits(s[1..], 0)
    else ReadDigits(s, 0)
  }

  lemma {:induction false} ReadOneMore(s: string, c: char, sofar: int)
    requires IsDigit(c) && forall i :: 0 <= i < |s| ==> IsDigit(s[i])
    ensures ReadDigits(s + [c], sofar) == 10 * ReadDigits(s, sofar) + DigitValue(c)
    decreases |s|
  {
    if s == "" {
      assert (s + [c])[1..] == "";
    } else {
      assert (s + [c])[1..] == s[1..] + [c];
      ReadOneMore(s[1..], c, 10 * sofar + DigitValue(s[0]));
    }
  }

  lemma {:induction false} ReadPadded(n: nat, w: nat)
    ensures ReadDigits(Padded(n, w), 0) == n
    decreases n + w
  {
    if n < 10 && w <= 1 {
      assert Padded(n, w)[1..] == "";
    } else {
      var w' := if w > 0 then w - 1 else 0;
      ReadPadded(n / 10, w');
      ReadOneMore(Padded(n / 10, w'), Digit(n % 10), 0);
    }
  }

  /** Printing then reading is the identity: for every number, at every width. */
  lemma AtoiOfField(n: int, w: nat)
    requires w >= 1
    ensures Atoi(Field(n, w)) == n
  {
    if n >= 0 {
      ReadPadded(n, w);
      assert IsDigit(Padded(n, w)[0]);
    } else {
      ReadPadded(-n, w - 1);
      assert Field(n, w)[1..] == Padded(-n, w - 1);
    }
  }

  lemma {:induction false} ReadIsSmall(s: string, sofar: int, w: nat)
    requires 0 <= sofar < Pow10(w)
    ensures 0 <= ReadDigits(s, sofar) < Pow10(w + |s|)
    decreases |s|
  {
    if s == "" || !IsDigit(s[0]) {
      PowGrows(w, w + |s|);
    } else {
      ReadIsSmall(s[1..], 10 * sofar + DigitValue(s[0]), w + 1);
    }
  }

  lemma {:induction false} PowGrows(a: nat, b: nat)
    requires a <= b
    ensures Pow10(a) <= Pow10(b)
    decreases b
  {
    if a < b {
      PowGrows(a, b - 1);
    }
  }

  /** Whatever `w` characters say, `atoi` makes of them a number that `%0wd` prints in `w` characters. */
  lemma {:induction false} AtoiFits(s: string)
    requires |s| >= 1
    ensures FitsWidth(Atoi(s), |s|)
    decreases |s|
  {
    PowGrows(0, |s|);
    PowGrows(|s| - 1, |s|);
    if IsSpace(s[0]) {
      if |s| > 1 {
        AtoiFits(s[1..]);
        if |s| > 2 {
          PowGrows(|s| - 2, |s| - 1);
        }
      }
    } else if s[0] == '-' || s[0] == '+' {
      ReadIsSmall(s[1..], 0, 0);
    } else {
      ReadIsSmall(s, 0, 0);
    }
  }

  // ---------- comparing ----------

  /** `operator<` on strings. */
  predicate Before(s: string, t: string) {
    t != "" && (s == "" || s[0] < t[0] || (s[0] == t[0] && Before(s[1..], t[1..])))
  }

  /** Behind parts of one length, the rest decides only between equal parts. */
  lemma {:induction false} BeforeInParts(a: string, b: string, c: string, d: string)
    requires |a| == |c|
    ensures Before(a + b, c + d) <==> Before(a, c) || (a == c && Before(b, d))
    decreases |a|
  {
    if a == "" {
      assert a + b == b && c + d == d;
    } else {
      assert (a + b)[1..] == a[1..] + b && (c + d)[1..] == c[1..] + d;
      BeforeInParts(a[1..], b, c[1..], d);
      assert a == [a[0]] + a[1..] && c == [c[0]] + c[1..];
    }
  }

  lemma NotBeforeItself(s: string)
    ensures !Before(s, s)
  {
  }

  /** Padding makes text order and number order one: for all numbers that fit the width. */
  lemma {:induction false} PaddedOrder(m: nat, n: nat, w: nat)
    requires w >= 1 && m < Pow10(w) && n < Pow10(w)
    ensures Before(Padded(m, w), Padded(n, w)) <==> m < n
    ensures Padded(m, w) == Padded(n, w) <==> m == n
    decreases w
  {
    ReadPadded(m, w);
    ReadPadded(n, w);
    if w == 1 {
      assert Pow10(1) == 10 * Pow10(0);
    } else {
      assert Pow10(w) == 10 * Pow10(w - 1);
      PaddedOrder(m / 10, n / 10, w - 1);
      PaddedWidth(m / 10, w - 1);
      PaddedWidth(n / 10, w - 1);
      BeforeInParts(Padded(m / 10, w - 1), [Digit(m % 10)], Padded(n / 10, w - 1), [Digit(n % 10)]);
      assert Before([Digit(m % 10)], [Digit(n % 10)]) <==> m % 10 < n % 10;
    }
  }
}
