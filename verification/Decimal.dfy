/** Decimal numerals: Go's zero-padded rendering and the digits a parser reads. */
module Decimal {
  import opened Wrappers
  import opened Collation

  function Pow10(width: nat): (p: nat)
    ensures p >= 1
  {
    if width == 0 then 1 else 10 * Pow10(width - 1)
  }

  predicate IsDigit(c: char) {
    '0' <= c <= '9'
  }

  predicate AllDigits(s: string) {
    forall i :: 0 <= i < |s| ==> IsDigit(s[i])
  }

  function Digit(d: nat): char
    requires d < 10
  {
    ('0' as int + d) as char
  }

  function DigitValue(c: char): nat
    requires IsDigit(c)
  {
    c as int - '0' as int
  }

  /** The numeral of n, with zeros in front up to `width`. */
  function Pad(n: nat, width: nat): (s: string)
    ensures |s| >= 1
    decreases n + width
  {
    (if n < 10 && width <= 1 then "" else Pad(n / 10, if width == 0 then 0 else width - 1)) + [Digit(n % 10)]
  }

  /** Go's `appendInt`: a sign if needed, then the padded numeral. */
  function AppendInt(n: int, width: nat): string {
    if n < 0 then "-" + Pad(-n, width) else Pad(n, width)
  }

  /** The last `width` decimal digits of n. */
  function Fixed(n: nat, width: nat): (s: string)
    ensures |s| == width && AllDigits(s)
  {
    if width == 0 then "" else Fixed(n / 10, width - 1) + [Digit(n % 10)]
  }

  /** The number a run of digits denotes. */
  function Value(s: string): nat
    requires AllDigits(s)
  {
    if s == "" then 0 else 10 * Value(s[..|s| - 1]) + DigitValue(s[|s| - 1])
  }

  /** A numeral is at least as wide as asked, and no wider exactly when its number fits. */
  lemma {:induction false} PadWidth(n: nat, width: nat)
    requires width >= 1
    ensures |Pad(n, width)| >= width
    ensures |Pad(n, width)| == width <==> n < Pow10(width)
    decreases n + width
  {
    if width == 1 {
      assert Pow10(1) == 10 * Pow10(0);
    } else {
      PadWidth(n / 10, width - 1);
      assert Pow10(width) == 10 * Pow10(width - 1);
    }
  }

  lemma {:induction false} PadDigits(n: nat, width: nat)
    ensures AllDigits(Pad(n, width))
    decreases n + width
  {
    if n >= 10 || width > 1 {
      PadDigits(n / 10, if width == 0 then 0 else width - 1);
    }
  }

  /** A number that fits its field is rendered at exactly that width. */
  lemma {:induction false} AppendIntIsFixed(n: nat, width: nat)
    requires width >= 1 && n < Pow10(width)
    ensures AppendInt(n, width) == Fixed(n, width)
  {
    assert Pow10(width) == 10 * Pow10(width - 1);
    if width > 1 {
      AppendIntIsFixed(n / 10, width - 1);
    }
  }

  /** Reading back a padded field gives the number that was written. */
  lemma {:induction false} ValueOfFixed(n: nat, width: nat)
    requires n < Pow10(width)
    ensures Value(Fixed(n, width)) == n
  {
    if width > 0 {
      ValueOfFixed(n / 10, width - 1);
      var s := Fixed(n, width);
      assert s[..width - 1] == Fixed(n / 10, width - 1);
    }
  }

  /** Padded fields compare as the numbers they hold. */
  lemma {:induction false} FixedOrder(a: nat, b: nat, width: nat)
    requires a < b < Pow10(width)
    ensures Less(Fixed(a, width), Fixed(b, width))
  {
    if width > 0 {
      if a / 10 < b / 10 {
        FixedOrder(a / 10, b / 10, width - 1);
      } else {
        assert a / 10 == b / 10 && a % 10 < b % 10;
        assert Less([Digit(a % 10)], [Digit(b % 10)]);
        LessIsIrreflexive(Fixed(a / 10, width - 1));
      }
      LessConcat(Fixed(a / 10, width - 1), [Digit(a % 10)], Fixed(b / 10, width - 1), [Digit(b % 10)]);
    }
  }
}
