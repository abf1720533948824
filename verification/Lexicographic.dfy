/** Byte-wise comparison of text, as SQLite's BINARY collation and Rust's `str` order it. */
module Lexicographic {
  predicate Less(a: string, b: string) {
    if b == [] then false
    else if a == [] then true
    else if a[0] != b[0] then a[0] < b[0]
    else Less(a[1..], b[1..])
  }

  predicate AtMost(a: string, b: string) { a == b || Less(a, b) }

  predicate DifferAt(a: string, b: string, k: nat) { k < |a| && k < |b| && a[..k] == b[..k] && a[k] < b[k] }

  /** The order is the usual one: a proper prefix comes first, and else the first difference decides. */
  lemma {:induction false} LessByFirstDifference(a: string, b: string)
    ensures Less(a, b) <==> a < b || exists k: nat :: DifferAt(a, b, k)
  {
    if a != [] && b != [] {
      LessByFirstDifference(a[1..], b[1..]);
      if a[0] == b[0] {
        assert a == [a[0]] + a[1..] && b == [b[0]] + b[1..];
        assert a < b <==> a[1..] < b[1..];
        if k: nat :| DifferAt(a[1..], b[1..], k) {
          assert a[..k + 1] == [a[0]] + a[1..][..k] && b[..k + 1] == [b[0]] + b[1..][..k];
          assert DifferAt(a, b, k + 1);
        }
        if k: nat :| DifferAt(a, b, k) {
          assert a[1..][..k - 1] == a[..k][1..] && b[1..][..k - 1] == b[..k][1..];
          assert DifferAt(a[1..], b[1..], k - 1);
        }
      } else {
        assert !(a < b);
        assert DifferAt(a, b, 0) <==> a[0] < b[0];
        if k: nat :| DifferAt(a, b, k) {
          if k > 0 { assert a[..k][0] == b[..k][0]; }
        }
      }
    }
  }

  /** After parts of equal length, the comparison goes on with what follows. */
  lemma {:induction false} LessConcat(a: string, b: string, x: string, y: string)
    requires |a| == |b|
    ensures Less(a + x, b + y) <==> Less(a, b) || (a == b && Less(x, y))
  {
    if a == [] {
      assert a + x == x && b + y == y;
    } else {
      assert (a + x)[1..] == a[1..] + x && (b + y)[1..] == b[1..] + y;
      LessConcat(a[1..], b[1..], x, y);
      if a[0] == b[0] {
        assert a == b <==> a[1..] == b[1..] by { assert a == [a[0]] + a[1..] && b == [b[0]] + b[1..]; }
      }
    }
  }

  lemma {:induction false} LessIrreflexive(a: string)
    ensures !Less(a, a)
  {
    if a != [] { LessIrreflexive(a[1..]); }
  }

  lemma {:induction false} LessTotal(a: string, b: string)
    ensures Less(a, b) || a == b || Less(b, a)
  {
    if a != [] && b != [] && a[0] == b[0] {
      LessTotal(a[1..], b[1..]);
      assert a == [a[0]] + a[1..] && b == [b[0]] + b[1..];
    }
  }

  lemma {:induction false} LessTransitive(a: string, b: string, c: string)
    requires Less(a, b) && Less(b, c)
    ensures Less(a, c)
  {
    if a != [] && a[0] == b[0] && b[0] == c[0] { LessTransitive(a[1..], b[1..], c[1..]); }
  }

  // ---------------------------------------------------------------------------
  // Fixed-width numbers
  // ---------------------------------------------------------------------------

  function Pow10(w: nat): (p: nat)
    ensures p >= 1
  {
    if w == 0 then 1 else 10 * Pow10(w - 1)
  }

  function Digit(d: nat): char
    requires d < 10
  {
    '0' + d as char
  }

  /** The last `width` decimal digits of `n`, with leading zeros. */
  function Digits(n: nat, width: nat): (text: string)
    ensures |text| == width
  {
    if width == 0 then "" else Digits(n / 10, width - 1) + [Digit(n % 10)]
  }

  lemma {:induction false} DigitsOrder(n: nat, m: nat, width: nat)
    requires n < Pow10(width) && m < Pow10(width)
    ensures Less(Digits(n, width), Digits(m, width)) <==> n < m
    ensures Digits(n, width) == Digits(m, width) <==> n == m
  {
    if width > 0 {
      DigitsOrder(n / 10, m / 10, width - 1);
      var a, b := Digits(n / 10, width - 1), Digits(m / 10, width - 1);
      var x, y := [Digit(n % 10)], [Digit(m % 10)];
      LessConcat(a, b, x, y);
      assert (a + x)[..width - 1] == a && (b + y)[..width - 1] == b;
      assert (a + x)[width - 1] == Digit(n % 10) && (b + y)[width - 1] == Digit(m % 10);
      assert Less(x, y) <==> n % 10 < m % 10 by { assert x[1..] == y[1..] == []; }
    }
  }

  /** The number decimal text stands for. */
  function Number(text: string): int {
    if text == "" then 0 else Number(text[..|text| - 1]) * 10 + (text[|text| - 1] as int - '0' as int)
  }

  predicate IsDecimal(text: string) { forall i :: 0 <= i < |text| ==> '0' <= text[i] <= '9' }

  /** Reading the digits back gives the number. */
  lemma {:induction false} DigitsRead(n: nat, width: nat)
    requires n < Pow10(width)
    ensures Number(Digits(n, width)) == n && IsDecimal(Digits(n, width))
    decreases width
  {
    if width > 0 {
      DigitsRead(n / 10, width - 1);
      assert Digits(n, width)[..width - 1] == Digits(n / 10, width - 1);
    }
  }

  lemma ThreeDigits(n: nat)
    ensures Digits(n, 3) == [Digit(n / 100 % 10), Digit(n / 10 % 10), Digit(n % 10)]
  {
    assert n / 10 / 10 == n / 100;
    assert Digits(n / 100, 1) == Digits(n / 1000, 0) + [Digit(n / 100 % 10)];
    assert Digits(n / 10, 2) == Digits(n / 100, 1) + [Digit(n / 10 % 10)];
  }

  lemma LowThreeDigits(n: nat)
    ensures n % 1000 / 100 % 10 == n / 100 % 10 && n % 1000 / 10 % 10 == n / 10 % 10 && n % 1000 % 10 == n % 10
  {
    var q, r := n / 1000, n % 1000;
    assert n == 1000 * q + r;
    assert n / 100 == 10 * q + r / 100;
    assert n / 10 == 100 * q + r / 10;
    LastDigit(q, r / 100);
    LastDigit(10 * q, r / 10);
    LastDigit(100 * q, r);
  }

  lemma LastDigit(q: nat, r: nat)
    ensures (10 * q + r) % 10 == r % 10
  {
  }

  /** Six digits are three digits twice. */
  lemma SixDigits(n: nat)
    ensures Digits(n, 6) == Digits(n / 1000, 3) + Digits(n % 1000, 3)
  {
    ThreeDigits(n % 1000);
    LowThreeDigits(n);
    assert n / 10 / 10 == n / 100 && n / 100 / 10 == n / 1000;
    assert Digits(n / 10, 5) == Digits(n / 100, 4) + [Digit(n / 10 % 10)];
  }
}
