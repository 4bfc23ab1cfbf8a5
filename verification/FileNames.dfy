/** Names of queue files: Go's string order, decimal timestamps and `filepath.Ext`. */
module FileNames {

  /** Go's `<` on strings, character by character. */
  predicate Less(a: string, b: string)
  {
    if b == [] then false
    else if a == [] then true
    else if a[0] != b[0] then a[0] < b[0]
    else Less(a[1..], b[1..])
  }

  function Digit(d: nat): char
    requires d < 10
  {
    ('0' as int + d) as char
  }

  /** The decimal numeral `%d` prints for a timestamp. */
  function Dec(n: nat): (s: string)
    ensures |s| >= 1
    ensures |s| == 1 <==> n < 10
  {
    if n < 10 then [Digit(n)] else Dec(n / 10) + [Digit(n % 10)]
  }

  const GPI := ".gpi"

  function FileName(t: nat): string
  {
    Dec(t) + GPI
  }

  /** The suffix of `name` from its last dot, or "" when the last path element has none. */
  function Ext(name: string): string
  {
    ExtFrom(name, |name|)
  }

  function ExtFrom(name: string, i: nat): string
    requires i <= |name|
  {
    if i == 0 || name[i - 1] == '/' then ""
    else if name[i - 1] == '.' then name[i - 1..]
    else ExtFrom(name, i - 1)
  }

  predicate IsGpi(name: string)
  {
    Ext(name) == GPI
  }

  /** `n` without its last `k` decimal digits. */
  function DropDigits(n: nat, k: nat): nat
  {
    if k == 0 then n else DropDigits(n / 10, k - 1)
  }

  // ----- the order on strings

  lemma {:induction false} LessTransitive(a: string, b: string, c: string)
    requires Less(a, b) && Less(b, c)
    ensures Less(a, c)
  {
    if a != [] && a[0] == b[0] == c[0] {
      LessTransitive(a[1..], b[1..], c[1..]);
    }
  }

  lemma {:induction false} LessAsymmetric(a: string, b: string)
    ensures Less(a, b) ==> !Less(b, a) && a != b
  {
    if a != [] && b != [] {
      LessAsymmetric(a[1..], b[1..]);
    }
  }

  lemma {:induction false} LessTotal(a: string, b: string)
    ensures Less(a, b) || a == b || Less(b, a)
  {
    if a != [] && b != [] && a[0] == b[0] {
      LessTotal(a[1..], b[1..]);
      assert a == [a[0]] + a[1..] && b == [b[0]] + b[1..];
    }
  }

  /** Heads of equal length decide first, tails only when the heads agree. */
  lemma {:induction false} LessAppend(x: string, y: string, u: string, v: string)
    requires |x| == |y|
    ensures Less(x + u, y + v) <==> Less(x, y) || (x == y && Less(u, v))
  {
    if x == [] {
      assert x + u == u && y + v == v;
    } else {
      assert (x + u)[1..] == x[1..] + u && (y + v)[1..] == y[1..] + v;
      assert x == [x[0]] + x[1..] && y == [y[0]] + y[1..];
      LessAppend(x[1..], y[1..], u, v);
    }
  }

  // ----- decimal numerals

  lemma {:induction false} DecDigits(n: nat)
    ensures forall i :: 0 <= i < |Dec(n)| ==> '0' <= Dec(n)[i] <= '9'
  {
    if n >= 10 {
      DecDigits(n / 10);
    }
  }

  /** Numerals of equal length are ordered as strings exactly as the numbers are. */
  lemma {:induction false} DecOrder(a: nat, b: nat)
    requires |Dec(a)| == |Dec(b)|
    ensures Less(Dec(a), Dec(b)) <==> a < b
    ensures Dec(a) == Dec(b) <==> a == b
  {
    if a < 10 {
      assert Dec(a)[1..] == [] && Dec(b)[1..] == [];
    } else {
      var x, y := Dec(a / 10), Dec(b / 10);
      var u, v := [Digit(a % 10)], [Digit(b % 10)];
      DecOrder(a / 10, b / 10);
      LessAppend(x, y, u, v);
      assert u[1..] == v[1..] == [];
      assert Dec(a) == Dec(b) ==> x == y && u == v by {
        assert Dec(a)[..|x|] == x && Dec(b)[..|y|] == y;
        assert Dec(a)[|x|..] == u && Dec(b)[|y|..] == v;
      }
    }
  }

  lemma {:induction false} DecPrefix(n: nat, k: nat)
    requires k < |Dec(n)|
    ensures Dec(n)[..|Dec(n)| - k] == Dec(DropDigits(n, k))
  {
    if k > 0 {
      DecPrefix(n / 10, k - 1);
      assert Dec(n)[..|Dec(n)| - k] == Dec(n / 10)[..|Dec(n / 10)| - (k - 1)];
    }
  }

  lemma {:induction false} DecLengthMonotone(a: nat, b: nat)
    requires a <= b
    ensures |Dec(a)| <= |Dec(b)|
  {
    if a >= 10 {
      DecLengthMonotone(a / 10, b / 10);
    }
  }

  // ----- file names

  /** The order in which two timestamps' file names are listed, in terms of the numbers. */
  predicate ListedBefore(a: nat, b: nat)
  {
    var da, db := |Dec(a)|, |Dec(b)|;
    if da < db then a <= DropDigits(b, db - da)
    else if da == db then a < b
    else DropDigits(a, da - db) < b
  }

  /** The dot of the extension sorts below every digit. */
  lemma DotBelowDigit(tail: string)
    requires tail != [] && '0' <= tail[0]
    ensures Less(GPI, tail) && !Less(tail, GPI)
  {
  }

  /** A shorter numeral against a longer one. */
  lemma ShorterNumeral(a: nat, b: nat)
    requires |Dec(a)| < |Dec(b)|
    ensures Less(FileName(a), FileName(b)) <==> a <= DropDigits(b, |Dec(b)| - |Dec(a)|)
  {
    hide Less;
    var da, db := |Dec(a)|, |Dec(b)|;
    DecDigits(b);
    DecPrefix(b, db - da);
    var head, tail := Dec(b)[..da], Dec(b)[da..] + GPI;
    DotBelowDigit(tail);
    assert FileName(b) == head + tail;
    LessAppend(Dec(a), head, GPI, tail);
    DecOrder(a, DropDigits(b, db - da));
  }

  lemma LongerNumeral(a: nat, b: nat)
    requires |Dec(a)| > |Dec(b)|
    ensures Less(FileName(a), FileName(b)) <==> DropDigits(a, |Dec(a)| - |Dec(b)|) < b
  {
    hide Less;
    var da, db := |Dec(a)|, |Dec(b)|;
    DecDigits(a);
    DecPrefix(a, da - db);
    var head, tail := Dec(a)[..db], Dec(a)[db..] + GPI;
    DotBelowDigit(tail);
    assert FileName(a) == head + tail;
    LessAppend(head, Dec(b), tail, GPI);
    DecOrder(DropDigits(a, da - db), b);
  }

  /** The order of file names for every pair of timestamps. */
  lemma FileNameOrder(a: nat, b: nat)
    ensures Less(FileName(a), FileName(b)) <==> ListedBefore(a, b)
  {
    var da, db := |Dec(a)|, |Dec(b)|;
    if da < db {
      ShorterNumeral(a, b);
    } else if da == db {
      LessAppend(Dec(a), Dec(b), GPI, GPI);
      LessAsymmetric(GPI, GPI);
      DecOrder(a, b);
    } else {
      LongerNumeral(a, b);
    }
  }

  /** For an earlier time `a` and a later time `b`: the names are listed in time order
      exactly when the numerals have equal length or `a` is at most the leading digits of `b`. */
  lemma NamesFollowTime(a: nat, b: nat)
    requires a < b
    ensures |Dec(a)| <= |Dec(b)|
    ensures Less(FileName(a), FileName(b)) <==>
            |Dec(a)| == |Dec(b)| || a <= DropDigits(b, |Dec(b)| - |Dec(a)|)
  {
    DecLengthMonotone(a, b);
    FileNameOrder(a, b);
  }

  /** A number whose `k`-th digit from the right is its first has `k + 1` digits. */
  lemma {:induction false} DecLength(n: nat, k: nat)
    requires 1 <= DropDigits(n, k) < 10
    ensures |Dec(n)| == k + 1
  {
    if k > 0 {
      DecLength(n / 10, k - 1);
    }
  }

  lemma {:induction false} DropDigitsTwice(n: nat, a: nat, b: nat)
    ensures DropDigits(n, a + b) == DropDigits(DropDigits(n, a), b)
  {
    if a > 0 {
      DropDigitsTwice(n / 10, a - 1, b);
    }
  }

  const BEFORE_CLOCK_SET: nat := 30_000_000_000
  const AFTER_CLOCK_SET: nat := 1_700_000_000_000_000_000

  /** A device without a battery-backed clock writes a file half a minute after 1970, has its
      clock set, and writes another, which is then listed first. */
  lemma LaterFileListedFirst()
    ensures BEFORE_CLOCK_SET < AFTER_CLOCK_SET
    ensures Less(FileName(AFTER_CLOCK_SET), FileName(BEFORE_CLOCK_SET))
  {
    assert DropDigits(BEFORE_CLOCK_SET, 10) == 3;
    assert DropDigits(AFTER_CLOCK_SET, 8) == 17_000_000_000;
    assert DropDigits(17_000_000_000, 5) == 170_000;
    assert DropDigits(170_000, 5) == DropDigits(17_000, 4) == DropDigits(1_700, 3);
    assert DropDigits(1_700, 3) == DropDigits(170, 2) == DropDigits(17, 1) == DropDigits(1, 0);
    DropDigitsTwice(17_000_000_000, 5, 5);
    DropDigitsTwice(AFTER_CLOCK_SET, 8, 10);
    DecLength(BEFORE_CLOCK_SET, 10);
    DecLength(AFTER_CLOCK_SET, 18);
    FileNameOrder(AFTER_CLOCK_SET, BEFORE_CLOCK_SET);
  }

  lemma FileNameInjective(a: nat, b: nat)
    ensures FileName(a) == FileName(b) <==> a == b
  {
    if FileName(a) == FileName(b) {
      assert FileName(a)[..|FileName(a)| - 4] == Dec(a);
      assert FileName(b)[..|FileName(b)| - 4] == Dec(b);
      DecOrder(a, b);
    }
  }

  /** The extension test of `listFiles` accepts exactly the names ending in ".gpi". */
  lemma IsGpiSuffix(name: string)
    ensures IsGpi(name) <==> |name| >= 4 && name[|name| - 4..] == ".gpi"
  {
    var n := |name|;
    if n >= 4 && name[n - 4..] == GPI {
      var e := name[n - 4..];
      assert e[0] == name[n - 4] && e[1] == name[n - 3] && e[2] == name[n - 2] && e[3] == name[n - 1];
      assert ExtFrom(name, n) == ExtFrom(name, n - 1) == ExtFrom(name, n - 2) == ExtFrom(name, n - 3);
    }
    ExtFromIsSuffix(name, n);
  }

  lemma {:induction false} ExtFromIsSuffix(name: string, i: nat)
    requires i <= |name|
    ensures |ExtFrom(name, i)| <= |name|
    ensures ExtFrom(name, i) == name[|name| - |ExtFrom(name, i)|..]
  {
    if i > 0 && name[i - 1] != '/' && name[i - 1] != '.' {
      ExtFromIsSuffix(name, i - 1);
    }
  }

  lemma FileNameIsGpi(t: nat)
    ensures IsGpi(FileName(t))
  {
    IsGpiSuffix(FileName(t));
  }
}
