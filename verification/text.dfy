/** String primitives of the JavaScript runtime that the service relies on:
    `Array.prototype.join`, `String.prototype.split` with a one-character
    separator, `String.prototype.trim`, decimal rendering of integers,
    `padStart` with zeros, and code-unit-wise string comparison. */
module Text {

  // ---------------------------------------------------------------------------
  // join / split
  // ---------------------------------------------------------------------------

  /** `xs.join(sep)`: the empty list joins to "", one element to itself. */
  function Join(xs: seq<string>, sep: char): string
    decreases |xs|
  {
    if |xs| == 0 then ""
    else if |xs| == 1 then xs[0]
    else xs[0] + [sep] + Join(xs[1..], sep)
  }

  /** `s.split(sep)` for a one-character separator: always at least one
      piece, and no piece contains the separator. */
  function Split(s: string, sep: char): (r: seq<string>)
    ensures |r| >= 1
    ensures forall i | 0 <= i < |r| :: sep !in r[i]
    decreases |s|
  {
    if |s| == 0 then [""]
    else if s[0] == sep then [""] + Split(s[1..], sep)
    else
      var t := Split(s[1..], sep);
      [[s[0]] + t[0]] + t[1..]
  }

  /** Number of occurrences of `c` in `s`. */
  function Occurrences(s: string, c: char): nat
    decreases |s|
  {
    if |s| == 0 then 0 else (if s[0] == c then 1 else 0) + Occurrences(s[1..], c)
  }

  /** Splitting yields one more piece than there are separators. */
  lemma {:induction false} SplitCount(s: string, sep: char)
    ensures |Split(s, sep)| == 1 + Occurrences(s, sep)
    decreases |s|
  {
    if |s| > 0 {
      SplitCount(s[1..], sep);
    }
  }

  /** Joining the pieces of a split restores the original string. */
  lemma {:induction false} JoinSplit(s: string, sep: char)
    ensures Join(Split(s, sep), sep) == s
    decreases |s|
  {
    if |s| == 0 {
    } else if s[0] == sep {
      JoinSplit(s[1..], sep);
      assert s == [sep] + s[1..];
    } else {
      var t := Split(s[1..], sep);
      JoinSplit(s[1..], sep);
      var r := [[s[0]] + t[0]] + t[1..];
      assert Split(s, sep) == r;
      JoinConsHead(s[0], t, sep);
      assert s == [s[0]] + s[1..];
    }
  }

  /** Prefixing the first piece prefixes the joined string. */
  lemma JoinConsHead(c: char, t: seq<string>, sep: char)
    requires |t| >= 1
    ensures Join([[c] + t[0]] + t[1..], sep) == [c] + Join(t, sep)
  {
    var r := [[c] + t[0]] + t[1..];
    assert r[0] == [c] + t[0] && r[1..] == t[1..];
    if |t| > 1 {
      assert Join(r, sep) == r[0] + [sep] + Join(r[1..], sep);
      assert Join(t, sep) == t[0] + [sep] + Join(t[1..], sep);
    }
  }

  /** A prefix free of the separator, followed by the separator, is split off
      as the first piece. */
  lemma {:induction false} SplitAfterPiece(a: string, b: string, sep: char)
    requires sep !in a
    ensures Split(a + [sep] + b, sep) == [a] + Split(b, sep)
    decreases |a|
  {
    if |a| == 0 {
      assert a + [sep] + b == [sep] + b;
      assert (a + [sep] + b)[1..] == b;
    } else {
      var s := a + [sep] + b;
      assert s[0] == a[0] && s[1..] == a[1..] + [sep] + b;
      SplitAfterPiece(a[1..], b, sep);
      assert [a[0]] + a[1..] == a;
    }
  }

  /** A string free of the separator splits into itself. */
  lemma {:induction false} SplitWithoutSeparator(a: string, sep: char)
    requires sep !in a
    ensures Split(a, sep) == [a]
    decreases |a|
  {
    if |a| > 0 {
      SplitWithoutSeparator(a[1..], sep);
      assert [a[0]] + a[1..] == a;
    }
  }

  /** Splitting a join of separator-free pieces gives the pieces back. */
  lemma {:induction false} SplitJoin(xs: seq<string>, sep: char)
    requires |xs| >= 1
    requires forall i | 0 <= i < |xs| :: sep !in xs[i]
    ensures Split(Join(xs, sep), sep) == xs
    decreases |xs|
  {
    if |xs| == 1 {
      SplitWithoutSeparator(xs[0], sep);
    } else {
      SplitJoin(xs[1..], sep);
      SplitAfterPiece(xs[0], Join(xs[1..], sep), sep);
      assert [xs[0]] + xs[1..] == xs;
    }
  }

  /** Appending a piece appends the separator and the piece. */
  lemma {:induction false} JoinSnoc(xs: seq<string>, last: string, sep: char)
    requires |xs| >= 1
    ensures Join(xs + [last], sep) == Join(xs, sep) + [sep] + last
    decreases |xs|
  {
    var ys := xs + [last];
    assert ys[0] == xs[0];
    if |xs| == 1 {
      assert ys[1..] == [last];
      assert Join(ys[1..], sep) == last;
    } else {
      assert ys[1..] == xs[1..] + [last];
      JoinSnoc(xs[1..], last, sep);
      calc {
        Join(ys, sep);
        xs[0] + [sep] + Join(xs[1..] + [last], sep);
        xs[0] + [sep] + (Join(xs[1..], sep) + [sep] + last);
        (xs[0] + [sep] + Join(xs[1..], sep)) + [sep] + last;
      }
    }
  }

  /** A join contains no character that is neither the separator nor in a piece. */
  lemma {:induction false} JoinAvoids(xs: seq<string>, sep: char, c: char)
    requires c != sep
    requires forall i | 0 <= i < |xs| :: c !in xs[i]
    ensures c !in Join(xs, sep)
    decreases |xs|
  {
    if |xs| > 1 {
      JoinAvoids(xs[1..], sep, c);
    }
  }

  /** A join whose first piece is non-empty starts with that piece's first character. */
  lemma JoinHead(xs: seq<string>, sep: char)
    requires |xs| >= 1 && |xs[0]| >= 1
    ensures |Join(xs, sep)| >= 1 && Join(xs, sep)[0] == xs[0][0]
  {
  }

  lemma {:induction false} JoinLast(xs: seq<string>, sep: char)
    requires |xs| >= 1 && |xs[|xs| - 1]| >= 1
    ensures var j := Join(xs, sep);
      |j| >= 1 && j[|j| - 1] == xs[|xs| - 1][|xs[|xs| - 1]| - 1]
    decreases |xs|
  {
    if |xs| > 1 {
      JoinLast(xs[1..], sep);
    }
  }

  // ---------------------------------------------------------------------------
  // trim (WhiteSpace and LineTerminator code points of ECMA-262, sections 12.2
  // and 12.3; the Space_Separator category as of Unicode 15)
  // ---------------------------------------------------------------------------

  predicate IsTrimmable(c: char) {
    || c == '\t' || c == '\U{000B}' || c == '\U{000C}' || c == ' '
    || c == '\U{00A0}' || c == '\U{FEFF}' || c == '\U{1680}'
    || ('\U{2000}' <= c <= '\U{200A}')
    || c == '\U{202F}' || c == '\U{205F}' || c == '\U{3000}'
    || c == '\n' || c == '\r' || c == '\U{2028}' || c == '\U{2029}'
  }

  /** Every character of `s` is white space or a line terminator. */
  predicate Blank(s: string) {
    forall i | 0 <= i < |s| :: IsTrimmable(s[i])
  }

  function TrimStart(s: string): (r: string)
    decreases |s|
  {
    if |s| > 0 && IsTrimmable(s[0]) then TrimStart(s[1..]) else s
  }

  function TrimEnd(s: string): (r: string)
    decreases |s|
  {
    if |s| > 0 && IsTrimmable(s[|s| - 1]) then TrimEnd(s[..|s| - 1]) else s
  }

  /** `s.trim()` */
  function Trim(s: string): string {
    TrimEnd(TrimStart(s))
  }

  /** Trimming leaves nothing exactly when the string is blank; this is the
      test `l.trim() !== ""` the decoder uses to drop lines. */
  lemma TrimEmptyIffBlank(s: string)
    ensures Trim(s) == "" <==> Blank(s)
  {
    if Blank(s) {
      BlankTrimsAway(s);
    } else {
      TrimStartStops(s);
      TrimEndKeepsHead(TrimStart(s));
    }
  }

  lemma {:induction false} BlankTrimsAway(s: string)
    requires Blank(s)
    ensures TrimStart(s) == ""
    decreases |s|
  {
    if |s| > 0 {
      assert forall i | 0 <= i < |s[1..]| :: s[1..][i] == s[i + 1];
      BlankTrimsAway(s[1..]);
    }
  }

  /** Trimming the start of a string that is not blank stops at a character
      it keeps. */
  lemma {:induction false} TrimStartStops(s: string)
    requires !Blank(s)
    ensures |TrimStart(s)| > 0 && !IsTrimmable(TrimStart(s)[0])
    decreases |s|
  {
    if IsTrimmable(s[0]) {
      var i :| 0 <= i < |s| && !IsTrimmable(s[i]);
      assert s[1..][i - 1] == s[i];
      TrimStartStops(s[1..]);
    }
  }

  lemma {:induction false} TrimEndKeepsHead(t: string)
    requires |t| > 0 && !IsTrimmable(t[0])
    ensures |TrimEnd(t)| > 0
    decreases |t|
  {
    if IsTrimmable(t[|t| - 1]) {
      var p := t[..|t| - 1];
      assert p[0] == t[0];
      TrimEndKeepsHead(p);
    }
  }

  /** A string that starts and ends with something other than white space
      is its own trim. */
  lemma TrimKeeps(s: string)
    requires |s| >= 1 && !IsTrimmable(s[0]) && !IsTrimmable(s[|s| - 1])
    ensures Trim(s) == s
  {
  }

  // ---------------------------------------------------------------------------
  // decimal numerals
  // ---------------------------------------------------------------------------

  function Digit(d: nat): (c: char)
    requires d < 10
    ensures '0' <= c <= '9'
  {
    "0123456789"[d]
  }

  predicate IsDigit(c: char) {
    '0' <= c <= '9'
  }

  function DigitValue(c: char): nat
    requires IsDigit(c)
  {
    (c as int) - ('0' as int)
  }

  /** The digits of `n` in order, with no leading zeroes (`String(n)`). */
  function NatToDecimal(n: nat): (r: string)
    decreases n
  {
    if n < 10 then [Digit(n)] else NatToDecimal(n / 10) + [Digit(n % 10)]
  }

  /** `String(i)` for an integer-valued Number. */
  function IntToDecimal(i: int): string {
    if i < 0 then "-" + NatToDecimal(-i) else NatToDecimal(i)
  }

  /** Reads a string of digits as a natural number. */
  function DecimalValue(s: string): nat
    requires forall i | 0 <= i < |s| :: IsDigit(s[i])
    decreases |s|
  {
    if |s| == 0 then 0 else DecimalValue(s[..|s| - 1]) * 10 + DigitValue(s[|s| - 1])
  }

  /** The rendering of a natural number is a non-empty digit string without a
      leading zero that reads back as the same number. */
  lemma {:induction false} NatToDecimalReadsBack(n: nat)
    ensures |NatToDecimal(n)| >= 1
    ensures forall i | 0 <= i < |NatToDecimal(n)| :: IsDigit(NatToDecimal(n)[i])
    ensures |NatToDecimal(n)| > 1 ==> NatToDecimal(n)[0] != '0'
    ensures DecimalValue(NatToDecimal(n)) == n
    decreases n
  {
    var s := NatToDecimal(n);
    if n >= 10 {
      NatToDecimalReadsBack(n / 10);
      var p := NatToDecimal(n / 10);
      assert s[..|s| - 1] == p;
      assert DigitValue(Digit(n % 10)) == n % 10 by {
        assert "0123456789"[n % 10] as int == '0' as int + n % 10;
      }
      if |p| == 1 {
        assert n / 10 != 0;
        assert p[0] != '0' by {
          assert DecimalValue(p) == DigitValue(p[0]) by { assert p[..0] == []; }
        }
      }
      assert s[0] == p[0];
    } else {
      assert DigitValue(Digit(n)) == n by {
        assert "0123456789"[n] as int == '0' as int + n;
      }
      assert s[..0] == [];
    }
  }

  /** Powers of ten. */
  function Pow10(k: nat): (r: nat)
    ensures r >= 1
  {
    if k == 0 then 1 else 10 * Pow10(k - 1)
  }

  /** Exactly `w` digits of `n` (most significant first), zero-filled. */
  function FixedDigits(n: nat, w: nat): (r: string)
    ensures |r| == w
    decreases w
  {
    if w == 0 then "" else FixedDigits(n / 10, w - 1) + [Digit(n % 10)]
  }

  /** `s.padStart(w, "0")`: never truncates. */
  function PadStart(s: string, w: nat): string {
    if |s| >= w then s else seq(w - |s|, _ => '0') + s
  }

  /** The rendering of a number below 10^w has at most w digits. */
  lemma {:induction false} NatToDecimalLength(n: nat, w: nat)
    requires 1 <= w && n < Pow10(w)
    ensures |NatToDecimal(n)| <= w
    decreases w
  {
    if n >= 10 {
      assert w >= 2;
      NatToDecimalLength(n / 10, w - 1);
    }
  }

  lemma {:induction false} FixedDigitsOfZero(w: nat)
    ensures FixedDigits(0, w) == seq(w, _ => '0')
    decreases w
  {
    if w > 0 {
      FixedDigitsOfZero(w - 1);
    }
  }

  /** Zero-padding a number below 10^w to width w yields its w fixed digits. */
  lemma {:induction false} PadStartIsFixedDigits(n: nat, w: nat)
    requires 1 <= w && n < Pow10(w)
    ensures PadStart(NatToDecimal(n), w) == FixedDigits(n, w)
    decreases w
  {
    NatToDecimalLength(n, w);
    if n < 10 {
      FixedDigitsOfZero(w - 1);
      assert n / 10 == 0;
    } else {
      assert w >= 2;
      PadStartIsFixedDigits(n / 10, w - 1);
      NatToDecimalLength(n / 10, w - 1);
      var p := NatToDecimal(n / 10);
      var z := seq(w - 1 - |p|, _ => '0');
      assert seq(w - |p + [Digit(n % 10)]|, _ => '0') == z;
    }
  }

  // ---------------------------------------------------------------------------
  // ordering of strings by code unit
  // ---------------------------------------------------------------------------

  /** `a < b` on JavaScript strings of code points below U+10000. */
  predicate LexLess(a: string, b: string)
    decreases |a|
  {
    if |a| == 0 then |b| > 0
    else |b| > 0 && (a[0] < b[0] || (a[0] == b[0] && LexLess(a[1..], b[1..])))
  }

  /** Comparing two concatenations of equally long prefixes: the prefixes
      decide unless they are equal. */
  lemma {:induction false} LexLessAppend(a: string, c: string, b: string, d: string)
    requires |a| == |b|
    ensures LexLess(a + c, b + d) <==> LexLess(a, b) || (a == b && LexLess(c, d))
    decreases |a|
  {
    if |a| == 0 {
      assert a + c == c && b + d == d;
    } else {
      assert (a + c)[1..] == a[1..] + c && (b + d)[1..] == b[1..] + d;
      LexLessAppend(a[1..], c, b[1..], d);
      if a[0] == b[0] && a[1..] == b[1..] {
        assert a == [a[0]] + a[1..] && b == [b[0]] + b[1..];
      }
    }
  }

  lemma {:induction false} LexLessIrreflexive(a: string)
    ensures !LexLess(a, a)
    decreases |a|
  {
    if |a| > 0 {
      LexLessIrreflexive(a[1..]);
    }
  }

  /** Fixed-width digit strings of the same width are ordered as their numbers. */
  lemma {:induction false} FixedDigitsOrder(n: nat, m: nat, w: nat)
    requires n < Pow10(w) && m < Pow10(w)
    ensures LexLess(FixedDigits(n, w), FixedDigits(m, w)) <==> n < m
    ensures FixedDigits(n, w) == FixedDigits(m, w) <==> n == m
    decreases w
  {
    if w == 0 {
    } else {
      FixedDigitsOrder(n / 10, m / 10, w - 1);
      var a, b := FixedDigits(n / 10, w - 1), FixedDigits(m / 10, w - 1);
      var x, y := [Digit(n % 10)], [Digit(m % 10)];
      LexLessAppend(a, x, b, y);
      assert LexLess(x, y) <==> n % 10 < m % 10 by {
        assert x[1..] == [] && y[1..] == [];
        DigitOrder(n % 10, m % 10);
      }
      DigitOrder(n % 10, m % 10);
      if a + x == b + y {
        assert a == (a + x)[..w - 1] && b == (b + y)[..w - 1];
        assert x[0] == (a + x)[w - 1] && y[0] == (b + y)[w - 1];
      }
    }
  }

  lemma DigitOrder(d: nat, e: nat)
    requires d < 10 && e < 10
    ensures Digit(d) < Digit(e) <==> d < e
    ensures Digit(d) == Digit(e) <==> d == e
  {
    assert Digit(d) as int == '0' as int + d;
    assert Digit(e) as int == '0' as int + e;
  }
}
