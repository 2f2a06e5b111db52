/** Names the backup job derives from the time it runs (backup.js, lines 21,
    23 and 69): the timestamp `YYYY-MM-DD_HH-mm-ss` of the Asia/Karachi
    civil time, the scratch folder `backup_<timestamp>` and the archive
    `backup_<timestamp>.zip`. Because every field is zero-padded to a fixed
    width, ordering archive names as strings orders them by time, which is
    what listing the bucket by name, descending, relies on. */
module Naming {
  import opened Text

  /** Civil date and time fields, as dayjs holds them after the time-zone
      conversion (month counted from 1). */
  datatype Timestamp = Timestamp(year: nat, month: nat, day: nat, hour: nat, minute: nat, second: nat)

  /** A time whose fields are in range and whose year has at most four digits. */
  predicate Valid(t: Timestamp) {
    && t.year < 10000
    && 1 <= t.month <= 12
    && 1 <= t.day <= 31
    && t.hour < 24 && t.minute < 60 && t.second < 60
  }

  /** dayjs renders a field as its decimal numeral left-padded with zeros. */
  function Pad(n: nat, w: nat): string {
    PadStart(NatToDecimal(n), w)
  }

  /** `format("YYYY-MM-DD_HH-mm-ss")` */
  function Stamp(t: Timestamp): string {
    Pad(t.year, 4) + "-" + Pad(t.month, 2) + "-" + Pad(t.day, 2) + "_"
      + Pad(t.hour, 2) + "-" + Pad(t.minute, 2) + "-" + Pad(t.second, 2)
  }

  /** `backup_${timestamp}`: the scratch folder. */
  function FolderName(t: Timestamp): string {
    "backup_" + Stamp(t)
  }

  /** `backup_${timestamp}.zip`: the archive file and its object name in the bucket. */
  function ArchiveName(t: Timestamp): string {
    FolderName(t) + ".zip"
  }

  // ---------------------------------------------------------------------------
  // an independent clock: seconds in a mixed radix
  // ---------------------------------------------------------------------------

  /** The fields, most significant first, and a radix above each field's range. */
  function Fields(t: Timestamp): seq<nat> {
    [t.year, t.month, t.day, t.hour, t.minute, t.second]
  }

  const Radices: seq<nat> := [10000, 13, 32, 24, 60, 60]

  /** The product of the radices. */
  function Span(rs: seq<nat>): nat
    decreases |rs|
  {
    if |rs| == 0 then 1 else rs[0] * Span(rs[1..])
  }

  /** The number the digits `vs` denote in the radices `rs`. */
  function Value(vs: seq<nat>, rs: seq<nat>): nat
    requires |vs| == |rs|
    decreases |vs|
  {
    if |vs| == 0 then 0 else vs[0] * Span(rs[1..]) + Value(vs[1..], rs[1..])
  }

  /** A point on a time line in which every later civil time (for valid
      fields) has a larger number. */
  function Instant(t: Timestamp): nat {
    Value(Fields(t), Radices)
  }

  // ---------------------------------------------------------------------------
  // the rendering as fixed-width digit groups
  // ---------------------------------------------------------------------------

  lemma PadsAreFixed(t: Timestamp)
    requires Valid(t)
    ensures Pad(t.year, 4) == FixedDigits(t.year, 4)
    ensures Pad(t.month, 2) == FixedDigits(t.month, 2)
    ensures Pad(t.day, 2) == FixedDigits(t.day, 2)
    ensures Pad(t.hour, 2) == FixedDigits(t.hour, 2)
    ensures Pad(t.minute, 2) == FixedDigits(t.minute, 2)
    ensures Pad(t.second, 2) == FixedDigits(t.second, 2)
  {
    assert Pow10(2) == 100;
    assert Pow10(4) == 10000 by { assert Pow10(3) == 1000; }
    PadStartIsFixedDigits(t.year, 4);
    PadStartIsFixedDigits(t.month, 2);
    PadStartIsFixedDigits(t.day, 2);
    PadStartIsFixedDigits(t.hour, 2);
    PadStartIsFixedDigits(t.minute, 2);
    PadStartIsFixedDigits(t.second, 2);
  }

  /** Each digit group is below the product of the radices after it. */
  lemma {:induction false} ValueBound(vs: seq<nat>, rs: seq<nat>)
    requires |vs| == |rs|
    requires forall i | 0 <= i < |vs| :: vs[i] < rs[i]
    ensures Value(vs, rs) < Span(rs)
    decreases |vs|
  {
    if |vs| > 0 {
      var p := Span(rs[1..]);
      ValueBound(vs[1..], rs[1..]);
      assert vs[0] * p + p <= rs[0] * p by {
        assert vs[0] + 1 <= rs[0];
        MulMonotone(vs[0] + 1, rs[0], p);
      }
    }
  }

  lemma MulMonotone(a: nat, b: nat, p: nat)
    requires a <= b
    ensures a * p <= b * p
  {
  }

  /** In a positional system, the leading digit decides unless it is equal. */
  lemma DigitDominates(a: nat, b: nat, x: nat, y: nat, p: nat)
    requires x < p && y < p
    ensures a * p + x < b * p + y <==> a < b || (a == b && x < y)
    ensures a * p + x == b * p + y <==> a == b && x == y
  {
    if a < b {
      MulMonotone(a + 1, b, p);
      assert (a + 1) * p == a * p + p;
    } else if b < a {
      MulMonotone(b + 1, a, p);
      assert (b + 1) * p == b * p + p;
    }
  }

  /** The leading digit decides the order of two values unless it is equal,
      when the rest decides. */
  lemma ValueStep(vs: seq<nat>, us: seq<nat>, rs: seq<nat>)
    requires |vs| == |us| == |rs| >= 1
    requires forall i | 0 <= i < |vs| :: vs[i] < rs[i] && us[i] < rs[i]
    ensures var x, y := Value(vs[1..], rs[1..]), Value(us[1..], rs[1..]);
      && (Value(vs, rs) < Value(us, rs) <==> vs[0] < us[0] || (vs[0] == us[0] && x < y))
      && (Value(vs, rs) == Value(us, rs) <==> vs[0] == us[0] && x == y)
  {
    ValueBound(vs[1..], rs[1..]);
    ValueBound(us[1..], rs[1..]);
    DigitDominates(vs[0], us[0], Value(vs[1..], rs[1..]), Value(us[1..], rs[1..]), Span(rs[1..]));
  }

  /** Two strings made of equally long parts around the same separator
      compare by their first parts, then by their last parts. */
  lemma JoinedOrder(a: string, b: string, sep: char, c: string, d: string)
    requires |a| == |b|
    ensures LexLess(a + [sep] + c, b + [sep] + d) <==> LexLess(a, b) || (a == b && LexLess(c, d))
  {
    var s := [sep];
    LexLessAppend(a, s + c, b, s + d);
    LexLessAppend(s, c, s, d);
    LexLessIrreflexive(s);
    assert a + s + c == a + (s + c);
    assert b + s + d == b + (s + d);
  }

  lemma JoinedEqual(a: string, b: string, sep: char, c: string, d: string)
    requires |a| == |b|
    ensures a + [sep] + c == b + [sep] + d <==> a == b && c == d
  {
    var x, y := a + [sep] + c, b + [sep] + d;
    if x == y {
      assert a == x[..|a|];
      assert b == y[..|b|];
      assert c == x[|a| + 1..];
      assert d == y[|b| + 1..];
    }
  }

  /** Appending a separator and one more group of `w` digits to equally
      long strings: the strings decide unless equal, then the digits do. */
  lemma GroupStep(x1: string, x2: string, sep: char, n1: nat, n2: nat, w: nat)
    requires |x1| == |x2| && n1 < Pow10(w) && n2 < Pow10(w)
    ensures var y1, y2 := x1 + [sep] + FixedDigits(n1, w), x2 + [sep] + FixedDigits(n2, w);
      && |y1| == |y2|
      && (LexLess(y1, y2) <==> LexLess(x1, x2) || (x1 == x2 && n1 < n2))
      && (y1 == y2 <==> x1 == x2 && n1 == n2)
  {
    FixedDigitsOrder(n1, n2, w);
    JoinedOrder(x1, x2, sep, FixedDigits(n1, w), FixedDigits(n2, w));
    JoinedEqual(x1, x2, sep, FixedDigits(n1, w), FixedDigits(n2, w));
  }

  /** For valid times, the timestamps compare as strings the way the times
      compare chronologically, and only equal times share a timestamp. */
  lemma StampOrder(t1: Timestamp, t2: Timestamp)
    requires Valid(t1) && Valid(t2)
    ensures LexLess(Stamp(t1), Stamp(t2)) <==> Earlier(t1, t2)
    ensures Stamp(t1) == Stamp(t2) <==> t1 == t2
  {
    PadsAreFixed(t1);
    PadsAreFixed(t2);
    assert Pow10(2) == 100;
    assert Pow10(4) == 10000 by { assert Pow10(3) == 1000; }
    var a1, a2 := FixedDigits(t1.year, 4), FixedDigits(t2.year, 4);
    FixedDigitsOrder(t1.year, t2.year, 4);
    var b1, b2 := a1 + "-" + FixedDigits(t1.month, 2), a2 + "-" + FixedDigits(t2.month, 2);
    GroupStep(a1, a2, '-', t1.month, t2.month, 2);
    var c1, c2 := b1 + "-" + FixedDigits(t1.day, 2), b2 + "-" + FixedDigits(t2.day, 2);
    GroupStep(b1, b2, '-', t1.day, t2.day, 2);
    var d1, d2 := c1 + "_" + FixedDigits(t1.hour, 2), c2 + "_" + FixedDigits(t2.hour, 2);
    GroupStep(c1, c2, '_', t1.hour, t2.hour, 2);
    var e1, e2 := d1 + "-" + FixedDigits(t1.minute, 2), d2 + "-" + FixedDigits(t2.minute, 2);
    GroupStep(d1, d2, '-', t1.minute, t2.minute, 2);
    var f1, f2 := e1 + "-" + FixedDigits(t1.second, 2), e2 + "-" + FixedDigits(t2.second, 2);
    GroupStep(e1, e2, '-', t1.second, t2.second, 2);
    assert Stamp(t1) == f1 && Stamp(t2) == f2;
  }

  /** Ordering the archive names of two valid times as strings orders the
      times chronologically, and distinct times get distinct names. */
  lemma ArchiveNameOrder(t1: Timestamp, t2: Timestamp)
    requires Valid(t1) && Valid(t2)
    ensures LexLess(ArchiveName(t1), ArchiveName(t2)) <==> Earlier(t1, t2)
    ensures ArchiveName(t1) == ArchiveName(t2) <==> t1 == t2
  {
    var s1, s2 := Stamp(t1), Stamp(t2);
    StampOrder(t1, t2);
    assert |s1| == |s2| by {
      PadsAreFixed(t1);
      PadsAreFixed(t2);
    }
    assert ArchiveName(t1) == "backup_" + s1 + ".zip";
    assert ArchiveName(t2) == "backup_" + s2 + ".zip";
    AffixOrder("backup_", s1, s2, ".zip");
  }

  /** Wrapping equally long strings in the same prefix and suffix keeps
      their order and their (in)equality. */
  lemma AffixOrder(p: string, s1: string, s2: string, q: string)
    requires |s1| == |s2|
    ensures LexLess(p + s1 + q, p + s2 + q) <==> LexLess(s1, s2)
    ensures p + s1 + q == p + s2 + q <==> s1 == s2
  {
    var w1, w2 := s1 + q, s2 + q;
    assert p + s1 + q == p + w1 && p + s2 + q == p + w2;
    assert LexLess(p + w1, p + w2) <==> LexLess(w1, w2) by {
      LexLessAppend(p, w1, p, w2);
      LexLessIrreflexive(p);
    }
    assert LexLess(w1, w2) <==> LexLess(s1, s2) by {
      LexLessAppend(s1, q, s2, q);
      LexLessIrreflexive(q);
    }
    AffixEqual(p, s1, s2, q);
  }

  lemma AffixEqual(p: string, s1: string, s2: string, q: string)
    requires |s1| == |s2|
    ensures p + s1 + q == p + s2 + q <==> s1 == s2
  {
    var x, y := p + s1 + q, p + s2 + q;
    assert x[|p|..|p| + |s1|] == s1;
    assert y[|p|..|p| + |s2|] == s2;
  }

  /** Chronological order of civil times: compare the fields, most
      significant first. */
  predicate Earlier(t1: Timestamp, t2: Timestamp) {
    || t1.year < t2.year
    || (t1.year == t2.year && t1.month < t2.month)
    || (t1.year == t2.year && t1.month == t2.month && t1.day < t2.day)
    || (t1.year == t2.year && t1.month == t2.month && t1.day == t2.day && t1.hour < t2.hour)
    || (t1.year == t2.year && t1.month == t2.month && t1.day == t2.day && t1.hour == t2.hour
        && t1.minute < t2.minute)
    || (t1.year == t2.year && t1.month == t2.month && t1.day == t2.day && t1.hour == t2.hour
        && t1.minute == t2.minute && t1.second < t2.second)
  }

  /** The mixed-radix clock orders valid times chronologically. */
  lemma InstantIsChronological(t1: Timestamp, t2: Timestamp)
    requires Valid(t1) && Valid(t2)
    ensures Instant(t1) < Instant(t2) <==> Earlier(t1, t2)
  {
    var f, g, r := Fields(t1), Fields(t2), Radices;
    assert InRange(f, g, r);
    var x0, y0 := Value(f, r), Value(g, r);
    var x1, y1 := Value(f[1..], r[1..]), Value(g[1..], r[1..]);
    var x2, y2 := Value(f[2..], r[2..]), Value(g[2..], r[2..]);
    var x3, y3 := Value(f[3..], r[3..]), Value(g[3..], r[3..]);
    var x4, y4 := Value(f[4..], r[4..]), Value(g[4..], r[4..]);
    var x5, y5 := Value(f[5..], r[5..]), Value(g[5..], r[5..]);
    assert (x0 < y0 <==> t1.year < t2.year || (t1.year == t2.year && x1 < y1)) by {
      ValueStep(f, g, r);
    }
    assert (x1 < y1 <==> t1.month < t2.month || (t1.month == t2.month && x2 < y2)) by {
      ValueStepAt(f, g, r, 1);
    }
    assert (x2 < y2 <==> t1.day < t2.day || (t1.day == t2.day && x3 < y3)) by {
      ValueStepAt(f, g, r, 2);
    }
    assert (x3 < y3 <==> t1.hour < t2.hour || (t1.hour == t2.hour && x4 < y4)) by {
      ValueStepAt(f, g, r, 3);
    }
    assert (x4 < y4 <==> t1.minute < t2.minute || (t1.minute == t2.minute && x5 < y5)) by {
      ValueStepAt(f, g, r, 4);
    }
    assert (x5 < y5 <==> t1.second < t2.second) by {
      ValueStepAt(f, g, r, 5);
      assert Value(f[6..], r[6..]) == 0 == Value(g[6..], r[6..]);
    }
  }

  /** Every digit is below its radix. */
  predicate InRange(vs: seq<nat>, us: seq<nat>, rs: seq<nat>) {
    && |vs| == |us| == |rs|
    && forall i | 0 <= i < |vs| :: vs[i] < rs[i] && us[i] < rs[i]
  }

  /** `ValueStep` applied to the digits from index `k` on. */
  lemma ValueStepAt(vs: seq<nat>, us: seq<nat>, rs: seq<nat>, k: nat)
    requires InRange(vs, us, rs) && k < |vs|
    ensures var x, y := Value(vs[k + 1..], rs[k + 1..]), Value(us[k + 1..], rs[k + 1..]);
      && (Value(vs[k..], rs[k..]) < Value(us[k..], rs[k..]) <==> vs[k] < us[k] || (vs[k] == us[k] && x < y))
      && (Value(vs[k..], rs[k..]) == Value(us[k..], rs[k..]) <==> vs[k] == us[k] && x == y)
  {
    ValueStep(vs[k..], us[k..], rs[k..]);
    assert vs[k..][1..] == vs[k + 1..] && us[k..][1..] == us[k + 1..] && rs[k..][1..] == rs[k + 1..];
  }
}
