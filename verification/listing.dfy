/** `listBackups` (listBackups.js): the objects of the `backups` bucket as
    the storage lists them, newest name first, each shown with its name and
    a human-readable size. */
module Listing {
  import opened Wrappers
  import opened Text
  import opened Naming

  /** One listed object: its name and `metadata?.size` (`None` when the
      metadata or the size is missing or null). */
  datatype Entry = Entry(name: string, size: Option<int>)

  /** What the storage listing returned: whether it reported an error, and
      its data (`None` for null). */
  datatype Listed = Listed(error: bool, data: Option<seq<Entry>>)

  /** `{ name, date, size }` without the date. */
  datatype Item = Item(name: string, size: string)

  const KiB: nat := 1024
  const MiB: nat := 1024 * 1024

  /** `n` hundredths is the value `bytes / den` rounded to hundredths, a
      tie going to the larger: `n / 100 - bytes / den` lies in (-1/200, 1/200]. */
  predicate Rounds(n: int, bytes: int, den: int) {
    -den < 2 * (n * den - 100 * bytes) <= den
  }

  /** The hundredths `(bytes / den).toFixed(2)` shows. */
  function Hundredths(bytes: nat, den: nat): (n: nat)
    requires den > 0
    ensures Rounds(n, bytes, den)
  {
    var q := (200 * bytes + den) / (2 * den);
    assert 200 * bytes + den == 2 * den * q + (200 * bytes + den) % (2 * den);
    q
  }

  /** Steps 10 and 11 of `Number.prototype.toFixed(2)` (ECMA-262, section
      21.1.3.3) for a non-negative value `n / 100`: the digits of `n`, padded
      with zeroes to at least three, with a point before the last two. */
  function ToFixed2(n: nat): string {
    var m := NatToDecimal(n);
    var m' := if |m| <= 2 then seq(3 - |m|, _ => '0') + m else m;
    m'[..|m'| - 2] + "." + m'[|m'| - 2..]
  }

  /** `formatSize(bytes)`: megabytes from 2^20 bytes on, else kilobytes from
      2^10 bytes on, else the bare byte count. */
  function FormatSize(bytes: int): (r: string)
    ensures bytes >= MiB ==>
      forall n | Rounds(n, bytes, MiB) :: n >= 0 && r == NatToDecimal(n / 100) + "." + FixedDigits(n % 100, 2) + " MB"
    ensures KiB <= bytes < MiB ==>
      forall n | Rounds(n, bytes, KiB) :: n >= 0 && r == NatToDecimal(n / 100) + "." + FixedDigits(n % 100, 2) + " KB"
    ensures bytes < KiB ==> r == IntToDecimal(bytes) + " B"
  {
    if bytes >= MiB then
      var n := Hundredths(bytes, MiB);
      RoundsUnique(n, bytes, MiB);
      ToFixedDigits(n);
      ToFixed2(n) + " MB"
    else if bytes >= KiB then
      var n := Hundredths(bytes, KiB);
      RoundsUnique(n, bytes, KiB);
      ToFixedDigits(n);
      ToFixed2(n) + " KB"
    else IntToDecimal(bytes) + " B"
  }

  /** The size an entry is shown with: `metadata?.size || 0`. */
  function SizeOf(e: Entry): int {
    if e.size.Some? then e.size.value else 0
  }

  /** `listBackups()` given the storage listing. */
  function ListBackups(l: Listed): (items: seq<Item>)
    ensures l.error || l.data.None? ==> items == []
    ensures !l.error && l.data.Some? ==>
      && |items| == |l.data.value|
      && forall i | 0 <= i < |items| ::
           && items[i].name == l.data.value[i].name
           && items[i].size == FormatSize(SizeOf(l.data.value[i]))
           && (l.data.value[i].size.None? ==> items[i].size == "0 B")
  {
    if l.error || l.data.None? then []
    else
      var data := l.data.value;
      seq(|data|, i requires 0 <= i < |data| => Item(data[i].name, FormatSize(SizeOf(data[i]))))
  }

  // ---------------------------------------------------------------------------
  // properties
  // ---------------------------------------------------------------------------

  /** Rounding to hundredths has exactly one result. */
  lemma RoundsUnique(n: int, bytes: int, den: int)
    requires den > 0 && Rounds(n, bytes, den)
    ensures forall m | Rounds(m, bytes, den) :: m == n
    ensures bytes >= 0 ==> n >= 0
  {
    forall m | Rounds(m, bytes, den)
      ensures m == n
    {
      if m > n {
        MulAtLeast(m - n, den);
      } else if m < n {
        MulAtLeast(n - m, den);
      }
    }
    if bytes >= 0 && n < 0 {
      MulAtLeast(-n, den);
    }
  }

  lemma MulAtLeast(k: int, den: int)
    requires k >= 1 && den > 0
    ensures k * den >= den
  {
    assert k * den == den + (k - 1) * den;
  }

  /** The string `toFixed(2)` builds is the integer part without leading
      zeroes, a point and exactly two digits of hundredths. */
  lemma ToFixedDigits(n: nat)
    ensures ToFixed2(n) == NatToDecimal(n / 100) + "." + FixedDigits(n % 100, 2)
  {
    var h := n % 100;
    var m := NatToDecimal(n);
    var tail := [Digit(h / 10), Digit(h % 10)];
    assert FixedDigits(h, 2) == tail by {
      TwoDigits(h);
    }
    if n >= 100 {
      assert m == NatToDecimal(n / 100) + tail by {
        LastTwo(n);
      }
      assert m[..|m| - 2] == NatToDecimal(n / 100) && m[|m| - 2..] == tail;
    } else {
      assert h == n && n / 100 == 0 by {
        SmallHundredths(n);
      }
      ShortPadded(n);
      var m' := seq(3 - |m|, _ => '0') + m;
      assert m'[..|m'| - 2] == NatToDecimal(0) && m'[|m'| - 2..] == tail;
    }
  }

  lemma SmallHundredths(n: nat)
    requires n < 100
    ensures n % 100 == n && n / 100 == 0
  {
  }

  /** Below 100, padding the numeral to three digits gives `0` and two digits. */
  lemma ShortPadded(n: nat)
    requires n < 100
    ensures var m := NatToDecimal(n);
      |m| <= 2 && seq(3 - |m|, _ => '0') + m == ['0', Digit(n / 10), Digit(n % 10)]
  {
    var m := NatToDecimal(n);
    if n >= 10 {
      assert n / 10 < 10;
      assert m == [Digit(n / 10), Digit(n % 10)];
    } else {
      assert m == [Digit(n)];
    }
  }

  lemma Digits(n: nat)
    ensures n == n / 100 * 100 + n % 100 / 10 * 10 + n % 10
    ensures n / 10 == n / 100 * 10 + n % 100 / 10
    ensures n % 100 / 10 < 10
  {
  }

  lemma TwoDigits(h: nat)
    requires h < 100
    ensures FixedDigits(h, 2) == [Digit(h / 10), Digit(h % 10)]
  {
    var a := h / 10;
    assert a < 10 && a % 10 == a && a / 10 == 0;
    assert FixedDigits(a, 1) == FixedDigits(0, 0) + [Digit(a)];
    assert FixedDigits(h, 2) == FixedDigits(a, 1) + [Digit(h % 10)];
  }

  lemma LastTwo(n: nat)
    requires n >= 100
    ensures NatToDecimal(n) == NatToDecimal(n / 100) + [Digit(n % 100 / 10), Digit(n % 100 % 10)]
  {
    var t := n / 10;
    assert t / 10 == n / 100 && t % 10 == n % 100 / 10 && n % 10 == n % 100 % 10 by {
      Digits(n);
    }
    assert NatToDecimal(n) == NatToDecimal(t) + [Digit(n % 10)];
    assert NatToDecimal(t) == NatToDecimal(t / 10) + [Digit(t % 10)];
  }

  /** A size shown in kilobytes is its rounded hundredths of a kilobyte. */
  lemma KilobytesShown(bytes: int, n: int, whole: string, frac: string, shown: string)
    requires KiB <= bytes < MiB && Rounds(n, bytes, KiB)
    requires n >= 0 && whole == NatToDecimal(n / 100) && frac == FixedDigits(n % 100, 2)
    requires shown == whole + "." + frac + " KB"
    ensures FormatSize(bytes) == shown
  {
  }

  /** Sizes at each threshold and just below it. */
  lemma FormatSizeBytes()
    ensures FormatSize(0) == "0 B"
    ensures FormatSize(1023) == "1023 B"
  {
    assert NatToDecimal(10) == "10" by {
      assert NatToDecimal(10) == NatToDecimal(1) + [Digit(0)];
    }
    assert NatToDecimal(102) == "102" by {
      assert NatToDecimal(102) == NatToDecimal(10) + [Digit(2)];
    }
    assert NatToDecimal(1023) == "1023" by {
      assert NatToDecimal(1023) == NatToDecimal(102) + [Digit(3)];
    }
    assert IntToDecimal(1023) == "1023";
  }

  lemma FormatSizeKilobytes()
    ensures FormatSize(1024) == "1.00 KB"
    ensures FormatSize(1536) == "1.50 KB"
  {
    OneKilobyte();
    KilobyteAndHalf();
  }

  lemma OneKilobyte()
    ensures FormatSize(1024) == "1.00 KB"
  {
    assert Rounds(100, 1024, KiB);
    assert NatToDecimal(1) == "1";
    assert FixedDigits(0, 2) == "00" by {
      TwoDigits(0);
    }
    KilobytesShown(1024, 100, "1", "00", "1.00 KB");
  }

  lemma KilobyteAndHalf()
    ensures FormatSize(1536) == "1.50 KB"
  {
    assert Rounds(150, 1536, KiB);
    assert NatToDecimal(1) == "1";
    assert FixedDigits(50, 2) == "50" by {
      TwoDigits(50);
    }
    KilobytesShown(1536, 150, "1", "50", "1.50 KB");
  }

  lemma FormatSizeLastKilobytes()
    ensures FormatSize(1048575) == "1024.00 KB"
  {
    assert Rounds(102400, 1048575, KiB);
    assert FixedDigits(0, 2) == "00" by {
      TwoDigits(0);
    }
    assert NatToDecimal(1024) == "1024" by {
      Decimal1024();
    }
    KilobytesShown(1048575, 102400, "1024", "00", "1024.00 KB");
  }

  lemma Decimal1024()
    ensures NatToDecimal(1024) == "1024"
  {
    assert NatToDecimal(10) == NatToDecimal(1) + [Digit(0)];
    assert NatToDecimal(102) == NatToDecimal(10) + [Digit(2)];
    assert NatToDecimal(1024) == NatToDecimal(102) + [Digit(4)];
  }

  lemma FormatSizeMegabytes()
    ensures FormatSize(1048576) == "1.00 MB"
  {
    assert Rounds(100, 1048576, MiB);
    assert FixedDigits(0, 2) == "00" by {
      TwoDigits(0);
    }
    assert NatToDecimal(1) == "1";
  }

  /** When the storage lists archive names in descending order, as the
      listing asks it to, the items run from the newest backup to the
      oldest. */
  lemma NewestFirst(l: Listed, times: seq<Timestamp>)
    requires !l.error && l.data.Some?
    requires |times| == |l.data.value|
    requires forall i | 0 <= i < |times| :: Valid(times[i]) && l.data.value[i].name == ArchiveName(times[i])
    requires forall i, j | 0 <= i < j < |l.data.value| :: LexLess(l.data.value[j].name, l.data.value[i].name)
    ensures var items := ListBackups(l);
      forall i, j | 0 <= i < j < |items| :: Earlier(times[j], times[i])
  {
    forall i, j | 0 <= i < j < |times|
      ensures Earlier(times[j], times[i])
    {
      ArchiveNameOrder(times[j], times[i]);
    }
  }
}
