/** Compact rupee formatting (src/utils/formatNumber.js).

    `formatNumber` picks the first magnitude band whose threshold the number
    reaches, scales the number by that band's divisor and renders it with
    one decimal and the band's suffix. Digit rendering is JavaScript's, and
    is not modelled: `fix1` stands for `x.toFixed(1)` and `show` for the
    default number-to-string conversion; both are parameters. */
module Format {

  /** The rupee sign U+20B9 every formatted amount starts with. */
  const Rupee: char := '\U{20B9}'

  /** The magnitude bands, largest first: billion, crore (10^7), lakh
      (10^5), thousand, and unscaled. */
  datatype Band = Billion | Crore | Lakh | Thousand | Plain

  /** The factor a band divides the number by. */
  function Divisor(b: Band): real
  {
    match b
    case Billion => 1000000000.0
    case Crore => 10000000.0
    case Lakh => 100000.0
    case Thousand => 1000.0
    case Plain => 1.0
  }

  /** The text a band appends after the digits. */
  function Suffix(b: Band): string
  {
    match b
    case Billion => "B"
    case Crore => "Cr"
    case Lakh => "L"
    case Thousand => "K"
    case Plain => ""
  }

  /** The half-open range of numbers a band covers, stated independently of
      the order in which the thresholds are tried. */
  predicate InBand(b: Band, num: real)
  {
    match b
    case Billion => num >= 1000000000.0
    case Crore => 10000000.0 <= num < 1000000000.0
    case Lakh => 100000.0 <= num < 10000000.0
    case Thousand => 1000.0 <= num < 100000.0
    case Plain => num < 1000.0
  }

  /** The first band whose threshold `num` reaches. Exactly one band covers
      every number, and it is the one chosen. */
  function BandOf(num: real): (b: Band)
    ensures InBand(b, num)
    ensures forall other: Band :: InBand(other, num) ==> other == b
  {
    if num >= 1000000000.0 then Billion
    else if num >= 10000000.0 then Crore
    else if num >= 100000.0 then Lakh
    else if num >= 1000.0 then Thousand
    else Plain
  }

  /** formatNumber: the rupee sign, the scaled number and the band suffix. */
  function FormatNumber(num: real, fix1: real -> string, show: real -> string): (s: string)
    ensures |s| > 0 && s[0] == Rupee
    ensures num >= 1000000000.0 ==> s == [Rupee] + fix1(num / 1000000000.0) + "B"
    ensures 10000000.0 <= num < 1000000000.0 ==> s == [Rupee] + fix1(num / 10000000.0) + "Cr"
    ensures 100000.0 <= num < 10000000.0 ==> s == [Rupee] + fix1(num / 100000.0) + "L"
    ensures 1000.0 <= num < 100000.0 ==> s == [Rupee] + fix1(num / 1000.0) + "K"
    ensures num < 1000.0 ==> s == [Rupee] + show(num)
  {
    var b := BandOf(num);
    [Rupee] + (if b == Plain then show(num) else fix1(num / Divisor(b)) + Suffix(b))
  }

  /** The scaled value handed to `fix1` is at least 1, and below 100 in every
      band but the top one: no band is skipped between thresholds. */
  lemma ScaledValueRange(num: real)
    requires BandOf(num) != Plain
    ensures 1.0 <= num / Divisor(BandOf(num))
    ensures BandOf(num) != Billion ==> num / Divisor(BandOf(num)) < 100.0
  {
    var d := Divisor(BandOf(num));
    var q := num / d;
    assert q * d == num;
  }

  /** Characters JavaScript's number rendering can produce for a finite
      number: digits, sign, decimal point and exponent marker. */
  predicate NumeralChar(c: char)
  {
    ('0' <= c <= '9') || c == '.' || c == '-' || c == '+' || c == 'e'
  }

  predicate Numeral(t: string)
  {
    forall i :: 0 <= i < |t| ==> NumeralChar(t[i])
  }

  /** Read the band back from a formatted amount, by its suffix. */
  function BandOfText(s: string): Band
  {
    if |s| >= 1 && s[|s| - 1] == 'B' then Billion
    else if |s| >= 2 && s[|s| - 2..] == "Cr" then Crore
    else if |s| >= 1 && s[|s| - 1] == 'L' then Lakh
    else if |s| >= 1 && s[|s| - 1] == 'K' then Thousand
    else Plain
  }

  /** The suffix identifies the band: when the digit renderings produce only
      numeral characters, the band can be read back from the output. */
  lemma BandReadBack(num: real, fix1: real -> string, show: real -> string)
    requires forall x :: Numeral(fix1(x))
    requires forall x :: Numeral(show(x))
    ensures BandOfText(FormatNumber(num, fix1, show)) == BandOf(num)
  {
    var s := FormatNumber(num, fix1, show);
    var b := BandOf(num);
    if b == Plain {
      var t := show(num);
      assert s == [Rupee] + t;
      if |t| > 0 {
        assert s[|s| - 1] == t[|t| - 1];
        assert NumeralChar(t[|t| - 1]);
        if |t| >= 2 {
          assert s[|s| - 2..] == t[|t| - 2..];
          assert NumeralChar(t[|t| - 2]);
        } else {
          assert s[|s| - 2..] == [Rupee, t[0]];
        }
      }
    } else {
      var t := fix1(num / Divisor(b));
      assert s == [Rupee] + t + Suffix(b);
      if b == Lakh || b == Thousand {
        assert |s| >= 2;
        assert s[|s| - 2..] == [s[|s| - 2], s[|s| - 1]];
      }
    }
  }

  /** formatPercentage: the one-decimal rendering followed by a percent sign;
      dropping that sign gives back the rendering. */
  function FormatPercentage(num: real, fix1: real -> string): (s: string)
    ensures |s| == |fix1(num)| + 1
    ensures s[|s| - 1] == '%'
    ensures s[..|s| - 1] == fix1(num)
  {
    fix1(num) + "%"
  }
}
