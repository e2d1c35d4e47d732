/** String helpers of the player-info widget: truncation, fixed-width cells and decimal text. */
module Text {

  function Min(a: int, b: int): int { if a <= b then a else b }

  /** A run of `n` spaces. */
  function Spaces(n: nat): (r: string)
    ensures |r| == n
    ensures forall i :: 0 <= i < n ==> r[i] == ' '
  {
    if n == 0 then [] else Spaces(n - 1) + [' ']
  }

  /** `Truncate`: an empty value, or one no longer than `maxLength`, comes back unchanged;
      a longer one is cut to its first `maxLength` characters. */
  function Truncate(value: string, maxLength: nat): (r: string)
    ensures |r| == Min(|value|, maxLength)
    ensures r == value[..|r|]
    ensures |value| <= maxLength ==> r == value
  {
    if |value| == 0 || |value| <= maxLength then value else value[..maxLength]
  }

  /** The text one field occupies in a fixed-width column: its first `width` characters,
      followed by spaces up to the column width. */
  function Cell(value: string, width: nat): (r: string)
    ensures |r| == width
  {
    var t := Truncate(value, width);
    t + Spaces(width - |t|)
  }

  /** A cell is exactly as wide as its column; a short value is kept whole and padded with spaces,
      a long value is cut to the column width with no padding. */
  lemma CellShape(value: string, width: nat)
    ensures |Cell(value, width)| == width
    ensures |value| <= width ==>
      Cell(value, width)[..|value|] == value &&
      forall i :: |value| <= i < width ==> Cell(value, width)[i] == ' '
    ensures |value| > width ==> Cell(value, width) == value[..width]
  {
    var t := Truncate(value, width);
    assert Cell(value, width) == t + Spaces(width - |t|);
    if |value| <= width {
      assert t == value;
      assert (t + Spaces(width - |t|))[..|t|] == t;
    }
  }

  /** A string whose characters are those of `value` and then spaces, up to `width`, is the cell
      of `value`. */
  lemma CellChars(s: string, value: string, width: nat)
    requires |s| == width
    requires forall i :: 0 <= i < width ==> s[i] == if i < |value| then value[i] else ' '
    ensures s == Cell(value, width)
  {
    CellShape(value, width);
    var c := Cell(value, width);
    forall i | 0 <= i < width
      ensures s[i] == c[i]
    {
      if |value| > width {
        assert c == value[..width];
      } else if i < |value| {
        assert c[..|value|][i] == c[i];
      }
    }
  }

  /** Cutting a value to at least the column width first does not change its cell. */
  lemma CellOfTruncate(value: string, width: nat, maxLength: nat)
    requires width <= maxLength
    ensures Cell(Truncate(value, maxLength), width) == Cell(value, width)
  {
    var t := Truncate(value, maxLength);
    CellShape(value, width);
    CellShape(t, width);
    if |value| > maxLength {
      assert t[..width] == value[..width];
    }
  }

  lemma SliceOfAppendLeft(x: string, y: string, a: nat, b: nat)
    requires a <= b <= |x|
    ensures (x + y)[a..b] == x[a..b]
  {
  }

  lemma SliceOfAppendRight(x: string, y: string)
    ensures (x + y)[|x|..|x| + |y|] == y
  {
  }

  function DigitChar(d: nat): (c: char)
    requires d < 10
    ensures '0' <= c <= '9'
  {
    "0123456789"[d]
  }

  /** Decimal text of a natural number, most significant digit first, without leading zeros. */
  function NatText(n: nat): (r: string)
    ensures |r| >= 1
    ensures forall i :: 0 <= i < |r| ==> '0' <= r[i] <= '9'
  {
    if n < 10 then [DigitChar(n)] else NatText(n / 10) + [DigitChar(n % 10)]
  }

  /** The number a digit character stands for; other characters count as 0. */
  function DigitValue(c: char): nat
  {
    if '0' <= c <= '9' then c as int - '0' as int else 0
  }

  /** The number a string of decimal digits spells, most significant digit first. */
  function DigitsValue(s: string): nat
  {
    if s == [] then 0 else 10 * DigitsValue(s[..|s| - 1]) + DigitValue(s[|s| - 1])
  }

  /** The decimal text of `n` spells `n`, and has no leading zero unless `n` is 0. */
  lemma {:induction false} NatTextRoundTrip(n: nat)
    ensures DigitsValue(NatText(n)) == n
    ensures n > 0 ==> NatText(n)[0] != '0'
  {
    if n < 10 {
      DigitCharValue(n);
    } else {
      var front, last := NatText(n / 10), DigitChar(n % 10);
      NatTextRoundTrip(n / 10);
      DigitCharValue(n % 10);
      DigitsSnoc(front, last);
      assert n == 10 * (n / 10) + n % 10;
    }
  }

  lemma DigitCharValue(d: nat)
    requires d < 10
    ensures DigitValue(DigitChar(d)) == d
  {
  }

  lemma DigitsSnoc(s: string, c: char)
    ensures DigitsValue(s + [c]) == 10 * DigitsValue(s) + DigitValue(c)
    ensures s != [] ==> (s + [c])[0] == s[0]
  {
    assert (s + [c])[..|s|] == s;
  }

  /** `int.ToString()`: a minus sign before the digits of the magnitude of a negative number. */
  function DecimalText(n: int): (r: string)
    ensures n < 0 ==> |r| >= 2 && r[0] == '-' && DigitsValue(r[1..]) == -n && r[1] != '0'
    ensures n < 0 ==> forall i :: 1 <= i < |r| ==> '0' <= r[i] <= '9'
    ensures n >= 0 ==> DigitsValue(r) == n && |r| >= 1 && (n > 0 ==> r[0] != '0')
    ensures n >= 0 ==> forall i :: 0 <= i < |r| ==> '0' <= r[i] <= '9'
    ensures n == 0 ==> r == "0"
  {
    if n < 0 then
      NatTextRoundTrip(-n);
      assert ("-" + NatText(-n))[1..] == NatText(-n);
      "-" + NatText(-n)
    else
      NatTextRoundTrip(n);
      NatText(n)
  }

  /** A number of at least 10^k has more than k digits. */
  lemma {:induction false} NatTextLength(n: nat, k: nat, p: nat)
    requires p == Pow10(k) && n >= p
    ensures |NatText(n)| >= k + 1
  {
    if k > 0 {
      assert n >= 10;
      Pow10Div(k);
      assert n / 10 >= Pow10(k - 1);
      NatTextLength(n / 10, k - 1, Pow10(k - 1));
    }
  }

  /** A number below 10^k has at most k digits. */
  lemma {:induction false} NatTextShort(n: nat, k: nat)
    requires k >= 1 && n < Pow10(k)
    ensures |NatText(n)| <= k
  {
    if n >= 10 {
      assert k >= 2;
      assert n / 10 < Pow10(k - 1);
      NatTextShort(n / 10, k - 1);
    }
  }

  function Pow10(k: nat): (r: nat)
    ensures r >= 1
  {
    if k == 0 then 1 else 10 * Pow10(k - 1)
  }

  lemma Pow10Div(k: nat)
    requires k > 0
    ensures Pow10(k) / 10 == Pow10(k - 1)
  {
  }

  /** Decimal text of an integer is never the placeholder "--": its second character, if any,
      is a digit. */
  lemma DecimalTextNotPlaceholder(n: int, w: nat)
    requires w >= 2
    ensures Truncate(DecimalText(n), w) != "--"
  {
    var t := DecimalText(n);
    if n < 0 {
      assert t[1] == NatText(-n)[0];
    } else {
      assert '0' <= t[0] <= '9';
    }
  }
}
