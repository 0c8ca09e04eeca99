/** PostgreSQL log positions: `hi/lo` in hexadecimal, as one byte offset. */
module Lsn {
  import opened Options
  import opened Text
  import opened Bits

  // ---- Hexadecimal ------------------------------------------------------------------------------

  function Digit(c: char): Option<nat> {
    if '0' <= c <= '9' then Some((c - '0') as nat)
    else if 'a' <= c <= 'f' then Some((c - 'a') as nat + 10)
    else if 'A' <= c <= 'F' then Some((c - 'A') as nat + 10)
    else None
  }

  /** Digits, with single underscores between them; `after` says whether one may come or the text end. */
  function Digits(text: string, value: nat, after: bool): Option<nat> {
    if text == "" then if after then Some(value) else None
    else if text[0] == '_' then if after then Digits(text[1..], value, false) else None
    else
      match Digit(text[0])
      case None => None
      case Some(d) => Digits(text[1..], value * 16 + d, true)
  }

  /** An optional `0x`, after which an underscore may come. */
  function Prefixed(text: string): Option<nat> {
    if |text| >= 2 && text[0] == '0' && text[1] in "xX" then
      if |text| >= 3 && text[2] == '_' then Digits(text[3..], 0, false) else Digits(text[2..], 0, false)
    else Digits(text, 0, false)
  }

  function Signed(sign: char, n: int): int {
    if sign == '-' then -n else n
  }

  /** Python's `int(text, 16)`, `None` for its `ValueError`. */
  function HexValue(text: string): Option<int> {
    var bare := Strip(text);
    if bare != "" && bare[0] in "+-" then
      match Prefixed(bare[1..])
      case None => None
      case Some(n) => Some(Signed(bare[0], n))
    else
      match Prefixed(bare)
      case None => None
      case Some(n) => Some(n)
  }

  /** The byte offset of a position, or `None` if the text is not one. */
  function Position(lsn: string): Option<int> {
    var (hi, _, lo) := Partition(lsn, '/');
    match (HexValue(hi), HexValue(lo))
    case (Some(high), Some(low)) => Some(BitOr(ShiftLeft(high, 32), low))
    case _ => None
  }

  /** How far a member trails the primary, or `None` where that is unknown or it does not. */
  function LagDistance(member: string, primary: string): (r: Option<int>)
    ensures r.Some? <==>
      && Position(member).Some? && Position(primary).Some?
      && Position(member).value < Position(primary).value
    ensures r.Some? ==> 0 < r.value == Position(primary).value - Position(member).value
  {
    match (Position(member), Position(primary))
    case (Some(here), Some(there)) => if there <= here then None else Some(there - here)
    case _ => None
  }

  // ---- Round trip and order -----------------------------------------------------------------------

  function HexDigit(d: nat): (c: char)
    requires d < 16
  {
    if d < 10 then '0' + d as char else 'A' + (d - 10) as char
  }

  /** A number as PostgreSQL prints it, in capital hexadecimal digits. */
  function Hex(n: nat): string {
    if n < 16 then [HexDigit(n)] else Hex(n / 16) + [HexDigit(n % 16)]
  }

  lemma DigitOfHex(d: nat)
    requires d < 16
    ensures Digit(HexDigit(d)) == Some(d) && HexDigit(d) !in "_xX+-/ \t\n\r"
  {
  }

  lemma {:induction false} DigitsAppend(text: string, c: char, value: nat, after: bool)
    requires Digit(c).Some? && c != '_'
    requires Digits(text, value, after).Some?
    ensures Digits(text + [c], value, after) == Some(Digits(text, value, after).value * 16 + Digit(c).value)
    decreases |text|
  {
    if text == "" {
      assert text + [c] == [c];
      assert [c][1..] == "";
    } else {
      assert (text + [c])[1..] == text[1..] + [c];
      if text[0] == '_' {
        DigitsAppend(text[1..], c, value, false);
      } else {
        DigitsAppend(text[1..], c, value * 16 + Digit(text[0]).value, true);
      }
    }
  }

  /** The digits of a number read back as that number, and there is nothing to strip or skip. */
  lemma {:induction false} HexReadsBack(n: nat)
    ensures Hex(n) != "" && Digits(Hex(n), 0, false) == Some(n)
    ensures forall k :: 0 <= k < |Hex(n)| ==> Hex(n)[k] !in "_xX+-/ \t\n\r"
    decreases n
  {
    DigitOfHex(n % 16);
    if n < 16 {
      assert [HexDigit(n)][1..] == "";
    } else {
      HexReadsBack(n / 16);
      DigitsAppend(Hex(n / 16), HexDigit(n % 16), 0, false);
    }
  }

  lemma HexValueOfHex(n: nat)
    ensures HexValue(Hex(n)) == Some(n)
  {
    HexReadsBack(n);
    var text := Hex(n);
    assert text[0] !in "_xX+-/ \t\n\r" && text[|text| - 1] !in "_xX+-/ \t\n\r";
    assert !Blank(text[0]) && !Blank(text[|text| - 1]);
    assert Strip(text) == text;
    assert |text| >= 2 ==> text[1] !in "_xX+-/ \t\n\r";
  }

  lemma {:induction false} PartitionAt(before: string, mark: char, after: string)
    requires mark !in before
    ensures Partition(before + [mark] + after, mark) == (before, true, after)
    decreases |before|
  {
    if before == "" {
      assert before + [mark] + after == [mark] + after;
    } else {
      PartitionAt(before[1..], mark, after);
      assert mark != before[0];
      var text := before + [mark] + after;
      assert text[0] == before[0] && text[1..] == before[1..] + [mark] + after;
      assert [text[0]] + before[1..] == before;
    }
  }

  function Written(hi: nat, lo: nat): string {
    Hex(hi) + "/" + Hex(lo)
  }

  /** A position with a low word below 2^32 is that many bytes into its 4 GiB segment. */
  lemma PositionReadsBack(hi: nat, lo: nat)
    requires lo < 0x1_0000_0000
    ensures Position(Written(hi, lo)) == Some(hi * 0x1_0000_0000 + lo)
  {
    HexReadsBack(hi);
    HexValueOfHex(hi);
    HexValueOfHex(lo);
    PartitionAt(Hex(hi), '/', Hex(lo));
    WordIs32Bits();
    OrIsSum(hi, lo, 32);
  }

  /** Offsets compare as the written words do, the high one first. */
  lemma PositionsCompareByWords(hi: nat, lo: nat, hi': nat, lo': nat)
    requires lo < 0x1_0000_0000 && lo' < 0x1_0000_0000
    ensures Position(Written(hi, lo)).Some? && Position(Written(hi', lo')).Some?
    ensures Position(Written(hi, lo)).value < Position(Written(hi', lo')).value <==>
      hi < hi' || (hi == hi' && lo < lo')
    ensures LagDistance(Written(hi, lo), Written(hi', lo'))
      == if hi < hi' || (hi == hi' && lo < lo') then Some((hi' - hi) * 0x1_0000_0000 + lo' - lo) else None
  {
    hide Position, Written, LagDistance;
    PositionReadsBack(hi, lo);
    PositionReadsBack(hi', lo');
  }

  /** A low word of 2^32 or more runs into the high one: bits overlap, and the offset is no sum. */
  lemma LongLowWordOverlaps()
    ensures BitOr(ShiftLeft(1, 32), 0x1_0000_0000) == 0x1_0000_0000
  {
    WordIs32Bits();
    OrOfSame(0x1_0000_0000);
  }
}
