/** Cell contents, the two sides, and the human-facing move notation
    (`<column letter><1-based row>`, e.g. "C5"). Characters are restricted
    to ASCII: whitespace, letters and digits are the ASCII ones. */
module Utils {

  datatype Option<T> = None | Some(value: T)

  /** Contents of one board cell. */
  datatype Cell = Empty | Red | Blue

  /** A playing side: RED joins the top and bottom rows, BLUE the left and
      right columns. */
  type Side = c: Cell | c != Empty witness Red

  /** The other side. */
  function Opponent(p: Side): (r: Side)
    ensures r != p
  {
    if p == Red then Blue else Red
  }

  lemma OpponentInvolution(p: Side)
    ensures Opponent(Opponent(p)) == p
    ensures Opponent(Red) == Blue && Opponent(Blue) == Red
  {
  }

  // ---------------------------------------------------------------------
  // Character classes (ASCII)

  predicate IsSpace(ch: char) {
    ch == ' ' || ch == '\t' || ch == '\n' || ch == '\r'
    || ch == 0x0B as char || ch == 0x0C as char
    || (0x1C <= ch as int <= 0x1F)
  }

  predicate IsDigit(ch: char) {
    '0' <= ch <= '9'
  }

  predicate IsUpperLetter(ch: char) {
    'A' <= ch <= 'Z'
  }

  predicate IsLowerLetter(ch: char) {
    'a' <= ch <= 'z'
  }

  predicate IsLetter(ch: char) {
    IsUpperLetter(ch) || IsLowerLetter(ch)
  }

  predicate AllDigits(s: string) {
    forall i :: 0 <= i < |s| ==> IsDigit(s[i])
  }

  predicate AllSpace(s: string) {
    forall i :: 0 <= i < |s| ==> IsSpace(s[i])
  }

  // ---------------------------------------------------------------------
  // Case mapping and whitespace stripping

  function UpperChar(ch: char): (r: char)
    ensures IsLowerLetter(ch) ==> IsUpperLetter(r) && r as int - 'A' as int == ch as int - 'a' as int
    ensures !IsLowerLetter(ch) ==> r == ch
  {
    if IsLowerLetter(ch) then (ch as int - 32) as char else ch
  }

  function Upper(s: string): (r: string)
    ensures |r| == |s|
    ensures forall i :: 0 <= i < |s| ==> r[i] == UpperChar(s[i])
  {
    if |s| == 0 then [] else [UpperChar(s[0])] + Upper(s[1..])
  }

  function StripLeft(s: string): (r: string)
    ensures |r| <= |s|
    ensures |r| > 0 ==> !IsSpace(r[0])
  {
    if |s| > 0 && IsSpace(s[0]) then StripLeft(s[1..]) else s
  }

  function StripRight(s: string): (r: string)
    ensures |r| <= |s|
    ensures |r| > 0 ==> !IsSpace(r[|r| - 1])
  {
    if |s| > 0 && IsSpace(s[|s| - 1]) then StripRight(s[..|s| - 1]) else s
  }

  /** Left stripping drops exactly a leading run of whitespace. */
  lemma {:induction false} StripLeftDropsSpace(s: string)
    ensures var r := StripLeft(s);
            r == s[|s| - |r|..] && AllSpace(s[..|s| - |r|])
  {
    if |s| > 0 && IsSpace(s[0]) {
      StripLeftDropsSpace(s[1..]);
      var r := StripLeft(s);
      assert s[1..][|s| - 1 - |r|..] == s[|s| - |r|..];
      assert s[..|s| - |r|] == [s[0]] + s[1..][..|s| - 1 - |r|];
    }
  }

  /** Right stripping drops exactly a trailing run of whitespace. */
  lemma {:induction false} StripRightDropsSpace(s: string)
    ensures var r := StripRight(s);
            r == s[..|r|] && AllSpace(s[|r|..])
  {
    if |s| > 0 && IsSpace(s[|s| - 1]) {
      var init := s[..|s| - 1];
      StripRightDropsSpace(init);
      var r := StripRight(s);
      assert init[..|r|] == s[..|r|];
      assert s[|r|..] == init[|r|..] + [s[|s| - 1]];
    }
  }

  /** Python's `str.strip()` without arguments, over ASCII whitespace. */
  function Strip(s: string): string {
    StripRight(StripLeft(s))
  }

  /** The text the parser actually inspects: stripped, then upper-cased. */
  function Normalize(text: string): string {
    Upper(Strip(text))
  }

  // ---------------------------------------------------------------------
  // Decimal text

  function DigitChar(d: nat): (ch: char)
    requires d < 10
    ensures IsDigit(ch) && ch as int - '0' as int == d
  {
    ('0' as int + d) as char
  }

  /** The value of a string of decimal digits, like Python's `int` on such a
      string (leading zeros allowed). */
  function DecimalValue(s: string): nat
    requires AllDigits(s)
  {
    if |s| == 0 then 0
    else DecimalValue(s[..|s| - 1]) * 10 + (s[|s| - 1] as int - '0' as int)
  }

  /** Python's `str` of a natural number: shortest decimal text. */
  function NatToDecimal(n: nat): (r: string)
    ensures |r| >= 1 && AllDigits(r)
    ensures DecimalValue(r) == n
    ensures r[0] == '0' ==> n == 0 && |r| == 1
  {
    if n < 10 then [DigitChar(n)]
    else
      var prefix := NatToDecimal(n / 10);
      var r := prefix + [DigitChar(n % 10)];
      assert r[..|r| - 1] == prefix;
      r
  }

  /** Python's `str` of an integer: a minus sign before negative values. */
  function IntToDecimal(i: int): (r: string)
    ensures i >= 0 ==> AllDigits(r) && |r| >= 1 && DecimalValue(r) == i
    ensures i >= 0 ==> (r[0] == '0' ==> i == 0 && |r| == 1)
    ensures i < 0 ==> |r| >= 2 && r[0] == '-' && AllDigits(r[1..]) && DecimalValue(r[1..]) == -i
    ensures i < 0 ==> r[1] != '0'
  {
    if i < 0 then "-" + NatToDecimal(-i) else NatToDecimal(i)
  }

  // ---------------------------------------------------------------------
  // Move notation (utils.py)

  /** Column letter: 0 is 'A', 1 is 'B', ... (Python's `chr(ord('A') + col)`). */
  function ColLabel(col: int): (ch: char)
    requires 0 <= 'A' as int + col < 0xD800
    ensures 0 <= col < 26 <==> IsUpperLetter(ch)
    ensures IsUpperLetter(ch) ==> ColumnIndex(ch) == col
  {
    ('A' as int + col) as char
  }

  /** Column index of an upper-case letter, inverse of `ColLabel`. */
  function ColumnIndex(ch: char): int {
    ch as int - 'A' as int
  }

  /** `format_move`: the column letter followed by the 1-based row. */
  function FormatMove(row: int, col: int): (s: string)
    requires 0 <= 'A' as int + col < 0xD800
    ensures |s| >= 2 && s[0] == ColLabel(col)
    ensures 0 <= col < 26 ==> IsUpperLetter(s[0]) && ColumnIndex(s[0]) == col
    ensures row >= 0 ==> s[1] != '0'
    ensures row >= -1 ==> AllDigits(s[1..]) && DecimalValue(s[1..]) == row + 1
    ensures row < -1 ==> s[1] == '-'
  {
    [ColLabel(col)] + IntToDecimal(row + 1)
  }

  /** `parse_move`: strip and upper-case the text, then read a column letter
      followed by a 1-based decimal row; `None` unless the cell lies on a
      `size` x `size` board. */
  function ParseMove(text: string, size: int): (r: Option<(int, int)>)
    ensures |Normalize(text)| < 2 ==> r.None?
    ensures r.Some? ==> IsUpperLetter(Normalize(text)[0]) && AllDigits(Normalize(text)[1..])
    ensures r.Some? ==> 0 <= r.value.0 < size && 0 <= r.value.1 < size
    ensures r.Some? ==> (r.value.1 == ColumnIndex(Normalize(text)[0])
                         && r.value.0 == DecimalValue(Normalize(text)[1..]) - 1)
    ensures var t := Normalize(text);
            |t| >= 2 && IsLetter(t[0]) && AllDigits(t[1..])
            && 0 <= ColumnIndex(t[0]) < size && 0 <= DecimalValue(t[1..]) - 1 < size
            ==> r == Some((DecimalValue(t[1..]) - 1, ColumnIndex(t[0])))
  {
    ReadMove(Normalize(text), size)
  }

  /** The reading step of `parse_move`, on already normalized text. */
  function ReadMove(t: string, size: int): Option<(int, int)> {
    if |t| < 2 then None
    else
      var colChar := t[0];
      var rowText := t[1..];
      if !IsLetter(colChar) || !AllDigits(rowText) then None
      else
        var col := ColumnIndex(colChar);
        var row := DecimalValue(rowText) - 1;
        if 0 <= row < size && 0 <= col < size then Some((row, col)) else None
  }

  // ---------------------------------------------------------------------
  // Properties of the notation

  /** Upper-casing text with no lower-case letter changes nothing. */
  lemma UpperNoLower(s: string)
    requires forall i :: 0 <= i < |s| ==> !IsLowerLetter(s[i])
    ensures Upper(s) == s
  {
  }

  /** Normalizing already upper-case, unpadded text changes nothing. */
  lemma NormalizeFormatted(row: nat, col: nat)
    requires col < 26
    ensures Normalize(FormatMove(row, col)) == FormatMove(row, col)
  {
    var d := NatToDecimal(row + 1);
    var s := [ColLabel(col)] + d;
    assert s == FormatMove(row, col);
    assert s[|s| - 1] == d[|d| - 1];
    assert IsDigit(s[|s| - 1]);
    assert StripLeft(s) == s;
    assert StripRight(s) == s;
    forall i | 0 <= i < |s|
      ensures !IsLowerLetter(s[i])
    {
      if i > 0 {
        assert s[i] == d[i - 1];
      }
    }
    UpperNoLower(s);
  }

  /** Every cell of a board of at most 26 columns survives
      formatting and parsing. */
  lemma {:induction false} ParseFormatRoundTrip(row: int, col: int, size: int)
    requires 0 <= row < size && 0 <= col < size && col < 26
    ensures ParseMove(FormatMove(row, col), size) == Some((row, col))
  {
    NormalizeFormatted(row, col);
  }

  lemma {:induction false} StripLeftAppend(s: string, t: string)
    ensures StripLeft(s + t) == if AllSpace(s) then StripLeft(t) else StripLeft(s) + t
    decreases |s|
  {
    if |s| == 0 {
      assert s + t == t;
    } else if IsSpace(s[0]) {
      assert (s + t)[1..] == s[1..] + t;
      StripLeftAppend(s[1..], t);
      if AllSpace(s[1..]) {
        assert AllSpace(s) by {
          forall i | 0 <= i < |s| ensures IsSpace(s[i]) {
            if i > 0 { assert s[i] == s[1..][i - 1]; }
          }
        }
      } else {
        assert !AllSpace(s) by {
          var j :| 0 <= j < |s[1..]| && !IsSpace(s[1..][j]);
          assert s[j + 1] == s[1..][j];
        }
      }
    } else {
      assert (s + t)[0] == s[0];
    }
  }

  lemma {:induction false} StripRightPrepend(s: string, t: string)
    ensures StripRight(s + t) == if AllSpace(t) then StripRight(s) else s + StripRight(t)
    decreases |t|
  {
    if |t| == 0 {
      assert s + t == s;
    } else if IsSpace(t[|t| - 1]) {
      var t' := t[..|t| - 1];
      assert (s + t)[..|s + t| - 1] == s + t';
      StripRightPrepend(s, t');
      if AllSpace(t') {
        assert AllSpace(t) by {
          forall i | 0 <= i < |t| ensures IsSpace(t[i]) {
            if i < |t| - 1 { assert t[i] == t'[i]; }
          }
        }
      } else {
        assert !AllSpace(t) by {
          var j :| 0 <= j < |t'| && !IsSpace(t'[j]);
          assert t[j] == t'[j];
        }
      }
    } else {
      assert (s + t)[|s + t| - 1] == t[|t| - 1];
      assert !AllSpace(t);
    }
  }

  /** Surrounding whitespace does not change what `parse_move` reads. */
  lemma ParseIgnoresSurroundingSpace(lead: string, text: string, trail: string, size: int)
    requires AllSpace(lead) && AllSpace(trail)
    ensures ParseMove(lead + text + trail, size) == ParseMove(text, size)
  {
    assert lead + text + trail == lead + (text + trail);
    StripLeftAppend(lead, text + trail);
    StripLeftAppend(text, trail);
    if !AllSpace(text) {
      StripRightPrepend(StripLeft(text), trail);
    } else {
      StripLeftAllSpace(text);
      StripLeftAllSpace(trail);
    }
    assert Strip(lead + text + trail) == Strip(text);
  }

  lemma StripLeftAllSpace(s: string)
    requires AllSpace(s)
    ensures StripLeft(s) == []
  {
  }

  /** Letter case does not change what `parse_move` reads. */
  lemma ParseIgnoresCase(text: string, size: int)
    ensures ParseMove(Upper(text), size) == ParseMove(text, size)
  {
    UpperStrip(text);
    var u := Upper(Strip(text));
    UpperNoLower(u);
    assert Normalize(Upper(text)) == Normalize(text);
  }

  /** Upper-casing commutes with stripping (case mapping keeps whitespace). */
  lemma {:induction false} UpperStrip(text: string)
    ensures Strip(Upper(text)) == Upper(Strip(text))
  {
    UpperStripLeft(text);
    UpperStripRight(StripLeft(text));
  }

  lemma {:induction false} UpperStripLeft(s: string)
    ensures StripLeft(Upper(s)) == Upper(StripLeft(s))
    decreases |s|
  {
    if |s| > 0 {
      assert Upper(s)[1..] == Upper(s[1..]);
      if IsSpace(s[0]) {
        UpperStripLeft(s[1..]);
      }
    }
  }

  lemma {:induction false} UpperStripRight(s: string)
    ensures StripRight(Upper(s)) == Upper(StripRight(s))
    decreases |s|
  {
    if |s| > 0 {
      assert Upper(s)[..|s| - 1] == Upper(s[..|s| - 1]);
      if IsSpace(s[|s| - 1]) {
        UpperStripRight(s[..|s| - 1]);
      }
    }
  }
}
