/**
 * The cell address codec of XlsxSheetXmlReader: bijective base-26 column letters
 * (A = 0, Z = 25, AA = 26, the `r` attribute convention of the `c` element in
 * section 18.3.1.4 of ECMA-376 Part 1) and the split of a reference such as "B7".
 */
module CellAddress {
  import opened Wrappers
  import JsText

  predicate IsUpper(c: char) {
    'A' <= c <= 'Z'
  }

  predicate AllUpper(s: string) {
    forall i :: 0 <= i < |s| ==> IsUpper(s[i])
  }

  /** A column name: one or more letters A to Z. */
  predicate IsColumnName(s: string) {
    |s| > 0 && AllUpper(s)
  }

  /**
   * The accumulator of cellLetterToIndex after reading s: each character adds its code
   * minus 64 to the running value times 26, whatever character it is. The code here is
   * the character's Unicode code point, where charCodeAt gives a UTF-16 code unit; the two
   * differ only outside the Basic Multilingual Plane.
   */
  function LetterValue(s: string): int {
    if s == [] then 0 else LetterValue(s[..|s| - 1]) * 26 + (s[|s| - 1] as int) - 64
  }

  /** The zero-based column index cellLetterToIndex returns for s. */
  function ColumnIndex(s: string): int {
    LetterValue(s) - 1
  }

  /** The letters indexToCellLetter returns for n; a negative n gives the empty string. */
  function ColumnName(n: int): (r: string)
    ensures n >= 0 ==> IsColumnName(r)
    ensures n < 0 ==> r == []
    decreases if n < 0 then 0 else n + 1
  {
    if n < 0 then [] else ColumnName(n / 26 - 1) + [(65 + n % 26) as char]
  }

  lemma LetterValueSnoc(s: string, c: char)
    ensures LetterValue(s + [c]) == LetterValue(s) * 26 + (c as int) - 64
  {
    assert (s + [c])[..|s|] == s;
  }

  /** Letters to index after index to letters is the identity on every non-negative index. */
  lemma {:induction false} IndexOfName(n: int)
    requires n >= 0
    ensures ColumnIndex(ColumnName(n)) == n
  {
    var q := n / 26 - 1;
    var c := (65 + n % 26) as char;
    assert ColumnName(n) == ColumnName(q) + [c];
    LetterValueSnoc(ColumnName(q), c);
    if q >= 0 {
      IndexOfName(q);
    }
    assert LetterValue(ColumnName(q)) == q + 1;
    assert n == (q + 1) * 26 + n % 26;
  }

  /** Index to letters after letters to index is the identity on every column name. */
  lemma {:induction false} NameOfIndex(s: string)
    requires IsColumnName(s)
    ensures ColumnIndex(s) >= 0
    ensures ColumnName(ColumnIndex(s)) == s
  {
    var t, c := s[..|s| - 1], s[|s| - 1];
    assert s == t + [c];
    LetterValueSnoc(t, c);
    var d := c as int - 65;
    assert 0 <= d < 26;
    if t == [] {
      assert ColumnIndex(s) == d;
    } else {
      assert IsColumnName(t);
      NameOfIndex(t);
      var n := ColumnIndex(s);
      assert n == (ColumnIndex(t) + 1) * 26 + d;
      assert n / 26 - 1 == ColumnIndex(t) && n % 26 == d;
    }
  }

  /** Names of some columns. */
  lemma ColumnNameExamples()
    ensures ColumnName(0) == "A" && ColumnName(25) == "Z" && ColumnName(26) == "AA"
    ensures ColumnName(51) == "AZ" && ColumnName(52) == "BA"
    ensures ColumnName(701) == "ZZ" && ColumnName(702) == "AAA"
  {
    assert ColumnName(0) == "A";
    assert ColumnName(26) == ColumnName(0) + "A";
    assert ColumnName(51) == ColumnName(0) + "Z";
    assert ColumnName(52) == ColumnName(1) + "A";
    assert ColumnName(701) == ColumnName(25) + "Z";
    assert ColumnName(702) == ColumnName(26) + "A";
  }

  /** Indices of some column names. */
  lemma ColumnIndexExamples()
    ensures ColumnIndex("A") == 0 && ColumnIndex("Z") == 25 && ColumnIndex("AA") == 26
    ensures ColumnIndex("ZZ") == 701 && ColumnIndex("AAA") == 702
  {
    assert "AA"[..1] == "A" && "ZZ"[..1] == "Z";
    assert "AAA"[..2] == "AA";
  }

  /** cellLetterToIndex: the sum over the letters of 26 * index + (code - 64), minus one. */
  method CellLetterToIndex(letter: string) returns (index: int)
    ensures index == ColumnIndex(letter)
  {
    var acc := 0;
    var i := 0;
    while i < |letter|
      invariant 0 <= i <= |letter|
      invariant acc == LetterValue(letter[..i])
    {
      assert letter[..i + 1][..i] == letter[..i];
      acc := acc * 26 + (letter[i] as int) - 64;
      i := i + 1;
    }
    assert letter[..i] == letter;
    index := acc - 1;
  }

  /** indexToCellLetter: prepends the letter of index mod 26 while the index is non-negative. */
  method IndexToCellLetter(index: int) returns (letter: string)
    ensures letter == ColumnName(index)
  {
    letter := "";
    var k := index;
    while k >= 0
      invariant ColumnName(index) == ColumnName(k) + letter
      decreases if k < 0 then 0 else k + 1
    {
      letter := [(65 + k % 26) as char] + letter;
      k := k / 26 - 1;
    }
  }

  /** The longest prefix of s whose characters are all A to Z (codes 65 to 90). */
  function LetterPrefix(s: string): (r: string)
    ensures |r| <= |s| && r == s[..|r|]
    ensures AllUpper(r)
    ensures |r| == |s| || !IsUpper(s[|r|])
  {
    if s != [] && IsUpper(s[0]) then [s[0]] + LetterPrefix(s[1..]) else []
  }

  /** Any maximal all-letter prefix is the one LetterPrefix returns. */
  lemma {:induction false} LetterPrefixUnique(s: string, p: string)
    requires |p| <= |s| && p == s[..|p|] && AllUpper(p)
    requires |p| == |s| || !IsUpper(s[|p|])
    ensures p == LetterPrefix(s)
  {
    if p != [] {
      assert s[0] == p[0] && IsUpper(s[0]);
      var s', p' := s[1..], p[1..];
      assert p' == s'[..|p'|];
      assert |p'| == |s'| || s'[|p'|] == s[|p|];
      LetterPrefixUnique(s', p');
      assert p == [p[0]] + p';
    }
  }

  /**
   * getCellNameComponents: the letter part of cellName and, unless onlyLetter is set,
   * the rest of it.
   */
  method GetCellNameComponents(cellName: string, onlyLetter: bool)
    returns (letter: string, number: Option<string>)
    ensures letter == LetterPrefix(cellName)
    ensures onlyLetter ==> number == None
    ensures !onlyLetter ==> number.Some? && letter + number.value == cellName
  {
    letter := "";
    var k := 0;
    while k < |cellName|
      invariant 0 <= k <= |cellName|
      invariant letter == cellName[..k] && AllUpper(letter)
    {
      if IsUpper(cellName[k]) {
        letter := letter + [cellName[k]];
      } else {
        break;
      }
      k := k + 1;
    }
    LetterPrefixUnique(cellName, letter);
    if onlyLetter {
      return letter, None;
    }
    number := Some(cellName[|letter|..]);
  }

  /**
   * getCell2DIndex: the pair (row, column) of a cell reference, the row being the
   * number after the letters minus one (None when parseInt gives NaN).
   */
  function Cell2DIndex(cellName: string): (r: (Option<int>, int))
    // a name that starts with a letter has a column, any other name column -1
    ensures |cellName| > 0 && IsUpper(cellName[0]) ==> r.1 >= 0
    ensures !(|cellName| > 0 && IsUpper(cellName[0])) ==> r.1 == -1
    // a name of letters only has no row: parseInt("") is NaN
    ensures AllUpper(cellName) ==> r.0 == None
  {
    var letters := LetterPrefix(cellName);
    var number := JsText.ParseInt(cellName[|letters|..]);
    assert letters != [] ==> ColumnIndex(letters) >= 0 by {
      if letters != [] {
        NameOfIndex(letters);
      }
    }
    assert AllUpper(cellName) ==> letters == cellName by {
      if AllUpper(cellName) {
        LetterPrefixUnique(cellName, cellName);
      }
    }
    (if number.Some? then Some(number.value - 1) else None, ColumnIndex(letters))
  }

  lemma Cell2DIndexOfParts(s: string, letters: string, digits: string, v: int)
    requires LetterPrefix(s) == letters && s[|letters|..] == digits && JsText.ParseInt(digits) == Some(v)
    ensures Cell2DIndex(s) == (Some(v - 1), ColumnIndex(letters))
  {
  }

  /** The letter part of letters followed by digits is the letters. */
  lemma LetterPrefixBeforeDigits(letters: string, digits: string)
    requires AllUpper(letters) && JsText.IsDecimalString(digits)
    ensures LetterPrefix(letters + digits) == letters
    ensures (letters + digits)[|letters|..] == digits
  {
    var s := letters + digits;
    assert s[..|letters|] == letters;
    assert s[|letters|] == digits[0];
    assert JsText.IsDecimalDigit(digits[0]);
    LetterPrefixUnique(s, letters);
  }

  /** With a digit-only row part the pair is (number - 1, column of the letters). */
  lemma Cell2DIndexOfDigits(letters: string, digits: string)
    requires AllUpper(letters) && JsText.IsDecimalString(digits)
    ensures Cell2DIndex(letters + digits) == (Some(JsText.DigitsValue(digits, false) - 1), ColumnIndex(letters))
  {
    var v: int := JsText.DigitsValue(digits, false);
    LetterPrefixBeforeDigits(letters, digits);
    JsText.ParseIntOfDigits(digits);
    Cell2DIndexOfParts(letters + digits, letters, digits, v);
    assert Cell2DIndex(letters + digits) == (Some(v - 1), ColumnIndex(letters));
    assert Some(v - 1) == Some(JsText.DigitsValue(digits, false) - 1);
  }

  /** Writing a cell name from (row, column) and splitting it again gives (row, column). */
  lemma Cell2DIndexRoundTrip(row: nat, column: nat)
    ensures Cell2DIndex(ColumnName(column) + JsText.Decimal(row + 1)) == (Some(row), column)
  {
    Cell2DIndexOfDigits(ColumnName(column), JsText.Decimal(row + 1));
    JsText.DecimalValue(row + 1);
    IndexOfName(column);
  }

  /** "B7" is row 6, column 1. */
  lemma Cell2DIndexOfB7()
    ensures Cell2DIndex("B7") == (Some(6), 1)
  {
    assert "B7" == "B" + "7";
    Cell2DIndexOfDigits("B", "7");
    assert "7"[..0] == [];
    assert JsText.DigitsValue("7", false) == 7;
    assert "B"[..0] == [];
  }

  /** "AA1" is row 0, column 26. */
  lemma Cell2DIndexOfAA1()
    ensures Cell2DIndex("AA1") == (Some(0), 26)
  {
    var letters, digits := "AA", "1";
    assert JsText.DigitsValue(digits, false) == 1 by {
      assert digits[..0] == [];
    }
    assert ColumnIndex(letters) == 26 by {
      ColumnIndexExamples();
    }
    Cell2DIndexOfDigits(letters, digits);
    assert letters + digits == "AA1";
  }

  /** A reference without digits has no row: parseInt("") is NaN. */
  lemma Cell2DIndexWithoutRow()
    ensures Cell2DIndex("B") == (None, 1)
  {
    assert LetterPrefix("B") == "B";
    assert "B"[1..] == "";
  }
}
