/**
 * The template format of src/main/java/kth/model/SudokuUtilities.java: a
 * string of 162 digit characters, the 81 puzzle digits row by row and then
 * the 81 solution digits row by row, turned into a `[row][col][layer]` matrix.
 */
module TemplateDecoding {
  import opened Wrappers
  import opened Grids

  /** GRID_SIZE * GRID_SIZE * 2 */
  const TemplateLength := Size * Size * 2

  /** The two IllegalArgumentExceptions the decoder throws. */
  datatype DecodeError =
    | WrongLength                 // the length is not 162
    | InvalidCharacter(ch: char)  // a character outside '0'..'9'; ch is the first one

  /** The characters '0'..'9', indexed by their value. */
  const DigitChars: string := "0123456789"

  predicate IsDigitChar(ch: char) {
    '0' <= ch <= '9'
  }

  /** `v` is the value of the digit character `ch`. */
  predicate Spells(v: int, ch: char) {
    IsDigitChar(ch) && v == ch as int - '0' as int
  }

  lemma DigitCharsAreDigits(v: int)
    requires 0 <= v <= 9
    ensures IsDigitChar(DigitChars[v])
    ensures CharToSudokuInt(DigitChars[v]) == Success(v)
  {
    assert v == 0 || v == 1 || v == 2 || v == 3 || v == 4 || v == 5 || v == 6 || v == 7 || v == 8 || v == 9;
  }

  /** The index in a template of entry (r, c) of layer z. */
  function Position(r: int, c: int, z: int): int {
    Size * Size * z + Size * r + c
  }

  /** convertCharToSudokuInt: the value of a digit character, or the error for any other. */
  function CharToSudokuInt(ch: char): (res: Result<int, DecodeError>)
    ensures res.Success? <==> IsDigitChar(ch)
    ensures res.Failure? ==> res.error == InvalidCharacter(ch)
    ensures res.Success? ==> 0 <= res.value <= 9 && DigitChars[res.value] == ch
  {
    if ch < '0' || ch > '9' then Failure(InvalidCharacter(ch)) else Success(ch as int - '0' as int)
  }

  /** The index of the first non-digit of `s`, or |s| when there is none. */
  function FirstNonDigit(s: string): (k: nat)
    ensures k <= |s|
    ensures forall j | 0 <= j < k :: IsDigitChar(s[j])
    ensures k < |s| ==> !IsDigitChar(s[k])
  {
    if s == [] then 0
    else if !IsDigitChar(s[0]) then 0
    else 1 + FirstNonDigit(s[1..])
  }

  /**
   * convertStringToIntMatrix as a function: the length is checked first, then
   * the characters are read in order and the first non-digit is reported.
   */
  function Decode(s: string): (res: Result<Matrix, DecodeError>)
    ensures |s| != TemplateLength ==> res == Failure(WrongLength)
    ensures |s| == TemplateLength ==> (res.Success? <==> forall i | 0 <= i < |s| :: IsDigitChar(s[i]))
    ensures res.Failure? && |s| == TemplateLength ==>
      exists i | 0 <= i < |s| ::
        res.error == InvalidCharacter(s[i]) && !IsDigitChar(s[i]) && forall j | 0 <= j < i :: IsDigitChar(s[j])
    ensures res.Success? ==>
      IsMatrix(res.value) && CellValues(Layer(res.value, 0)) && CellValues(Layer(res.value, 1)) &&
      forall r, c, z | InRange(r, c) && 0 <= z < 2 :: Spells(res.value[r][c][z], s[Position(r, c, z)])
  {
    if |s| != TemplateLength then Failure(WrongLength)
    else
      var k := FirstNonDigit(s);
      if k < |s| then Failure(InvalidCharacter(s[k]))
      else
        var m := seq(Size, r requires 0 <= r < Size => seq(Size, c requires 0 <= c < Size =>
          seq(2, z requires 0 <= z < 2 => CharToSudokuInt(s[Position(r, c, z)]).value)));
        assert IsMatrix(m);
        Success(m)
  }

  /** The template of a matrix whose entries are all cell values 0..9: the inverse of Decode. */
  function Encode(m: Matrix): (s: string)
    requires IsMatrix(m) && CellValues(Layer(m, 0)) && CellValues(Layer(m, 1))
    ensures |s| == TemplateLength
  {
    seq(TemplateLength, i requires 0 <= i < TemplateLength =>
      DigitChars[m[(i % (Size * Size)) / Size][i % Size][i / (Size * Size)]])
  }

  lemma PositionInverse(i: int)
    requires 0 <= i < TemplateLength
    ensures var r, c, z := (i % (Size * Size)) / Size, i % Size, i / (Size * Size);
      InRange(r, c) && 0 <= z < 2 && Position(r, c, z) == i
  {
  }

  lemma PositionBounds(r: int, c: int, z: int)
    requires InRange(r, c) && 0 <= z < 2
    ensures var i := Position(r, c, z);
      0 <= i < TemplateLength && (i % (Size * Size)) / Size == r && i % Size == c && i / (Size * Size) == z
  {
  }

  /** Every character of an encoding is a digit. */
  lemma EncodeDigits(m: Matrix)
    requires IsMatrix(m) && CellValues(Layer(m, 0)) && CellValues(Layer(m, 1))
    ensures forall i | 0 <= i < TemplateLength :: IsDigitChar(Encode(m)[i])
  {
    forall i | 0 <= i < TemplateLength ensures IsDigitChar(Encode(m)[i]) {
      PositionInverse(i);
      var r, c, z := (i % (Size * Size)) / Size, i % Size, i / (Size * Size);
      assert Layer(m, z)[r][c] == m[r][c][z];
      DigitCharsAreDigits(m[r][c][z]);
    }
  }

  /** The encoding writes entry (r, c) of layer z at Position(r, c, z). */
  lemma EncodeSpells(m: Matrix)
    requires IsMatrix(m) && CellValues(Layer(m, 0)) && CellValues(Layer(m, 1))
    ensures forall r, c, z | InRange(r, c) && 0 <= z < 2 :: Spells(m[r][c][z], Encode(m)[Position(r, c, z)])
  {
    forall r, c, z | InRange(r, c) && 0 <= z < 2 ensures Spells(m[r][c][z], Encode(m)[Position(r, c, z)]) {
      PositionBounds(r, c, z);
      assert Layer(m, z)[r][c] == m[r][c][z];
    }
  }

  /** Encoding loses nothing: decoding it gives back the matrix. */
  lemma DecodeEncode(m: Matrix)
    requires IsMatrix(m) && CellValues(Layer(m, 0)) && CellValues(Layer(m, 1))
    ensures Decode(Encode(m)) == Success(m)
  {
    var s := Encode(m);
    EncodeDigits(m);
    EncodeSpells(m);
    SameDigitsSameMatrix(Decode(s).value, m, s);
  }

  /** Decoding loses nothing: encoding what a template decodes to gives back the template. */
  lemma EncodeDecode(s: string)
    requires Decode(s).Success?
    ensures Encode(Decode(s).value) == s
  {
    var m := Decode(s).value;
    forall i | 0 <= i < |s| ensures Encode(m)[i] == s[i] {
      PositionInverse(i);
    }
  }

  /**
   * convertStringToIntMatrix: a fresh 9×9×2 array filled from the template
   * with a running character index, first the puzzle layer, then the
   * solution layer; the first non-digit stops it with an error.
   */
  method ConvertStringToIntMatrix(s: string) returns (res: Result<array3<int>, DecodeError>)
    ensures res.Failure? <==> Decode(s).Failure?
    ensures res.Failure? ==> res.error == Decode(s).error
    ensures res.Success? ==> fresh(res.value) && IsMatrixArray(res.value) && Contents(res.value) == Decode(s).value
  {
    if |s| != TemplateLength {
      return Failure(WrongLength);
    }
    var values := new int[Size, Size, 2];
    var charIndex := 0;
    for row := 0 to Size
      invariant charIndex == Size * row
      invariant forall j | 0 <= j < charIndex :: IsDigitChar(s[j])
      invariant forall r, c, y | InRange(r, c) && 0 <= y < 2 && Position(r, c, y) < charIndex ::
        Spells(values[r, c, y], s[Position(r, c, y)])
    {
      for col := 0 to Size
        invariant charIndex == Size * row + col
        invariant forall j | 0 <= j < charIndex :: IsDigitChar(s[j])
        invariant forall r, c, y | InRange(r, c) && 0 <= y < 2 && Position(r, c, y) < charIndex ::
          Spells(values[r, c, y], s[Position(r, c, y)])
      {
        var digit := CharToSudokuInt(s[charIndex]);
        if digit.Failure? {
          DecodeFailsAt(s, charIndex);
          return Failure(digit.error);
        }
        values[row, col, 0] := digit.value;
        charIndex := charIndex + 1;
      }
    }
    for row := 0 to Size
      invariant charIndex == Size * Size + Size * row
      invariant forall j | 0 <= j < charIndex :: IsDigitChar(s[j])
      invariant forall r, c, y | InRange(r, c) && 0 <= y < 2 && Position(r, c, y) < charIndex ::
        Spells(values[r, c, y], s[Position(r, c, y)])
    {
      for col := 0 to Size
        invariant charIndex == Size * Size + Size * row + col
        invariant forall j | 0 <= j < charIndex :: IsDigitChar(s[j])
        invariant forall r, c, y | InRange(r, c) && 0 <= y < 2 && Position(r, c, y) < charIndex ::
          Spells(values[r, c, y], s[Position(r, c, y)])
      {
        var digit := CharToSudokuInt(s[charIndex]);
        if digit.Failure? {
          DecodeFailsAt(s, charIndex);
          return Failure(digit.error);
        }
        values[row, col, 1] := digit.value;
        charIndex := charIndex + 1;
      }
    }
    res := Success(values);
    DecodeSpelled(s, Contents(values));
  }

  /** A character that is the first non-digit is the one FirstNonDigit finds. */
  lemma FirstNonDigitAt(s: string, k: int)
    requires 0 <= k < |s| && !IsDigitChar(s[k])
    requires forall j | 0 <= j < k :: IsDigitChar(s[j])
    ensures FirstNonDigit(s) == k
  {
  }

  /** Decoding stops at the first character that is not a digit. */
  lemma DecodeFailsAt(s: string, k: int)
    requires |s| == TemplateLength && 0 <= k < |s| && !IsDigitChar(s[k])
    requires forall j | 0 <= j < k :: IsDigitChar(s[j])
    ensures Decode(s) == Failure(InvalidCharacter(s[k]))
  {
    FirstNonDigitAt(s, k);
  }

  /** A template that a matrix spells position by position decodes to that matrix. */
  lemma DecodeSpelled(s: string, m: Matrix)
    requires |s| == TemplateLength && IsMatrix(m)
    requires forall r, c, z | InRange(r, c) && 0 <= z < 2 :: Spells(m[r][c][z], s[Position(r, c, z)])
    ensures Decode(s) == Success(m)
  {
    forall i | 0 <= i < |s| ensures IsDigitChar(s[i]) {
      PositionInverse(i);
    }
    SameDigitsSameMatrix(m, Decode(s).value, s);
  }

  /** Two matrices of cell values that spell the same template are equal. */
  lemma SameDigitsSameMatrix(a: Matrix, b: Matrix, s: string)
    requires IsMatrix(a) && IsMatrix(b)
    requires |s| == TemplateLength
    requires forall r, c, z | InRange(r, c) && 0 <= z < 2 :: Spells(a[r][c][z], s[Position(r, c, z)])
    requires forall r, c, z | InRange(r, c) && 0 <= z < 2 :: Spells(b[r][c][z], s[Position(r, c, z)])
    ensures a == b
  {
    forall r, c, z | InRange(r, c) && 0 <= z < 2 ensures a[r][c][z] == b[r][c][z] {
      SpellsUnique(a[r][c][z], b[r][c][z], s[Position(r, c, z)]);
    }
    MatrixExtensionality(a, b);
  }

  /** A character spells at most one value. */
  lemma SpellsUnique(v: int, w: int, ch: char)
    requires Spells(v, ch) && Spells(w, ch)
    ensures v == w
  {
    DigitCharsAreDigits(v);
    DigitCharsAreDigits(w);
  }
}
