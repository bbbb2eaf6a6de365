/** Laws of the alphabet engine: the shift is invertible, keeps every
    character in its class, wraps around, ignores the case of key letters,
    and reproduces the values the source's unit tests expect. */
module AlphabetLaws {
  import opened Wrappers
  import opened Alphabet

  /** Shifting forward and then backward by the same amount is the identity. */
  lemma {:induction false} RotateInverse(c: char, d: int)
    ensures Rotate(Rotate(c, d), -d) == c
  {
    match ClassOf(c)
    case None =>
    case Some(cls) =>
      var o := Offset(c, cls);
      var j := Wrap(o + d, cls);
      var r := Member(cls, j);
      assert ClassOf(r) == Some(cls) && Offset(r, cls) == j;
      if cls == Digit {
        AddThenSubtract(o, d, 10);
      } else {
        AddThenSubtract(o, d, 26);
      }
      OffsetDetermines(Member(cls, o), c, cls);
  }

  /** Shifting backward and then forward by the same amount is the
      identity. */
  lemma RotateInverseBackward(c: char, d: int)
    ensures Rotate(Rotate(c, -d), d) == c
  {
    RotateInverse(c, -d);
    assert -(-d) == d;
  }

  /** The shift never moves a character into another class and leaves
      non-members alone, whatever the offset. */
  lemma RotateKeepsClass(c: char, d: int)
    ensures ClassOf(Rotate(c, d)) == ClassOf(c)
    ensures ClassOf(c).None? ==> Rotate(c, d) == c
  {
    match ClassOf(c)
    case None =>
    case Some(cls) =>
      var m := Member(cls, Wrap(Offset(c, cls) + d, cls));
      ClassOfExact(m, cls);
  }

  /** A zero shift is the identity, and a shift by a whole class length is
      the same as no extra shift. */
  lemma RotatePeriodic(c: char, d: int)
    ensures Rotate(c, 0) == c
    ensures ClassOf(c).Some? ==> Rotate(c, d + Size(ClassOf(c).value)) == Rotate(c, d)
  {
    match ClassOf(c)
    case None =>
    case Some(cls) =>
      var o := Offset(c, cls);
      OffsetDetermines(Member(cls, o), c, cls);
      if cls == Digit {
        ShiftByModulus(o + d, 10);
      } else {
        ShiftByModulus(o + d, 26);
      }
  }

  /** `subtract_char` undoes `add_char` for the same key character. */
  lemma SubtractUndoesAdd(c: char, k: char)
    requires ClassOf(k).Some?
    ensures SubtractChar(AddChar(c, k), k) == c
  {
    RotateInverse(c, KeyShift(k));
  }

  /** `add_char` undoes `subtract_char` for the same key character. */
  lemma AddUndoesSubtract(c: char, k: char)
    requires ClassOf(k).Some?
    ensures AddChar(SubtractChar(c, k), k) == c
  {
    RotateInverseBackward(c, KeyShift(k));
  }

  /** The lower-case form of an upper-case letter. */
  function ToLower(c: char): char
    requires 'A' <= c <= 'Z'
  {
    (c as int + 32) as char
  }

  /** An upper-case key letter and its lower-case form have the same
      position, so they shift a text character by the same amount. */
  lemma KeyCaseIrrelevant(c: char, k: char)
    requires 'A' <= k <= 'Z'
    ensures ClassOf(ToLower(k)) == Some(Lowercase)
    ensures PositionInAlphabet(k) == PositionInAlphabet(ToLower(k))
    ensures AddChar(c, k) == AddChar(c, ToLower(k))
    ensures SubtractChar(c, k) == SubtractChar(c, ToLower(k))
  {
  }

  /** The values the source's `modulo` test expects, including the two
      negative moduli where the truncating `%` matters. */
  lemma ModuloVectors()
    ensures Modulo(5, 3) == 2
    ensures Modulo(-5, 3) == 1
    ensures Modulo(5, -3) == -1
    ensures Modulo(-5, -3) == -2
  {
    assert Rem(5, -3) == 2;
    assert Rem(-1, -3) == -1;
    assert Rem(-5, -3) == -2;
    assert Rem(-5, 3) == -2;
  }

  /** `shift_char` with the index rule `x + n` is the rotation by `n`. */
  lemma ShiftCharForward(c: char, n: int)
    ensures ShiftChar(c, Forward(n)) == Rotate(c, n)
  {
    hide ShiftChar;
    if ClassOf(c).Some? {
      var o := Offset(c, ClassOf(c).value);
      var d := Forward(n)(o) - o;
      assert ShiftChar(c, Forward(n)) == Rotate(c, d);
      assert d == n;
    } else {
      assert ShiftChar(c, Forward(n)) == c;
    }
  }

  /** `shift_char` with the index rule `x - n` is the rotation by `-n`. */
  lemma ShiftCharBackward(c: char, n: int)
    ensures ShiftChar(c, Backward(n)) == Rotate(c, -n)
  {
    hide ShiftChar;
    if ClassOf(c).Some? {
      var o := Offset(c, ClassOf(c).value);
      var d := Backward(n)(o) - o;
      assert ShiftChar(c, Backward(n)) == Rotate(c, d);
      assert d == -n;
    } else {
      assert ShiftChar(c, Backward(n)) == c;
    }
  }

  /** Cases of the source's `shift_char` test: one and two places forward. */
  lemma ShiftCharVectors()
    ensures ShiftChar('a', Forward(1)) == 'b' && ShiftChar('a', Forward(2)) == 'c'
  {
    hide ShiftChar, Forward;
    ShiftCharForward('a', 1);
    ShiftCharForward('a', 2);
  }

  /** Cases of the source's `shift_char` test: shifting past the end of a
      class wraps around to its start. */
  lemma ShiftCharWrapVectors()
    ensures ShiftChar('z', Forward(1)) == 'a' && ShiftChar('z', Forward(2)) == 'b'
  {
    hide ShiftChar, Forward;
    ShiftCharForward('z', 1);
    ShiftCharForward('z', 2);
  }

  /** Cases of the source's `shift_char` test on upper-case letters. */
  lemma ShiftCharUpperVectors()
    ensures ShiftChar('A', Forward(1)) == 'B' && ShiftChar('Z', Forward(1)) == 'A'
  {
    hide ShiftChar, Forward;
    ShiftCharForward('A', 1);
    ShiftCharForward('Z', 1);
  }

  /** `add_char` yields the rotation of the text character by the key's
      shift. */
  lemma AddCharValue(c: char, k: char, e: char)
    requires ClassOf(k).Some? && Rotate(c, KeyShift(k)) == e
    ensures AddChar(c, k) == e
  {
  }

  /** Cases of the source's `add_char` test, with the index rule
      `c_pos + k_pos + 1`: key 'b' shifts by 2, key 'z' by 26. */
  lemma AddCharVectors()
    ensures AddChar('a', 'b') == 'c'
    ensures AddChar('a', 'z') == 'a'
  {
    AddCharValue('a', 'b', 'c');
    AddCharValue('a', 'z', 'a');
  }

  /** Cases of the source's `add_char` test: key 'a' shifts by 1, and the
      upper-case key 'Z' shifts by 26 like 'z'. */
  lemma AddCharKeyVectors()
    ensures AddChar('z', 'a') == 'a'
    ensures AddChar('a', 'Z') == 'a'
  {
    AddCharValue('z', 'a', 'a');
    AddCharValue('a', 'Z', 'a');
  }

  /** Cases of the source's `add_char` test: a digit stays a digit and a
      space passes through. */
  lemma AddCharClassVectors()
    ensures AddChar('1', 'a') == '2'
    ensures AddChar(' ', 'g') == ' '
  {
    AddCharValue('1', 'a', '2');
    AddCharValue(' ', 'g', ' ');
  }

  /** A case of the source's `add_char` test on upper-case text. */
  lemma AddCharUpperVector()
    ensures AddChar('A', 'A') == 'B'
  {
    AddCharValue('A', 'A', 'B');
  }

  /** A case of the source's `add_char` test with an upper-case text letter
      and a lower-case key letter. */
  lemma AddCharMixedCaseVector()
    ensures AddChar('T', 'c') == 'W'
  {
    AddCharValue('T', 'c', 'W');
  }

  /** The cases of the source's `is_clean` test, plus the empty key, which
      is vacuously clean. */
  lemma IsCleanVectors()
    ensures IsClean("AGoodKey")
    ensures !IsClean("P3ssima Ch4av3!! lul")
    ensures IsClean("")
  {
    assert "P3ssima Ch4av3!! lul"[1] == '3';
  }

  /** A case of the source's `repeat_key` test: a short key is cycled. */
  lemma RepeatKeyCycleVector()
    ensures RepeatKey("A median sized text", "Key") == "KeyKeyKeyKeyKeyKeyK"
  {
    var r := RepeatKey("A median sized text", "Key");
    var e := "KeyKeyKeyKeyKeyKeyK";
    forall i | 0 <= i < 19 ensures r[i] == e[i] {
    }
  }

  /** A case of the source's `repeat_key` test: a long key is cut to the
      text's length. */
  lemma RepeatKeyCutVector()
    ensures RepeatKey("Text", "KeyBiggerThanTheText") == "KeyB"
  {
  }
}
