/** The character-shifting engine of `ciphers/src/utils/alphabet.rs`: three
    disjoint symbol classes (upper-case letters, lower-case letters, digits),
    position lookup, Rust's signed modulo, and shifting a character inside
    its own class. */
module Alphabet {
  import opened Wrappers

  /** The three ordered symbol classes a character can be shifted within. */
  datatype SymbolClass = Uppercase | Lowercase | Digit

  /** The first symbol of a class. */
  function First(cls: SymbolClass): char {
    match cls
    case Uppercase => 'A'
    case Lowercase => 'a'
    case Digit => '0'
  }

  /** The number of symbols in a class. */
  function Size(cls: SymbolClass): nat {
    match cls
    case Digit => 10
    case _ => 26
  }

  /** `x` wrapped into the index range of a class, as the mathematical
      residue modulo the class size. */
  function Wrap(x: int, cls: SymbolClass): (r: nat)
    ensures r < Size(cls)
  {
    match cls
    case Digit => x % 10
    case _ => x % 26
  }

  /** The symbol at offset `i` of a class: the classes are runs of
      consecutive code points starting at their first symbol. */
  function Member(cls: SymbolClass, i: int): (m: char)
    requires 0 <= i < Size(cls)
    ensures InClass(m, cls) && Offset(m, cls) == i
  {
    (First(cls) as int + i) as char
  }

  /** `UPPERCASE_ALPHABET`, `LOWERCASE_ALPHABET` and `NUMBERS`. */
  function UppercaseAlphabet(): seq<char> {
    "ABCDEFGHIJKLMNOPQRSTUVWXYZ"
  }

  function LowercaseAlphabet(): seq<char> {
    "abcdefghijklmnopqrstuvwxyz"
  }

  function Numbers(): seq<char> {
    "0123456789"
  }


  /** The table of a class. */
  function Table(cls: SymbolClass): (t: seq<char>)
    ensures |t| == Size(cls)
  {
    match cls
    case Uppercase => UppercaseAlphabet()
    case Lowercase => LowercaseAlphabet()
    case Digit => Numbers()
  }

  predicate InClass(c: char, cls: SymbolClass) {
    First(cls) as int <= c as int < First(cls) as int + Size(cls)
  }

  /** The class a character belongs to, if any. */
  function ClassOf(c: char): Option<SymbolClass> {
    if InClass(c, Uppercase) then Some(Uppercase)
    else if InClass(c, Lowercase) then Some(Lowercase)
    else if InClass(c, Digit) then Some(Digit)
    else None
  }

  /** The 0-based index of a class member within its class. */
  function Offset(c: char, cls: SymbolClass): nat
    requires InClass(c, cls)
  {
    c as int - First(cls) as int
  }

  /** Rust's `char::is_ascii_alphabetic`. */
  predicate IsAsciiAlphabetic(c: char) {
    ('A' <= c <= 'Z') || ('a' <= c <= 'z')
  }

  /** Each table entry is the class member at that offset, and every class
      member appears in its table. */
  lemma TableEntry(cls: SymbolClass, i: int)
    requires 0 <= i < Size(cls)
    ensures |Table(cls)| == Size(cls)
    ensures Table(cls)[i] == Member(cls, i)
    ensures InClass(Table(cls)[i], cls) && Offset(Table(cls)[i], cls) == i
    ensures ClassOf(Table(cls)[i]) == Some(cls)
  {
    match cls
    case Uppercase => UppercaseEntry(i);
    case Lowercase => LowercaseEntry(i);
    case Digit => DigitEntry(i);
  }

  /** Each table lists its class in code-point order. */
  lemma UppercaseEntry(i: int)
    requires 0 <= i < 26
    ensures UppercaseAlphabet()[i] == Member(Uppercase, i)
  {
  }

  lemma LowercaseEntry(i: int)
    requires 0 <= i < 26
    ensures LowercaseAlphabet()[i] == Member(Lowercase, i)
  {
  }

  lemma DigitEntry(i: int)
    requires 0 <= i < 10
    ensures Numbers()[i] == Member(Digit, i)
  {
  }

  lemma TableMembership(c: char, cls: SymbolClass)
    ensures c in Table(cls) <==> InClass(c, cls)
  {
    if c in Table(cls) {
      var i :| 0 <= i < |Table(cls)| && Table(cls)[i] == c;
      TableEntry(cls, i);
    }
    if InClass(c, cls) {
      TableEntry(cls, Offset(c, cls));
    }
  }

  /** Two members of a class with the same offset are the same character. */
  lemma OffsetDetermines(c: char, d: char, cls: SymbolClass)
    requires InClass(c, cls) && InClass(d, cls)
    requires Offset(c, cls) == Offset(d, cls)
    ensures c == d
  {
  }

  /** The classes are disjoint, so `ClassOf` names the only class of a member. */
  lemma ClassOfExact(c: char, cls: SymbolClass)
    ensures InClass(c, cls) <==> ClassOf(c) == Some(cls)
  {
  }

  // ---------------------------------------------------------------------
  // Key helpers
  // ---------------------------------------------------------------------

  /** `is_clean`: no character of the text fails to be an ASCII letter. */
  function IsClean(text: string): (r: bool)
    ensures r <==> forall i :: 0 <= i < |text| ==> IsAsciiAlphabetic(text[i])
  {
    if |text| == 0 then true
    else IsAsciiAlphabetic(text[0]) && IsClean(text[1..])
  }

  /** `repeat_key`: the key cycled endlessly and cut to the text's length.
      An empty key cycles to nothing. */
  function RepeatKey(text: string, key: string): (r: string)
    ensures |key| == 0 ==> r == []
    ensures |key| > 0 ==> |r| == |text|
    ensures |key| > 0 ==> forall i :: 0 <= i < |r| ==> r[i] == key[i % |key|]
    decreases |text|
  {
    if |key| == 0 then []
    else if |text| <= |key| then key[..|text|]
    else
      var rest := RepeatKey(text[|key|..], key);
      OneMoreCycle(key, rest);
      key + rest
  }

  // ---------------------------------------------------------------------
  // Positions
  // ---------------------------------------------------------------------

  /** `get_position`: the index of the first occurrence of `c`, if any. */
  function GetPosition(c: char, alphabet: seq<char>): Option<nat> {
    PositionFrom(c, alphabet, 0)
  }

  /** The scan behind `get_position`, started at index `from`. (Naming `c`
      in the termination measure keeps the verifier from unrolling the scan
      over a literal table when `c` is unknown.) */
  function PositionFrom(c: char, alphabet: seq<char>, from: nat): Option<nat>
    requires from <= |alphabet|
    decreases |alphabet| - from, c
  {
    if from == |alphabet| then None
    else if alphabet[from] == c then Some(from)
    else PositionFrom(c, alphabet, from + 1)
  }

  /** `get_position` finds nothing exactly when `c` does not occur, and
      otherwise the index of its first occurrence. */
  lemma GetPositionFirst(c: char, alphabet: seq<char>)
    ensures GetPosition(c, alphabet).None? <==> c !in alphabet
    ensures GetPosition(c, alphabet).Some? ==>
      var i := GetPosition(c, alphabet).value;
      i < |alphabet| && alphabet[i] == c && c !in alphabet[..i]
  {
    PositionFromFirst(c, alphabet, 0);
    if GetPosition(c, alphabet).Some? {
      var i := GetPosition(c, alphabet).value;
      assert forall j :: 0 <= j < i ==> alphabet[..i][j] == alphabet[j];
    }
  }

  /** The scan from `from` finds the first occurrence at or after `from`. */
  lemma {:induction false} PositionFromFirst(c: char, alphabet: seq<char>, from: nat)
    requires from <= |alphabet|
    ensures PositionFrom(c, alphabet, from).None? <==>
      forall j :: from <= j < |alphabet| ==> alphabet[j] != c
    ensures PositionFrom(c, alphabet, from).Some? ==>
      var i := PositionFrom(c, alphabet, from).value;
      from <= i < |alphabet| && alphabet[i] == c
      && forall j :: from <= j < i ==> alphabet[j] != c
    decreases |alphabet| - from, c
  {
    if from < |alphabet| && alphabet[from] != c {
      PositionFromFirst(c, alphabet, from + 1);
    }
  }

  /** Looking a character up in a class table finds its offset when it is a
      member and nothing otherwise. */
  lemma TablePosition(c: char, cls: SymbolClass)
    ensures GetPosition(c, Table(cls)).None? <==> !InClass(c, cls)
    ensures GetPosition(c, Table(cls)).Some? ==>
      InClass(c, cls) && GetPosition(c, Table(cls)).value == Offset(c, cls)
  {
    TableMembership(c, cls);
    GetPositionFirst(c, Table(cls));
    if InClass(c, cls) {
      var i := GetPosition(c, Table(cls)).value;
      TableEntry(cls, i);
    }
  }

  /** `position_in_alphabet`: search the upper-case, lower-case and digit
      tables in turn. The result is the offset of `c` in its class. */
  function PositionInAlphabet(c: char): (r: Option<nat>)
    ensures r.None? <==> ClassOf(c).None?
    ensures r.Some? ==> r.value == Offset(c, ClassOf(c).value)
  {
    TablePosition(c, Uppercase);
    TablePosition(c, Lowercase);
    TablePosition(c, Digit);
    GetPosition(c, UppercaseAlphabet())
      .OrElse(GetPosition(c, LowercaseAlphabet()))
      .OrElse(GetPosition(c, Numbers()))
  }

  // ---------------------------------------------------------------------
  // Signed modulo
  // ---------------------------------------------------------------------

  function Abs(x: int): nat {
    if x < 0 then -x else x
  }

  /** Rust's `%` on integers: the remainder of the division truncated toward
      zero, which carries the sign of the dividend. */
  function Rem(n: int, m: int): (r: int)
    requires m != 0
    ensures Abs(r) < Abs(m)
    ensures n >= 0 ==> r >= 0
    ensures n <= 0 ==> r <= 0
    ensures (n - r) % m == 0
  {
    var a := Abs(m);
    if n >= 0 then
      RemLaw(n, m);
      assert n == 0 ==> n % a == 0;
      n % a
    else
      RemLaw(-n, m);
      NegatedMultiple((-n) - (-n) % a, m);
      assert n - -((-n) % a) == -((-n) - (-n) % a);
      -((-n) % a)
  }

  /** Taking away the remainder leaves a multiple of the modulus. */
  lemma RemLaw(n: nat, m: int)
    requires m != 0
    ensures (n - n % Abs(m)) % m == 0
  {
    var a := Abs(m);
    var q := n / a;
    assert n - n % a == q * a;
    if m > 0 {
      ModUnique(n - n % a, m, q, 0);
    } else {
      assert q * a == (-q) * m;
      ModUnique(n - n % a, m, -q, 0);
    }
  }

  lemma NegatedMultiple(x: int, m: int)
    requires m != 0 && x % m == 0
    ensures (-x) % m == 0
  {
    ModUnique(-x, m, -(x / m), 0);
  }

  /** `modulo`: `((n % m) + m) % m` with Rust's `%`. For a positive modulus
      this is the mathematical residue; for a negative one it lands in
      `(m, 0]`. */
  function Modulo(n: int, m: int): (r: int)
    requires m != 0
    ensures m > 0 ==> 0 <= r < m && r == n % m
    ensures m < 0 ==> m < r <= 0 && (n - r) % m == 0
  {
    var t := Rem(n, m);
    var r := Rem(t + m, m);
    MultiplesCombine(n - t, t + m - r, m);
    assert n - r == (n - t) + (t + m - r) - m;
    if m > 0 then
      CongruentSameResidue(n, r, m);
      r
    else
      r
  }

  // ---------------------------------------------------------------------
  // Shifting
  // ---------------------------------------------------------------------

  /** `get_new_char`: the symbol at the wrapped index, in the class of `c`.
      A character outside every class falls through to the lower-case table,
      as the last branch of the source does. */
  function GetNewChar(c: char, position: int): (r: char)
    ensures ClassOf(c).Some? ==>
      var cls := ClassOf(c).value;
      InClass(r, cls) && Offset(r, cls) == Wrap(position, cls)
    ensures ClassOf(c).None? ==> InClass(r, Lowercase) && Offset(r, Lowercase) == Wrap(position, Lowercase)
  {
    var cls := if InClass(c, Digit) then Digit
      else if InClass(c, Uppercase) then Uppercase
      else Lowercase;
    var i := Modulo(position, Size(cls));
    TableEntry(cls, i);
    if cls == Digit then Numbers()[i]
    else if cls == Uppercase then UppercaseAlphabet()[i]
    else LowercaseAlphabet()[i]
  }

  /** The reference shift: a class member moves `d` places forward (backward
      when `d` is negative) inside its class, wrapping around; any other
      character is left as it is. */
  function Rotate(c: char, d: int): char {
    match ClassOf(c)
    case None => c
    case Some(cls) => Member(cls, Wrap(Offset(c, cls) + d, cls))
  }

  /** `shift_char`: move a class member to the index `getIndex` computes from
      its position, so that it is rotated by the distance from its position
      to that index; other characters come back unchanged. */
  function ShiftChar(c: char, getIndex: int -> int): (r: char)
    ensures ClassOf(c).None? ==> r == c
    ensures ClassOf(c).Some? ==>
      var o := Offset(c, ClassOf(c).value);
      r == Rotate(c, getIndex(o) - o)
  {
    match PositionInAlphabet(c)
    case Some(p) =>
      var cls := ClassOf(c).value;
      assert p == Offset(c, cls);
      var i := getIndex(p);
      var r := GetNewChar(c, i);
      assert InClass(r, cls) && Offset(r, cls) == Wrap(Offset(c, cls) + (i - p), cls);
      ClassOfExact(r, cls);
      RotateFromOffset(c, i - p, r, cls);
      r
    case None => c
  }

  /** `shift_char_with_key`: as `ShiftChar`, with the index computed from the
      positions of the text character and of the key character. The key
      character must belong to a class (the source panics otherwise). */
  function ShiftCharWithKey(c: char, k: char, func: (int, int) -> int): (r: char)
    requires ClassOf(k).Some?
    ensures ClassOf(c).None? ==> r == c
    ensures ClassOf(c).Some? ==>
      var o := Offset(c, ClassOf(c).value);
      r == Rotate(c, func(o, Offset(k, ClassOf(k).value)) - o)
  {
    var kPos := PositionInAlphabet(k).value;
    assert kPos == Offset(k, ClassOf(k).value);
    match PositionInAlphabet(c)
    case Some(cPos) =>
      var cls := ClassOf(c).value;
      assert cPos == Offset(c, cls);
      var i := func(cPos, kPos);
      var r := GetNewChar(c, i);
      assert InClass(r, cls) && Offset(r, cls) == Wrap(Offset(c, cls) + (i - cPos), cls);
      ClassOfExact(r, cls);
      RotateFromOffset(c, i - cPos, r, cls);
      r
    case None => c
  }

  /** The shift a key character stands for: its position plus one, so that
      'A' and 'a' shift by 1. */
  function KeyShift(k: char): int
    requires ClassOf(k).Some?
  {
    Offset(k, ClassOf(k).value) + 1
  }

  /** The index rule `x + n`, as in Caesar encryption and the `shift_char`
      tests. */
  function Forward(n: int): int -> int {
    x => x + n
  }

  /** The index rule `x - n`, as in Caesar decryption. */
  function Backward(n: int): int -> int {
    x => x - n
  }

  /** The index rule of `add_char`: `c_pos + k_pos + 1`. */
  function AddIndex(cPos: int, kPos: int): int {
    cPos + kPos + 1
  }

  /** The index rule of `subtract_char`: `c_pos - (k_pos + 1)`. */
  function SubtractIndex(cPos: int, kPos: int): int {
    cPos - (kPos + 1)
  }

  /** `add_char`, used by Vigenère encryption: the new index is
      `c_pos + k_pos + 1`. */
  function AddChar(c: char, k: char): (r: char)
    requires ClassOf(k).Some?
    ensures r == Rotate(c, KeyShift(k))
  {
    ShiftCharWithKey(c, k, AddIndex)
  }

  /** `subtract_char`, used by Vigenère decryption: the new index is
      `c_pos - (k_pos + 1)`. */
  function SubtractChar(c: char, k: char): (r: char)
    requires ClassOf(k).Some?
    ensures r == Rotate(c, -KeyShift(k))
  {
    ShiftCharWithKey(c, k, SubtractIndex)
  }

  /** A member of `c`'s class at the offset the rotation picks is the
      rotation. */
  lemma RotateFromOffset(c: char, d: int, r: char, cls: SymbolClass)
    requires ClassOf(c) == Some(cls) && ClassOf(r) == Some(cls)
    requires Offset(r, cls) == Wrap(Offset(c, cls) + d, cls)
    ensures r == Rotate(c, d)
  {
    RotateCharacterised(c, d, r);
  }

  /** A character is the rotation of `c` by `d` exactly when it is `c` itself
      for a non-member, and otherwise the member of `c`'s class at offset
      `(Offset(c) + d) mod Size`. */
  lemma RotateCharacterised(c: char, d: int, r: char)
    ensures ClassOf(c).None? ==> (r == Rotate(c, d) <==> r == c)
    ensures ClassOf(c).Some? ==>
      var cls := ClassOf(c).value;
      (r == Rotate(c, d) <==>
        ClassOf(r) == Some(cls) && Offset(r, cls) == Wrap(Offset(c, cls) + d, cls))
  {
    match ClassOf(c)
    case None =>
    case Some(cls) =>
      var j := Wrap(Offset(c, cls) + d, cls);
      if ClassOf(r) == Some(cls) && Offset(r, cls) == j {
        OffsetDetermines(r, Member(cls, j), cls);
      }
  }

  // ---------------------------------------------------------------------
  // Arithmetic helpers
  // ---------------------------------------------------------------------

  /** Prepending one full copy of the key keeps a cycled sequence cycled. */
  lemma OneMoreCycle(key: string, rest: string)
    requires |key| > 0
    requires forall i :: 0 <= i < |rest| ==> rest[i] == key[i % |key|]
    ensures forall i :: 0 <= i < |key + rest| ==> (key + rest)[i] == key[i % |key|]
  {
    forall i | 0 <= i < |key + rest|
      ensures (key + rest)[i] == key[i % |key|]
    {
      if i < |key| {
        assert (key + rest)[i] == key[i];
        ModUnique(i, |key|, 0, i);
      } else {
        assert (key + rest)[i] == rest[i - |key|];
        ShiftByModulus(i - |key|, |key|);
      }
    }
  }

  lemma MultiplesCombine(x: int, y: int, m: int)
    requires m != 0 && x % m == 0 && y % m == 0
    ensures (x + y - m) % m == 0
  {
    var qx := x / m;
    var qy := y / m;
    assert x + y - m == (qx + qy - 1) * m;
    ModUnique(x + y - m, m, qx + qy - 1, 0);
  }

  lemma CongruentSameResidue(a: int, b: int, m: int)
    requires m > 0 && (a - b) % m == 0 && 0 <= b < m
    ensures a % m == b
  {
    ModUnique(a, m, (a - b) / m, b);
  }

  lemma ShiftByModulus(x: int, m: int)
    requires m > 0
    ensures (x + m) % m == x % m
  {
    ModUnique(x + m, m, x / m + 1, x % m);
  }

  /** Subtracting what was added before reducing gives back the residue. */
  lemma AddThenSubtract(o: int, d: int, m: int)
    requires m > 0 && 0 <= o < m
    ensures ((o + d) % m - d) % m == o
  {
    var q := (o + d) / m;
    assert (o + d) % m - d == (-q) * m + o;
    ModUnique((o + d) % m - d, m, -q, o);
  }

  lemma MulMod(q: int, m: int)
    requires m != 0
    ensures (q * m) % m == 0
  {
    ModUnique(q * m, m, q, 0);
  }

  lemma MulAbsMod(q: int, m: int)
    requires m != 0
    ensures (q * Abs(m)) % m == 0
  {
    var k := if m > 0 then q else -q;
    assert q * Abs(m) == k * m;
    MulMod(k, m);
  }

  /** A nonzero multiple of `m` is at least as large as `m` in magnitude. */
  lemma MulBound(k: int, m: int)
    requires k != 0 && m != 0
    ensures Abs(k * m) >= Abs(m)
  {
    AbsMul(k, m);
    MulAtLeast(Abs(k), Abs(m));
  }

  lemma AbsMul(k: int, m: int)
    ensures Abs(k * m) == Abs(k) * Abs(m)
  {
    if k < 0 && m < 0 {
      assert k * m == (-k) * (-m);
    } else if k < 0 {
      assert k * m == -((-k) * m);
    } else if m < 0 {
      assert k * m == -(k * (-m));
    }
  }

  lemma {:induction false} MulAtLeast(a: nat, b: nat)
    requires a >= 1
    ensures a * b >= b
    decreases a
  {
    if a > 1 {
      MulAtLeast(a - 1, b);
      assert a * b == (a - 1) * b + b;
    }
  }

  /** Euclidean division is unique: any quotient and in-range remainder for
      `a` are Dafny's `a / m` and `a % m`. */
  lemma ModUnique(a: int, m: int, q: int, r: int)
    requires m != 0 && a == q * m + r && 0 <= r < Abs(m)
    ensures a % m == r
  {
    var q' := a / m;
    var r' := a % m;
    assert a == q' * m + r';
    if q != q' {
      assert (q - q') * m == r' - r;
      MulBound(q - q', m);
      assert false;
    }
  }
}
