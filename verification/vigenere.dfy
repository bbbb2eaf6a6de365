/** The Vigenère cipher of `ciphers/src/vigenere.rs`: text character `i` is
    shifted inside its class by the key character the repeated key puts at
    position `i`. */
module VigenereCipher {
  import opened Wrappers
  import opened Alphabet
  import opened AlphabetLaws

  /** A Vigenère cipher holds its key. */
  datatype Vigenere = Vigenere(key: string)

  /** `Vigenere::new`, as written: a key is accepted exactly when it is
      clean, and the empty key is clean (the source panics otherwise). */
  function New(key: string): (r: Option<Vigenere>)
    ensures r.Some? <==> forall i :: 0 <= i < |key| ==> IsAsciiAlphabetic(key[i])
    ensures r.Some? ==> r.value.key == key
  {
    if IsClean(key) then Some(Vigenere(key)) else None
  }

  /** The constructor with the empty key also rejected: the key must be
      clean and non-empty. */
  function NewChecked(key: string): (r: Option<Vigenere>)
    ensures r.Some? <==> |key| > 0 && forall i :: 0 <= i < |key| ==> IsAsciiAlphabetic(key[i])
    ensures r.Some? ==> r.value.key == key
  {
    if |key| == 0 then None else New(key)
  }

  /** Every character of a clean key belongs to a class, so it can drive
      `add_char` and `subtract_char`. */
  lemma CleanKeyShifts(key: string, i: int)
    requires IsClean(key) && 0 <= i < |key|
    ensures ClassOf(key[i]).Some?
  {
  }

  /** The number of pairs `zip` forms: the shorter length. */
  function ZipLength(text: string, keys: string): (n: nat)
    ensures n <= |text| && n <= |keys|
    ensures n == |text| || n == |keys|
  {
    if |keys| < |text| then |keys| else |text|
  }

  /** `encrypt`: the text zipped with the repeated key, each pair combined
      by `add_char`. */
  function Encrypt(cipher: Vigenere, text: string): (r: string)
    requires IsClean(cipher.key)
    ensures |cipher.key| > 0 ==> |r| == |text|
    ensures |cipher.key| == 0 ==> r == []
  {
    var keys := RepeatKey(text, cipher.key);
    seq(ZipLength(text, keys), i requires 0 <= i < ZipLength(text, keys) =>
      CleanKeyShifts(cipher.key, i % |cipher.key|);
      AddChar(text[i], keys[i]))
  }

  /** `decrypt`: the text zipped with the repeated key, each pair combined
      by `subtract_char`. */
  function Decrypt(cipher: Vigenere, text: string): (r: string)
    requires IsClean(cipher.key)
    ensures |cipher.key| > 0 ==> |r| == |text|
    ensures |cipher.key| == 0 ==> r == []
  {
    var keys := RepeatKey(text, cipher.key);
    seq(ZipLength(text, keys), i requires 0 <= i < ZipLength(text, keys) =>
      CleanKeyShifts(cipher.key, i % |cipher.key|);
      SubtractChar(text[i], keys[i]))
  }

  /** Output character `i` of `encrypt` is text character `i` shifted
      forward by the shift of key character `i mod |key|`; every text
      character, a space included, uses up one key position. */
  lemma EncryptAt(cipher: Vigenere, text: string, i: int)
    requires IsClean(cipher.key) && |cipher.key| > 0 && 0 <= i < |text|
    ensures ClassOf(cipher.key[i % |cipher.key|]).Some?
    ensures Encrypt(cipher, text)[i] == Rotate(text[i], KeyShift(cipher.key[i % |cipher.key|]))
  {
    hide AddChar, ShiftCharWithKey, Rotate;
    CleanKeyShifts(cipher.key, i % |cipher.key|);
  }

  /** Output character `i` of `decrypt` is text character `i` shifted
      backward by the shift of key character `i mod |key|`. */
  lemma DecryptAt(cipher: Vigenere, text: string, i: int)
    requires IsClean(cipher.key) && |cipher.key| > 0 && 0 <= i < |text|
    ensures ClassOf(cipher.key[i % |cipher.key|]).Some?
    ensures Decrypt(cipher, text)[i] == Rotate(text[i], -KeyShift(cipher.key[i % |cipher.key|]))
  {
    hide SubtractChar, ShiftCharWithKey, Rotate;
    CleanKeyShifts(cipher.key, i % |cipher.key|);
  }

  /** Decryption undoes encryption for every clean, non-empty key. */
  lemma DecryptEncrypt(cipher: Vigenere, text: string)
    requires IsClean(cipher.key) && |cipher.key| > 0
    ensures Decrypt(cipher, Encrypt(cipher, text)) == text
  {
    hide Encrypt, Decrypt, AddChar, SubtractChar, Rotate;
    var e := Encrypt(cipher, text);
    forall i | 0 <= i < |text|
      ensures Decrypt(cipher, e)[i] == text[i]
    {
      var k := cipher.key[i % |cipher.key|];
      EncryptAt(cipher, text, i);
      DecryptAt(cipher, e, i);
      RotateInverse(text[i], KeyShift(k));
    }
  }

  /** Encryption undoes decryption for every clean, non-empty key. */
  lemma EncryptDecrypt(cipher: Vigenere, text: string)
    requires IsClean(cipher.key) && |cipher.key| > 0
    ensures Encrypt(cipher, Decrypt(cipher, text)) == text
  {
    hide Encrypt, Decrypt, AddChar, SubtractChar, Rotate;
    var d := Decrypt(cipher, text);
    forall i | 0 <= i < |text|
      ensures Encrypt(cipher, d)[i] == text[i]
    {
      var k := cipher.key[i % |cipher.key|];
      DecryptAt(cipher, text, i);
      EncryptAt(cipher, d, i);
      RotateInverseBackward(text[i], KeyShift(k));
    }
  }

  /** Both directions keep every character in its class and pass characters
      outside the classes through unchanged. */
  lemma KeepsClasses(cipher: Vigenere, text: string, i: int)
    requires IsClean(cipher.key) && |cipher.key| > 0 && 0 <= i < |text|
    ensures ClassOf(Encrypt(cipher, text)[i]) == ClassOf(text[i])
    ensures ClassOf(Decrypt(cipher, text)[i]) == ClassOf(text[i])
    ensures ClassOf(text[i]).None? ==>
      Encrypt(cipher, text)[i] == text[i] && Decrypt(cipher, text)[i] == text[i]
  {
    var k := cipher.key[i % |cipher.key|];
    EncryptAt(cipher, text, i);
    DecryptAt(cipher, text, i);
    RotateKeepsClass(text[i], KeyShift(k));
    RotateKeepsClass(text[i], -KeyShift(k));
  }

  /** The empty key, which `new` accepts, makes both directions return the
      empty string, so decryption does not recover a non-empty text. The
      checked constructor rejects it. */
  lemma EmptyKeyLosesText()
    ensures New("") == Some(Vigenere(""))
    ensures Encrypt(Vigenere(""), "abc") == ""
    ensures Decrypt(Vigenere(""), Encrypt(Vigenere(""), "abc")) != "abc"
    ensures NewChecked("") == None
  {
  }

  /** Every cipher the checked constructor builds decrypts what it encrypts,
      and the other way round. */
  lemma CheckedRoundTrip(key: string, text: string)
    requires NewChecked(key).Some?
    ensures var v := NewChecked(key).value;
      Decrypt(v, Encrypt(v, text)) == text && Encrypt(v, Decrypt(v, text)) == text
  {
    var v := NewChecked(key).value;
    DecryptEncrypt(v, text);
    EncryptDecrypt(v, text);
  }

  /** A space still uses up a key position: with the key "ab" the second
      'a' of "a a" meets key letter 'a' again, not 'b'. */
  lemma PassThroughUsesKey()
    ensures Encrypt(Vigenere("ab"), "a a") == "b b"
  {
    hide AddChar, ShiftCharWithKey;
    var v := Vigenere("ab");
    EncryptAt(v, "a a", 0);
    EncryptAt(v, "a a", 1);
    EncryptAt(v, "a a", 2);
  }

  /** Upper-case letters and digits wrap around inside their own class:
      key letter 'b' shifts 'Z' by two and key letter 'a' shifts '9' by one. */
  lemma WrapsInClass()
    ensures Encrypt(Vigenere("ba"), "Z9") == "B0"
  {
    hide AddChar, ShiftCharWithKey;
    var v := Vigenere("ba");
    EncryptAt(v, "Z9", 0);
    EncryptAt(v, "Z9", 1);
  }
}
