/** The `Cipher` interface of `ciphers/src/utils/cipher.rs`, as a tagged
    union of the two ciphers: construction from a key, then encryption and
    decryption of text. */
module Ciphers {
  import opened Wrappers
  import opened Alphabet
  import CaesarCipher
  import VigenereCipher

  /** A key of either cipher's key type. */
  datatype Key = CaesarKey(shift: CaesarCipher.Byte) | VigenereKey(word: string)

  /** A constructed cipher. */
  datatype Cipher =
    | Caesar(caesar: CaesarCipher.Caesar)
    | Vigenere(vigenere: VigenereCipher.Vigenere)
  {
    /** The invariant the constructors establish. */
    predicate Valid() {
      match this
      case Caesar(c) => 1 <= c.key < 26
      case Vigenere(v) => IsClean(v.key) && |v.key| > 0
    }
  }

  /** `new`: the Caesar constructor, or the Vigenère constructor that also
      rejects the empty key. */
  function New(key: Key): (r: Option<Cipher>)
    ensures r.Some? ==> r.value.Valid()
    ensures key.CaesarKey? ==> (r.Some? <==> 1 <= key.shift < 26)
    ensures key.VigenereKey? ==> (r.Some? <==> IsClean(key.word) && |key.word| > 0)
  {
    match key
    case CaesarKey(k) =>
      (match CaesarCipher.New(k)
       case Some(c) => Some(Caesar(c))
       case None => None)
    case VigenereKey(w) =>
      (match VigenereCipher.NewChecked(w)
       case Some(v) => Some(Vigenere(v))
       case None => None)
  }

  /** The shift a valid cipher applies at position `i` of a text: the
      Caesar key at every position, or the shift of Vigenère key letter
      `i mod |key|`. */
  function ShiftAt(cipher: Cipher, i: nat): int
    requires cipher.Valid()
  {
    match cipher
    case Caesar(c) => c.key
    case Vigenere(v) =>
      VigenereCipher.CleanKeyShifts(v.key, i % |v.key|);
      KeyShift(v.key[i % |v.key|])
  }

  /** `encrypt`, dispatched to the cipher at hand: either cipher rotates
      text character `i` forward by its shift at position `i`. */
  function Encrypt(cipher: Cipher, text: string): (r: string)
    requires cipher.Valid()
    ensures |r| == |text|
    ensures forall i :: 0 <= i < |text| ==> r[i] == Rotate(text[i], ShiftAt(cipher, i))
  {
    match cipher
    case Caesar(c) =>
      var r := CaesarCipher.Encrypt(c, text);
      assert forall i :: 0 <= i < |text| ==> r[i] == Rotate(text[i], ShiftAt(cipher, i)) by {
        hide ShiftChar;
        forall i | 0 <= i < |text| ensures r[i] == Rotate(text[i], ShiftAt(cipher, i)) {
          CaesarCipher.EncryptAt(c, text, i);
        }
      }
      r
    case Vigenere(v) =>
      var r := VigenereCipher.Encrypt(v, text);
      assert forall i :: 0 <= i < |text| ==> r[i] == Rotate(text[i], ShiftAt(cipher, i)) by {
        hide AddChar, ShiftCharWithKey, Rotate;
        forall i | 0 <= i < |text| ensures r[i] == Rotate(text[i], ShiftAt(cipher, i)) {
          VigenereCipher.EncryptAt(v, text, i);
        }
      }
      r
  }

  /** `decrypt`, dispatched to the cipher at hand: either cipher rotates
      text character `i` backward by its shift at position `i`. */
  function Decrypt(cipher: Cipher, text: string): (r: string)
    requires cipher.Valid()
    ensures |r| == |text|
    ensures forall i :: 0 <= i < |text| ==> r[i] == Rotate(text[i], -ShiftAt(cipher, i))
  {
    match cipher
    case Caesar(c) =>
      var r := CaesarCipher.Decrypt(c, text);
      assert forall i :: 0 <= i < |text| ==> r[i] == Rotate(text[i], -ShiftAt(cipher, i)) by {
        hide ShiftChar;
        forall i | 0 <= i < |text| ensures r[i] == Rotate(text[i], -ShiftAt(cipher, i)) {
          CaesarCipher.DecryptAt(c, text, i);
        }
      }
      r
    case Vigenere(v) =>
      var r := VigenereCipher.Decrypt(v, text);
      assert forall i :: 0 <= i < |text| ==> r[i] == Rotate(text[i], -ShiftAt(cipher, i)) by {
        hide SubtractChar, ShiftCharWithKey, Rotate;
        forall i | 0 <= i < |text| ensures r[i] == Rotate(text[i], -ShiftAt(cipher, i)) {
          VigenereCipher.DecryptAt(v, text, i);
        }
      }
      r
  }

  /** Whatever cipher a key builds, decryption undoes encryption and
      encryption undoes decryption. */
  lemma RoundTrip(key: Key, text: string)
    requires New(key).Some?
    ensures Decrypt(New(key).value, Encrypt(New(key).value, text)) == text
    ensures Encrypt(New(key).value, Decrypt(New(key).value, text)) == text
  {
    match New(key).value
    case Caesar(c) =>
      CaesarCipher.DecryptEncrypt(c, text);
      CaesarCipher.EncryptDecrypt(c, text);
    case Vigenere(v) =>
      VigenereCipher.DecryptEncrypt(v, text);
      VigenereCipher.EncryptDecrypt(v, text);
  }
}
