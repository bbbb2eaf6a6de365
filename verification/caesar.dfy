/** The Caesar cipher of `ciphers/src/caesar.rs`: every character is shifted
    by the same key inside its own symbol class. */
module CaesarCipher {
  import opened Wrappers
  import opened Alphabet
  import opened AlphabetLaws

  /** Rust's `u8`. */
  type Byte = x: int | 0 <= x < 256

  /** A Caesar cipher holds its key. */
  datatype Caesar = Caesar(key: Byte)

  /** `Caesar::new`: a key of 0 or of 26 and above is rejected (the source
      panics); any other key is kept as given. */
  function New(key: Byte): (r: Option<Caesar>)
    ensures r.Some? <==> 1 <= key < 26
    ensures r.Some? ==> r.value.key == key
  {
    if key == 0 || key >= 26 then None else Some(Caesar(key))
  }

  /** `encrypt`: the text's characters, each shifted with the index rule
      `pos + key`, in order. */
  function Encrypt(cipher: Caesar, text: string): (r: string)
    ensures |r| == |text|
  {
    seq(|text|, i requires 0 <= i < |text| => ShiftChar(text[i], Forward(cipher.key)))
  }

  /** `decrypt`: the text's characters, each shifted with the index rule
      `pos - key`, in order. */
  function Decrypt(cipher: Caesar, text: string): (r: string)
    ensures |r| == |text|
  {
    seq(|text|, i requires 0 <= i < |text| => ShiftChar(text[i], Backward(cipher.key)))
  }

  /** Output character `i` of `encrypt` is input character `i` shifted
      forward by the key inside its class. */
  lemma EncryptAt(cipher: Caesar, text: string, i: int)
    requires 0 <= i < |text|
    ensures Encrypt(cipher, text)[i] == Rotate(text[i], cipher.key)
  {
    hide ShiftChar;
    ShiftCharForward(text[i], cipher.key);
  }

  /** Output character `i` of `decrypt` is input character `i` shifted
      backward by the key inside its class. */
  lemma DecryptAt(cipher: Caesar, text: string, i: int)
    requires 0 <= i < |text|
    ensures Decrypt(cipher, text)[i] == Rotate(text[i], -(cipher.key as int))
  {
    hide ShiftChar;
    ShiftCharBackward(text[i], cipher.key);
  }

  /** Decryption undoes encryption, for every key. */
  lemma DecryptEncrypt(cipher: Caesar, text: string)
    ensures Decrypt(cipher, Encrypt(cipher, text)) == text
  {
    hide ShiftChar;
    var e := Encrypt(cipher, text);
    forall i | 0 <= i < |text|
      ensures Decrypt(cipher, e)[i] == text[i]
    {
      EncryptAt(cipher, text, i);
      DecryptAt(cipher, e, i);
      RotateInverse(text[i], cipher.key);
    }
  }

  /** Encryption undoes decryption, for every key. */
  lemma EncryptDecrypt(cipher: Caesar, text: string)
    ensures Encrypt(cipher, Decrypt(cipher, text)) == text
  {
    hide ShiftChar;
    var d := Decrypt(cipher, text);
    forall i | 0 <= i < |text|
      ensures Encrypt(cipher, d)[i] == text[i]
    {
      DecryptAt(cipher, text, i);
      EncryptAt(cipher, d, i);
      RotateInverseBackward(text[i], cipher.key);
    }
  }

  /** Both directions keep every character in its class, and characters
      outside the three classes, such as spaces, pass through unchanged. */
  lemma KeepsClasses(cipher: Caesar, text: string, i: int)
    requires 0 <= i < |text|
    ensures ClassOf(Encrypt(cipher, text)[i]) == ClassOf(text[i])
    ensures ClassOf(Decrypt(cipher, text)[i]) == ClassOf(text[i])
    ensures ClassOf(text[i]).None? ==>
      Encrypt(cipher, text)[i] == text[i] && Decrypt(cipher, text)[i] == text[i]
  {
    EncryptAt(cipher, text, i);
    DecryptAt(cipher, text, i);
    RotateKeepsClass(text[i], cipher.key);
    RotateKeepsClass(text[i], -(cipher.key as int));
  }
  /** The reference Caesar shift of the first `n` characters of a text:
      each one rotated by `d` inside its class, in order. */
  function Shifted(text: string, d: int, n: nat): (r: string)
    requires n <= |text|
    ensures |r| == n
  {
    if n == 0 then [] else Shifted(text, d, n - 1) + [Rotate(text[n - 1], d)]
  }

  /** Character `i` of the reference shift is character `i` of the text,
      rotated. */
  lemma {:induction false} ShiftedAt(text: string, d: int, n: nat, i: int)
    requires n <= |text| && 0 <= i < n
    ensures Shifted(text, d, n)[i] == Rotate(text[i], d)
    decreases n
  {
    if i < n - 1 {
      ShiftedAt(text, d, n - 1, i);
    }
  }

  /** `encrypt` is the reference shift by the key. */
  lemma EncryptIsShifted(cipher: Caesar, text: string)
    ensures Encrypt(cipher, text) == Shifted(text, cipher.key, |text|)
  {
    hide ShiftChar;
    forall i | 0 <= i < |text|
      ensures Encrypt(cipher, text)[i] == Shifted(text, cipher.key, |text|)[i]
    {
      EncryptAt(cipher, text, i);
      ShiftedAt(text, cipher.key, |text|, i);
    }
  }

  /** `decrypt` is the reference shift by minus the key. */
  lemma DecryptIsShifted(cipher: Caesar, text: string)
    ensures Decrypt(cipher, text) == Shifted(text, -(cipher.key as int), |text|)
  {
    hide ShiftChar, Shifted;
    var d := -(cipher.key as int);
    var r := Shifted(text, d, |text|);
    forall i | 0 <= i < |text|
      ensures Decrypt(cipher, text)[i] == r[i]
    {
      DecryptAt(cipher, text, i);
      ShiftedAt(text, d, |text|, i);
    }
  }

  /** Both directions work character by character, so they distribute over
      concatenation. */
  lemma Concatenation(cipher: Caesar, a: string, b: string)
    ensures Encrypt(cipher, a + b) == Encrypt(cipher, a) + Encrypt(cipher, b)
    ensures Decrypt(cipher, a + b) == Decrypt(cipher, a) + Decrypt(cipher, b)
  {
    hide ShiftChar;
    forall i | 0 <= i < |a + b|
      ensures Encrypt(cipher, a + b)[i] == (Encrypt(cipher, a) + Encrypt(cipher, b))[i]
      ensures Decrypt(cipher, a + b)[i] == (Decrypt(cipher, a) + Decrypt(cipher, b))[i]
    {
      if i < |a| {
        assert (a + b)[i] == a[i];
      } else {
        assert (a + b)[i] == b[i - |a|];
      }
    }
  }

  // The source's test vectors are checked word by word: each word below is
  // evaluated against the reference shift, and `Concatenation` joins them.

  lemma EncryptWord1()
    ensures Encrypt(Caesar(2), "The ") == "Vjg "
  {
    hide ShiftChar;
    EncryptIsShifted(Caesar(2), "The ");
  }

  lemma EncryptWord2()
    ensures Encrypt(Caesar(2), "brown ") == "dtqyp "
  {
    hide ShiftChar;
    EncryptIsShifted(Caesar(2), "brown ");
  }

  lemma EncryptWord3()
    ensures Encrypt(Caesar(2), "fox ") == "hqz "
  {
    hide ShiftChar;
    EncryptIsShifted(Caesar(2), "fox ");
  }

  lemma EncryptWord4()
    ensures Encrypt(Caesar(2), "jumped ") == "lworgf "
  {
    hide ShiftChar;
    EncryptIsShifted(Caesar(2), "jumped ");
  }

  lemma EncryptWord5()
    ensures Encrypt(Caesar(2), "over ") == "qxgt "
  {
    hide ShiftChar;
    EncryptIsShifted(Caesar(2), "over ");
  }

  lemma EncryptWord6()
    ensures Encrypt(Caesar(2), "the ") == "vjg "
  {
    hide ShiftChar;
    EncryptIsShifted(Caesar(2), "the ");
  }

  lemma EncryptWord7()
    ensures Encrypt(Caesar(2), "lazy ") == "ncba "
  {
    hide ShiftChar;
    EncryptIsShifted(Caesar(2), "lazy ");
  }

  lemma EncryptWord8()
    ensures Encrypt(Caesar(2), "dog") == "fqi"
  {
    hide ShiftChar;
    EncryptIsShifted(Caesar(2), "dog");
  }

  lemma DecryptWord1()
    ensures Decrypt(Caesar(2), "Fcpk ") == "Dani "
  {
    hide ShiftChar;
    DecryptIsShifted(Caesar(2), "Fcpk ");
  }

  lemma DecryptWord2()
    ensures Decrypt(Caesar(2), "Ecnkh") == "Calif"
  {
    hide ShiftChar;
    DecryptIsShifted(Caesar(2), "Ecnkh");
  }

  lemma DecryptWord3()
    ensures Decrypt(Caesar(2), "qtpkc") == "ornia"
  {
    hide ShiftChar;
    DecryptIsShifted(Caesar(2), "qtpkc");
  }

  /** The source's encryption test, key 2, with the sentence written as the
      concatenation of its words. */
  lemma EncryptVectorByWords()
    ensures Encrypt(Caesar(2), "The " + "brown " + "fox " + "jumped " + "over " + "the " + "lazy " + "dog")
         == "Vjg " + "dtqyp " + "hqz " + "lworgf " + "qxgt " + "vjg " + "ncba " + "fqi"
  {
    hide ShiftChar;
    var c := Caesar(2);
    EncryptWord1();
    EncryptWord2();
    EncryptWord3();
    EncryptWord4();
    EncryptWord5();
    EncryptWord6();
    EncryptWord7();
    EncryptWord8();
    Concatenation(c, "The ", "brown ");
    Concatenation(c, "The " + "brown ", "fox ");
    Concatenation(c, "The " + "brown " + "fox ", "jumped ");
    Concatenation(c, "The " + "brown " + "fox " + "jumped ", "over ");
    Concatenation(c, "The " + "brown " + "fox " + "jumped " + "over ", "the ");
    Concatenation(c, "The " + "brown " + "fox " + "jumped " + "over " + "the ", "lazy ");
    Concatenation(c, "The " + "brown " + "fox " + "jumped " + "over " + "the " + "lazy ", "dog");
  }

  /** The source's encryption test: key 2 on a pangram. */
  lemma EncryptVector()
    ensures New(2) == Some(Caesar(2))
    ensures Encrypt(Caesar(2), "The brown fox jumped over the lazy dog")
         == "Vjg dtqyp hqz lworgf qxgt vjg ncba fqi"
  {
    hide Encrypt;
    EncryptVectorByWords();
    PangramSpelling();
    EncryptedPangramSpelling();
  }

  lemma PangramSpelling()
    ensures "The " + "brown " + "fox " + "jumped " + "over " + "the " + "lazy " + "dog" == "The brown fox jumped over the lazy dog"
  {
  }

  lemma EncryptedPangramSpelling()
    ensures "Vjg " + "dtqyp " + "hqz " + "lworgf " + "qxgt " + "vjg " + "ncba " + "fqi" == "Vjg dtqyp hqz lworgf qxgt vjg ncba fqi"
  {
  }

  /** The source's decryption test: key 2. */
  lemma DecryptVector()
    ensures Decrypt(Caesar(2), "Fcpk Ecnkhqtpkc") == "Dani California"
  {
    hide ShiftChar;
    var c := Caesar(2);
    DecryptWord1();
    DecryptWord2();
    DecryptWord3();
    Concatenation(c, "Fcpk ", "Ecnkh");
    Concatenation(c, "Fcpk " + "Ecnkh", "qtpkc");
    assert "Fcpk " + "Ecnkh" + "qtpkc" == "Fcpk Ecnkhqtpkc";
    assert "Dani " + "Calif" + "ornia" == "Dani California";
  }
}
