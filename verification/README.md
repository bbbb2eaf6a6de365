# Character-shifting ciphers

A Dafny model of the `ciphers` crate: an alphabet engine that shifts a character inside its own symbol class, and two classical ciphers built on it, Caesar and Vigenère.

- `wrappers.dfy` (`Wrappers`): `Option` with `OrElse`, and `Result`.
- `alphabet.dfy` (`Alphabet`): the engine in `ciphers/src/utils/alphabet.rs`. It covers:
  - the three class tables (upper-case letters, lower-case letters, digits);
  - `is_clean` and `repeat_key`;
  - the position search (`get_position`, `position_in_alphabet`);
  - Rust's truncating `%` and `modulo`;
  - `get_new_char`, `shift_char` and `shift_char_with_key`;
  - `add_char` and `subtract_char`.
- `alphabet_laws.dfy` (`AlphabetLaws`): laws of the shift and the values the unit tests of `alphabet.rs` expect. The laws are inverse, class preservation, wrap-around, and key-case irrelevance.
- `caesar.dfy` (`CaesarCipher`): `ciphers/src/caesar.rs`.
- `vigenere.dfy` (`VigenereCipher`): `ciphers/src/vigenere.rs`.
- `cipher.dfy` (`Ciphers`): the `Cipher` interface of `ciphers/src/utils/cipher.rs`, as a tagged union of the two ciphers.

## How the shift is stated

`Alphabet.Rotate(c, d)` is the reference shift, written independently of the source's table search:
- a member of a class moves `d` places inside its class, wrapping around;
- any other character is left alone.

Every operation of the source is proved equal to a rotation:
- `shift_char` with an index rule `f` rotates by `f(pos) - pos`;
- `shift_char_with_key` with a rule `f` rotates by `f(c_pos, k_pos) - c_pos`;
- Caesar rotates by `+key` and `-key`;
- Vigenère rotates by `±(k_pos + 1)` of the key letter at position `i` modulo the key length.

The round trips then follow from `Rotate(Rotate(c, d), -d) == c`.

`vigenere.rs` imports `add_char` and `subtract_char`, but `alphabet.rs` does not define them. The model defines them with the index rules of the `add_char` unit test: `c_pos + k_pos + 1` and `c_pos - (k_pos + 1)`.

Positions are mathematical integers. For Caesar decryption this matches a release build: the wrapping `usize` subtraction, cast to `i32`, gives the mathematical difference. Rust's `%` truncates toward zero and is modelled by `Alphabet.Rem`. `modulo` is built from it exactly as written, so its values for negative moduli are the source's.

## Model

| member | source | states |
|---|---|---|
| Alphabet.TableEntry | ciphers/src/utils/alphabet.rs:1-11 | Entry `i` of each table is the class member at offset `i`: the tables list A–Z, a–z and 0–9 in code-point order |
| Alphabet.TableMembership | ciphers/src/utils/alphabet.rs:1-11 | A character occurs in a class's table exactly when it lies in that class's code-point range |
| Alphabet.IsClean | ciphers/src/utils/alphabet.rs:14-16 | `is_clean` is true exactly when every character is an ASCII letter |
| Alphabet.RepeatKey | ciphers/src/utils/alphabet.rs:19-21 | With an empty key the result is empty; otherwise it has the text's length, and character `i` is `key[i mod n]` for a key of length `n` |
| Alphabet.GetPositionFirst | ciphers/src/utils/alphabet.rs:82-84 | `get_position` finds nothing exactly when the character is absent, and otherwise returns the index of its first occurrence |
| Alphabet.PositionFromFirst | ciphers/src/utils/alphabet.rs:82-84 | The scan from index `from` finds the first occurrence at or after `from`, or nothing when there is none |
| Alphabet.TablePosition | ciphers/src/utils/alphabet.rs:30-32 | Looking a character up in a class table gives its offset when it is a member, and nothing otherwise |
| Alphabet.PositionInAlphabet | ciphers/src/utils/alphabet.rs:28-34 | `position_in_alphabet` is `None` exactly for characters outside all three classes; otherwise it is the character's offset in its own class |
| Alphabet.Rem | ciphers/src/utils/alphabet.rs:88 | Rust's `%`: the remainder is smaller than the modulus in magnitude, has the dividend's sign, and differs from the dividend by a multiple of the modulus |
| Alphabet.Modulo | ciphers/src/utils/alphabet.rs:87-89 | For `m > 0` the result lies in `[0, m)` and is congruent to `n`; for `m < 0` it lies in `(m, 0]` and is congruent to `n` |
| Alphabet.GetNewChar | ciphers/src/utils/alphabet.rs:36-44 | The result is the member of the input's class at the wrapped index; for a character outside all classes it is the lower-case letter at that index |
| Alphabet.ShiftChar | ciphers/src/utils/alphabet.rs:65-79 | A character outside the classes comes back unchanged; a member at offset `o` is rotated by `getIndex(o) - o` |
| Alphabet.ShiftCharWithKey | ciphers/src/utils/alphabet.rs:46-62 | The key character must be in a class. A text character outside the classes is unchanged; a member at offset `o` is rotated by `func(o, key offset) - o` |
| Alphabet.AddChar | ciphers/src/utils/alphabet.rs:111-113 | With the rule `c_pos + k_pos + 1`, the text character is rotated by the key character's offset plus one |
| Alphabet.SubtractChar | ciphers/src/vigenere.rs:1 | With the rule `c_pos - (k_pos + 1)`, the text character is rotated back by the key character's offset plus one |
| Alphabet.RotateCharacterised | ciphers/src/utils/alphabet.rs:36-44 | A character is the rotation of `c` by `d` exactly when it is `c` itself for a non-member, and otherwise the member of `c`'s class at offset `(offset + d) mod size` |
| AlphabetLaws.RotateInverse | ciphers/src/utils/alphabet.rs:65-79 | Shifting forward by `d` and then backward by `d` gives the character back |
| AlphabetLaws.RotateInverseBackward | ciphers/src/utils/alphabet.rs:65-79 | Shifting backward by `d` and then forward by `d` gives the character back |
| AlphabetLaws.RotateKeepsClass | ciphers/src/utils/alphabet.rs:36-44 | A shift never moves a character into another class and leaves non-members alone |
| AlphabetLaws.RotatePeriodic | ciphers/src/utils/alphabet.rs:87-89 | A zero shift is the identity; adding the class size to a shift does not change the result |
| AlphabetLaws.SubtractUndoesAdd | ciphers/src/vigenere.rs:1 | `subtract_char` with key `k` undoes `add_char` with key `k` |
| AlphabetLaws.AddUndoesSubtract | ciphers/src/vigenere.rs:1 | `add_char` with key `k` undoes `subtract_char` with key `k` |
| AlphabetLaws.KeyCaseIrrelevant | ciphers/src/utils/alphabet.rs:28-34 | An upper-case key letter and its lower-case form have the same position, so they shift text characters alike |
| AlphabetLaws.ModuloVectors | ciphers/src/utils/alphabet.rs:126-131 | `modulo(5,3)=2`, `modulo(-5,3)=1`, `modulo(5,-3)=-1`, `modulo(-5,-3)=-2` |
| AlphabetLaws.ShiftCharForward | ciphers/src/utils/alphabet.rs:65-79 | `shift_char` with the rule `x + n` is the rotation by `n` |
| AlphabetLaws.ShiftCharBackward | ciphers/src/utils/alphabet.rs:65-79 | `shift_char` with the rule `x - n` is the rotation by `-n` |
| AlphabetLaws.ShiftCharVectors | ciphers/src/utils/alphabet.rs:135-136 | 'a' shifted by one and two gives 'b' and 'c' |
| AlphabetLaws.ShiftCharWrapVectors | ciphers/src/utils/alphabet.rs:138-139 | 'z' shifted by one and two wraps to 'a' and 'b' |
| AlphabetLaws.ShiftCharUpperVectors | ciphers/src/utils/alphabet.rs:141-143 | 'A' shifted by one gives 'B'; 'Z' wraps to 'A' |
| AlphabetLaws.AddCharValue | ciphers/src/utils/alphabet.rs:111-113 | Any rotation value of the text character by the key's shift is the value of `add_char` |
| AlphabetLaws.AddCharVectors | ciphers/src/utils/alphabet.rs:115-116 | `add_char('a','b')='c'` and `add_char('a','z')='a'` |
| AlphabetLaws.AddCharKeyVectors | ciphers/src/utils/alphabet.rs:117-118 | `add_char('z','a')='a'` and `add_char('a','Z')='a'` |
| AlphabetLaws.AddCharClassVectors | ciphers/src/utils/alphabet.rs:119-120 | A digit stays a digit (`'1'` to `'2'`) and a space passes through |
| AlphabetLaws.AddCharUpperVector | ciphers/src/utils/alphabet.rs:121 | `add_char('A','A')='B'` |
| AlphabetLaws.AddCharMixedCaseVector | ciphers/src/utils/alphabet.rs:122 | `add_char('T','c')='W'` |
| AlphabetLaws.IsCleanVectors | ciphers/src/utils/alphabet.rs:96-99 | "AGoodKey" is clean, "P3ssima Ch4av3!! lul" is not, and the empty string is clean |
| AlphabetLaws.RepeatKeyCycleVector | ciphers/src/utils/alphabet.rs:103-106 | A short key is cycled: "Key" over a 19-character text gives "KeyKeyKeyKeyKeyKeyK" |
| AlphabetLaws.RepeatKeyCutVector | ciphers/src/utils/alphabet.rs:107 | A long key is cut to the text's length: "KeyB" |
| CaesarCipher.New | ciphers/src/caesar.rs:10-15 | Construction succeeds exactly for keys 1 to 25 and keeps the key |
| CaesarCipher.Encrypt | ciphers/src/caesar.rs:17-23 | One output character per input character |
| CaesarCipher.Decrypt | ciphers/src/caesar.rs:25-32 | One output character per input character |
| CaesarCipher.EncryptAt | ciphers/src/caesar.rs:17-23 | Output character `i` is input character `i` rotated by `+key` in its class |
| CaesarCipher.DecryptAt | ciphers/src/caesar.rs:25-32 | Output character `i` is input character `i` rotated by `-key` in its class |
| CaesarCipher.DecryptEncrypt | ciphers/src/caesar.rs:17-32 | Decryption undoes encryption |
| CaesarCipher.EncryptDecrypt | ciphers/src/caesar.rs:17-32 | Encryption undoes decryption |
| CaesarCipher.KeepsClasses | ciphers/src/caesar.rs:17-32 | Both directions keep every character in its class; characters outside the classes, such as spaces, pass through |
| CaesarCipher.ShiftedAt | ciphers/src/caesar.rs:17-23 | Character `i` of the reference shift is text character `i` rotated |
| CaesarCipher.EncryptIsShifted | ciphers/src/caesar.rs:17-23 | `encrypt` equals the reference shift by `+key` |
| CaesarCipher.DecryptIsShifted | ciphers/src/caesar.rs:25-32 | `decrypt` equals the reference shift by `-key` |
| CaesarCipher.Concatenation | ciphers/src/caesar.rs:17-32 | Both directions distribute over concatenation of texts |
| CaesarCipher.EncryptVector | ciphers/src/caesar.rs:40-47 | Key 2 encrypts "The brown fox jumped over the lazy dog" to "Vjg dtqyp hqz lworgf qxgt vjg ncba fqi" |
| CaesarCipher.DecryptVector | ciphers/src/caesar.rs:49-54 | Key 2 decrypts "Fcpk Ecnkhqtpkc" to "Dani California" |
| VigenereCipher.New | ciphers/src/vigenere.rs:11-17 | As written: construction succeeds exactly for keys made only of ASCII letters, the empty key included |
| VigenereCipher.NewChecked | ciphers/src/vigenere.rs:11-17 | Corrected: construction succeeds exactly for non-empty keys made only of ASCII letters |
| VigenereCipher.Encrypt | ciphers/src/vigenere.rs:19-26 | With a non-empty key the output has the text's length; with the empty key it is empty |
| VigenereCipher.Decrypt | ciphers/src/vigenere.rs:28-35 | With a non-empty key the output has the text's length; with the empty key it is empty |
| VigenereCipher.ZipLength | ciphers/src/vigenere.rs:22 | `zip` forms as many pairs as the shorter of its two inputs has characters |
| VigenereCipher.EncryptAt | ciphers/src/vigenere.rs:19-26 | Output character `i` is text character `i` rotated by `+(k_pos + 1)` of key character `i` modulo the key length |
| VigenereCipher.DecryptAt | ciphers/src/vigenere.rs:28-35 | Output character `i` is text character `i` rotated by `-(k_pos + 1)` of key character `i` modulo the key length |
| VigenereCipher.DecryptEncrypt | ciphers/src/vigenere.rs:19-35 | For a clean non-empty key, decryption undoes encryption |
| VigenereCipher.EncryptDecrypt | ciphers/src/vigenere.rs:19-35 | For a clean non-empty key, encryption undoes decryption |
| VigenereCipher.KeepsClasses | ciphers/src/vigenere.rs:19-35 | Both directions keep every character in its class; characters outside the classes pass through |
| VigenereCipher.EmptyKeyLosesText | ciphers/src/vigenere.rs:11-26 | The empty key is accepted, both directions return the empty string, and the round trip of "abc" fails; the checked constructor rejects it |
| VigenereCipher.CheckedRoundTrip | ciphers/src/vigenere.rs:11-35 | Every cipher the checked constructor builds decrypts what it encrypts and the other way round |
| VigenereCipher.PassThroughUsesKey | ciphers/src/vigenere.rs:22 | A space uses up a key position: key "ab" encrypts "a a" to "b b" |
| VigenereCipher.WrapsInClass | ciphers/src/vigenere.rs:19-26 | Key "ba" encrypts "Z9" to "B0": upper-case letters and digits wrap inside their own class |
| Ciphers.New | ciphers/src/utils/cipher.rs:4 | Construction succeeds for Caesar keys 1 to 25 and for clean non-empty Vigenère keys, and always yields a valid cipher |
| Ciphers.Encrypt | ciphers/src/utils/cipher.rs:5 | Either cipher's encryption gives one output character per input character, and character `i` is input character `i` rotated forward by the cipher's shift at `i`: the Caesar key, or the shift of Vigenère key letter `i` modulo the key length |
| Ciphers.Decrypt | ciphers/src/utils/cipher.rs:6 | Either cipher's decryption gives one output character per input character, and character `i` is input character `i` rotated backward by the cipher's shift at `i` |
| Ciphers.RoundTrip | ciphers/src/utils/cipher.rs:1-7 | Whatever cipher a key builds, decryption undoes encryption and encryption undoes decryption |

## Left out

- Panics are modelled as failure results or preconditions. `Caesar::new` and `Vigenere::new` return `None` instead of panicking. `shift_char_with_key` requires a key character that belongs to a class.
- Machine widths are not modelled:
  - the `usize` underflow in Caesar decryption, which panics in debug builds when `pos < key`;
  - the `usize` to `i32` casts;
  - `i32` overflow.

  Positions are unbounded integers, which is what a release build computes for all inputs the ciphers produce.
- Byte length versus character count: `repeat_key` takes `text.len()` bytes, which for non-ASCII text exceeds the character count. The model uses the character count. `zip` truncates to the character count in either case.
- `char::is_numeric` and `char::is_uppercase` in `get_new_char` are modelled as membership in the digit and upper-case tables. `get_new_char` is only reached for class members, where the two agree.
- The expected string of the Vigenère unit test, "Wzn wjoe ex hkw cidqmtyfx", is not asserted. It changes case and inserts spaces that the algorithm cannot produce from "THECALLOFTHEMOUNTAINS". Derived vectors are proved instead.
- The `Cipher` trait's associated `KeyType` is modelled as the `Ciphers.Key` union. The dispatch uses the corrected Vigenère constructor, so every cipher it builds has a non-empty key.
- Alphabet.ShiftChar: the index rule is a function on integers rather than on `usize`, so a rule that would underflow in the source is not modelled.
- CaesarCipher.EncryptVector and CaesarCipher.DecryptVector are proved word by word (`EncryptWord1` to `EncryptWord8`, `DecryptWord1` to `DecryptWord3`), and the words are joined with `Concatenation`.

## Findings

| source | as written | input that shows it | evidently intended | confidence | as-written member | corrected member |
|---|---|---|---|---|---|---|
| ciphers/src/vigenere.rs:11-17 | `new` accepts every key that `is_clean` accepts, and `is_clean("")` is true | key "", text "abc": `encrypt` zips the text with an empty repeated key and returns "", so `decrypt(encrypt("abc"))` is "" | reject the empty key, so that decryption recovers every text | high that the round trip fails; not executed | VigenereCipher.EmptyKeyLosesText | VigenereCipher.CheckedRoundTrip |
