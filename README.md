# romaji-to-kana: the hiragana transliteration engine

This project models `to_hiragana` in `src/rtk/main.py`, the engine of the
romaji-to-kana flashcard tool. It is ordered substring rewriting:

1. lower-case and strip the text;
2. the gemination pass: for each consonant of `"zrtpqsdfghjklmwxcvb"`, in
   that order, replace every doubled consonant `cc` by the small tsu `っ`
   followed by `c`;
3. the table pass: for each `(romaji, hiragana)` entry of the
   transliteration table, in the table's order, replace every occurrence of
   the romaji by the hiragana;
4. strip the result.

Files:

- `pystr.dfy` (module `PyStr`) holds the three Python `str` methods the
  engine calls: `lower`, `strip` and `replace`.
  - `ReplaceAll` models `str.replace` as a left-to-right scan. This
    includes Python's behaviour for an empty pattern.
  - `ReplaceAll` is proved equal to an independent reference: cut the text
    at the leftmost non-overlapping matches (`Split`, built on `Find`), then
    join the pieces with the replacement.
- `hiragana.dfy` (module `Hiragana`) holds the engine.
  - `ToHiragana` is a method that reassigns one string as the Python
    function does. It normalises the text, calls `GeminateAll` and
    `ReplaceEntries`, which hold the two `for` loops, and strips the result.
  - The loops are proved against `GeminationPass` and `TablePass`, which are
    left folds of `ReplaceAll`. The result of `ToHiragana` is proved equal to
    `HiraganaOf`, and the engine's properties are stated about `HiraganaOf`.
  - Lemmas state what the two passes and the whole engine guarantee.
- `vectors.dfy` (module `HiraganaVectors`) proves every expectation of
  `tests/test_to_hiragana.py`.
  - The table is not part of this model, so each word runs with the fragment
    of the table it needs.
  - Each fragment lists a key before the shorter keys inside it, for example
    `"ga"` before `"a"`.

The transliteration table `ROMANJI_TO_HIRAGANAS` (`rtk/hiraganas.py`) is not
part of this model. The engine takes the table as a parameter: an ordered
sequence of (romaji, hiragana) pairs in dictionary insertion order.

Two consequences of the code that the model keeps:

- `cc` is replaced leftmost-first without overlap, so `"ttt"` becomes
  `"っtt"` and `"tttt"` becomes `"っtっt"` (`HiraganaVectors.GeminateLeftmost`).
- The engine applies the entries in whatever order the table has. Nothing
  checks that a key comes before the shorter keys inside it.

## Model

| member | source | states |
|---|---|---|
| Hiragana.ToHiragana | src/rtk/main.py:4-19 | the method's result is `HiraganaOf(text, table)`: strip(lower), gemination pass, table pass, strip, in that order; the result has no whitespace at either end |
| Hiragana.HiraganaOf | src/rtk/main.py:4-19 | what `to_hiragana` returns: `Strip(TablePass(GeminationPass(Strip(Lower(text)), Consonants), table))`; the result never has whitespace at either end |
| Hiragana.Geminate | src/rtk/main.py:15 | one gemination step `text.replace(c * 2, "っ" + c)`; it keeps the length of the text |
| Hiragana.GeminationPass | src/rtk/main.py:14-15 | the left fold of `Geminate` over a consonant list in order (`Consonants` is `"zrtpqsdfghjklmwxcvb"`); it keeps the length of the text |
| Hiragana.TablePass | src/rtk/main.py:17-18 | the left fold of `ReplaceAll(text, romaji, hiragana)` over the entries in table order; when every key has the length of its value, it keeps the length of the text |
| Hiragana.GeminateAll | src/rtk/main.py:14-15 | the loop over the consonants ends with the left fold of `text.replace(c * 2, "っ" + c)` over `"zrtpqsdfghjklmwxcvb"` in order |
| Hiragana.ReplaceEntries | src/rtk/main.py:17-18 | the loop over the table ends with the left fold of `text.replace(romaji, hiragana)` over the entries in table order |
| PyStr.Lower | src/rtk/main.py:13 | `lower()` keeps the length, leaves no upper-case ASCII letter, keeps every other character and maps A-Z to a-z |
| PyStr.LowerIdempotent | src/rtk/main.py:13 | lowering twice is lowering once |
| PyStr.LowerOfSameIgnoringCase | src/rtk/main.py:13 | strings that differ only in ASCII case lower to the same string |
| PyStr.LowerOfLowercase | src/rtk/main.py:13 | a string without upper-case ASCII letters is its own lower-case form |
| PyStr.LStrip | src/rtk/main.py:13 | the result is a suffix of the input, everything removed is whitespace, and it does not start with whitespace |
| PyStr.RStrip | src/rtk/main.py:13 | the result is a prefix of the input, everything removed is whitespace, and it does not end with whitespace |
| PyStr.Strip | src/rtk/main.py:13 | `strip()` returns a slice of the input with only whitespace on either side of it, and with no whitespace at either end |
| PyStr.StripFixedPoint | src/rtk/main.py:19 | `strip()` returns its input exactly when the input has no whitespace at either end |
| PyStr.ReplaceAllIsJoinSplit | src/rtk/main.py:15 | for a non-empty pattern, `s.replace(p, r)` equals `r.join(s.split(p))` |
| PyStr.SplitJoin | src/rtk/main.py:15 | joining the pieces of `s.split(p)` with `p` gives `s` back |
| PyStr.SplitIsLeftmost | src/rtk/main.py:15 | the cuts are leftmost and non-overlapping: no piece contains `p`, and no occurrence of `p` starts inside a piece that a separator follows |
| PyStr.FindLeftmost | src/rtk/main.py:15 | `Find` is -1 exactly when `p` does not occur; otherwise it is a match with no match before it |
| PyStr.StartsWithMatchAt | src/rtk/main.py:15 | the character-wise prefix test agrees with a match at index 0 |
| PyStr.Interleave | src/rtk/main.py:18 | `s.replace("", r)` has one copy of `r` per gap: length `|s| + (|s| + 1) * |r|` |
| PyStr.ReplaceAll | src/rtk/main.py:15 | a replacement whose length equals the pattern's keeps the length of the text |
| PyStr.ReplaceAllAbsent | src/rtk/main.py:18 | without an occurrence of a non-empty pattern, `replace` returns the text unchanged |
| PyStr.ReplaceAllUndo | src/rtk/main.py:15 | when the replacement's first character never occurs in the text, replacing back restores the text |
| PyStr.ReplaceAllSkipsPrefix | src/rtk/main.py:18 | a prefix without the pattern's first character passes through unchanged, and the rest is replaced on its own |
| PyStr.ReplaceAllOnce | src/rtk/main.py:18 | a single occurrence of `p`, with the first character of `p` nowhere else in the text, is the only thing replaced |
| PyStr.ReplaceAllWithoutFirst | src/rtk/main.py:18 | a text without the pattern's first character is returned unchanged |
| PyStr.ReplaceAllAtMatch | src/rtk/main.py:18 | a match at the front becomes the replacement, and the scan resumes after the match |
| PyStr.ReplaceAllSkipsChar | src/rtk/main.py:18 | a character that does not start a match is kept, and the scan resumes at the next character |
| Hiragana.GeminateStep | src/rtk/main.py:15 | one gemination step keeps the length, and it only turns the first of two `c`s into `っ` with the `c` kept after it |
| Hiragana.GeminationPositions | src/rtk/main.py:14-15 | the pass keeps the length; each position is unchanged, or held a listed consonant that was doubled and now holds `っ` followed by that consonant |
| Hiragana.ConsonantsDistinct | src/rtk/main.py:14 | the consonant list names each consonant once and never the small tsu |
| Hiragana.NonConsonantsKept | src/rtk/main.py:14 | characters outside the consonant list (vowels, `n`, `y`, ...) are never changed by the gemination pass |
| Hiragana.GeminationPassAppend | src/rtk/main.py:14-15 | the pass over two consonant lists, one after the other, is the pass over their concatenation |
| Hiragana.GeminationPassIdentity | src/rtk/main.py:14-15 | without a doubled listed consonant the gemination pass changes nothing |
| Hiragana.GeminationSingleStep | src/rtk/main.py:14-15 | when only one consonant's step changes the text, the pass is that single step |
| Hiragana.GeminateUndo | src/rtk/main.py:15 | on text without `っ`, a gemination step is undone by replacing `っc` by `cc` |
| Hiragana.TablePassAppend | src/rtk/main.py:17-18 | the pass over two tables, one after the other, is the pass over their concatenation |
| Hiragana.TablePassCons | src/rtk/main.py:17-18 | the first entry rewrites the text before the rest of the table sees it |
| Hiragana.TablePassTrace | src/rtk/main.py:17-18 | when entry `k` turns the `k`-th intermediate text into the next one, the pass ends in the last intermediate text |
| Hiragana.TablePassAbsent | src/rtk/main.py:17-18 | when no (non-empty) key occurs in the text, the table pass changes nothing |
| Hiragana.HiraganaOfStripped | src/rtk/main.py:19 | the result never starts or ends with whitespace, whatever the table's values hold |
| Hiragana.HiraganaOfStages | src/rtk/main.py:13-19 | for lower-case, stripped input, the result is the text after the two passes, if that text has no edge whitespace |
| Hiragana.CaseInsensitive | src/rtk/main.py:13 | inputs that differ only in ASCII case give the same hiragana |
| Hiragana.LowerFirst | src/rtk/main.py:13 | `to_hiragana(s.lower()) == to_hiragana(s)` |
| Hiragana.EmptyInput | src/rtk/main.py:13-19 | the empty text gives the empty text when every key is non-empty |
| Hiragana.EmptyKeyOnEmptyInput | src/rtk/main.py:18 | with an empty key the empty text does not stay empty, because `"".replace("", x)` is `x` |
| Hiragana.PassThrough | src/rtk/main.py:13-19 | lower-case, stripped text with no doubled listed consonant and no key of the table comes back unchanged |
| HiraganaVectors.GeminateLeftmost | src/rtk/main.py:15 | gemination is leftmost and non-overlapping: `"ttt"` gives `"っtt"`, `"tttt"` gives `"っtっt"` |
| HiraganaVectors.Aeiou | tests/test_to_hiragana.py:9 | `to_hiragana("aeiou") == "あえいおう"` |
| HiraganaVectors.Arigatou | tests/test_to_hiragana.py:10 | `to_hiragana("arigatou") == "ありがとう"` |
| HiraganaVectors.Sayonara | tests/test_to_hiragana.py:11 | `to_hiragana("sayonara") == "さよなら"` |
| HiraganaVectors.Furimukazu | tests/test_to_hiragana.py:12 | `to_hiragana("furimukazu") == "ふりむかず"` |
| HiraganaVectors.NatteGeminated | src/rtk/main.py:14-15 | the gemination pass turns `"natte"` into `"naっte"` |
| HiraganaVectors.Natte | tests/test_to_hiragana.py:13 | `to_hiragana("natte") == "なって"` |
| HiraganaVectors.Tamashii | tests/test_to_hiragana.py:14 | `to_hiragana("tamashii") == "たましい"` |
| HiraganaVectors.Satteshimau | tests/test_to_hiragana.py:15 | `to_hiragana("satteshimau") == "さってしまう"` |
| HiraganaVectors.Genjitsu | tests/test_to_hiragana.py:16 | `to_hiragana("genjitsu") == "げんじつ"` |
| HiraganaVectors.Kieteshimatta | tests/test_to_hiragana.py:17 | `to_hiragana("kieteshimatta") == "きえてしまった"` |
| HiraganaVectors.HonnouGeminated | src/rtk/main.py:14 | `"nn"` is not in the consonant list, so the gemination pass leaves `"honnou"` unchanged |
| HiraganaVectors.Honnou | tests/test_to_hiragana.py:18 | `to_hiragana("honnou") == "ほんのう"` |
| HiraganaVectors.Kyou | tests/test_to_hiragana.py:19 | `to_hiragana("kyou") == "きょう"` |
| HiraganaVectors.Ryougashi | tests/test_to_hiragana.py:20 | `to_hiragana("ryougashi") == "りょうがし"` |

## Left out

- `to_katakana` and its long-vowel pass: the tests import it, but `src/rtk/main.py` does not define it.
- The contents and order of `ROMANJI_TO_HIRAGANAS`: `rtk/hiraganas.py` is not part of this model. The table is a parameter. Each test vector uses only the entries its word needs, so the vectors show the engine's behaviour with those entries, not with the full table.
- PyStr.Lower: models `str.lower` for the ASCII letters A-Z only. Other cased Unicode letters, which Python also lowers, pass through unchanged.
- PyStr.IsSpace: is the fixed set of characters for which Python's `str.isspace` holds. It is written out rather than taken from the Unicode database.
- The command-line entry point, file discovery and the random quiz loop are left out: they are I/O and randomness with no logic of the engine.
