/**
 The romaji to hiragana engine `to_hiragana` of src/rtk/main.py: normalise
 the text, turn every doubled consonant into a small tsu followed by the
 consonant, then rewrite the text with the transliteration table, entry by
 entry, and strip the result.

 The table `ROMANJI_TO_HIRAGANAS` lives in a module that is not part of this
 model, so the engine takes it as a parameter: an ordered sequence of
 (romaji, hiragana) pairs, in the dictionary's insertion order.
 */
module Hiragana {
  import opened PyStr

  /** The consonants whose doubling becomes a small tsu, in the order the
      gemination pass visits them. */
  const Consonants: string := "zrtpqsdfghjklmwxcvb"

  /** The small tsu (sokuon) that marks a doubled consonant. */
  const SmallTsu: char := 'っ'

  /** The transliteration table, in iteration order. */
  type Table = seq<(string, string)>

  /** One step of the gemination pass: `text.replace(c * 2, f"っ{c}")`.
      The pair `cc` and its replacement `っc` have the same length, so the
      step keeps the length of the text. */
  function Geminate(s: string, c: char): (g: string)
    ensures |g| == |s|
  {
    ReplaceAll(s, [c, c], [SmallTsu, c])
  }

  /** The gemination pass over the consonants `cs`, taken in order: a left
      fold of `Geminate`. */
  function GeminationPass(s: string, cs: string): (g: string)
    ensures |g| == |s|
    decreases |cs|
  {
    if cs == [] then s
    else Geminate(GeminationPass(s, cs[..|cs| - 1]), cs[|cs| - 1])
  }

  /** The table pass: a left fold of `ReplaceAll` over the entries, in
      order; each entry rewrites the text the earlier entries produced.
      When every key has the length of its value, the length is kept. */
  function TablePass(s: string, table: Table): (t: string)
    ensures (forall e :: e in table ==> |e.0| == |e.1|) ==> |t| == |s|
    decreases |table|
  {
    if table == [] then s
    else
      var entry := table[|table| - 1];
      assert forall e :: e in table[..|table| - 1] ==> e in table;
      ReplaceAll(TablePass(s, table[..|table| - 1]), entry.0, entry.1)
  }

  /** What `to_hiragana(text)` returns when the table is `table`: never
      whitespace at either end, whatever the table's values hold. */
  function HiraganaOf(text: string, table: Table): (h: string)
    ensures NoEdgeSpace(h)
  {
    Strip(TablePass(GeminationPass(Strip(Lower(text)), Consonants), table))
  }

  /** `to_hiragana`: the engine as the source runs it, reassigning one string
      through the normalisation, the two loops and the final strip. */
  method ToHiragana(text: string, table: Table) returns (result: string)
    ensures result == HiraganaOf(text, table)
    ensures NoEdgeSpace(result)
  {
    var s := Strip(Lower(text));
    s := GeminateAll(s);
    s := ReplaceEntries(s, table);
    result := Strip(s);
  }

  /** The loop over the consonants: one gemination step per consonant, in
      the order of `Consonants`. */
  method GeminateAll(text: string) returns (s: string)
    ensures s == GeminationPass(text, Consonants)
  {
    s := text;
    for i := 0 to |Consonants|
      invariant s == GeminationPass(text, Consonants[..i])
    {
      var c := Consonants[i];
      s := ReplaceAll(s, [c, c], [SmallTsu, c]);
      assert Consonants[..i + 1][..i] == Consonants[..i];
    }
    assert Consonants[..|Consonants|] == Consonants;
  }

  /** The loop over the table: every entry, in table order, replaces all
      occurrences of its romaji with its kana. */
  method ReplaceEntries(text: string, table: Table) returns (s: string)
    ensures s == TablePass(text, table)
  {
    s := text;
    for j := 0 to |table|
      invariant s == TablePass(text, table[..j])
    {
      var (romaji, kana) := table[j];
      s := ReplaceAll(s, romaji, kana);
      assert table[..j + 1][..j] == table[..j];
    }
    assert table[..|table|] == table;
  }

  // ---------------------------------------------------------------------
  // The gemination pass

  /** No character occurs twice in `cs`. */
  predicate Distinct(cs: string) {
    forall i, j :: 0 <= i < j < |cs| ==> cs[i] != cs[j]
  }

  /** Position `i` of `g` is position `i` of `t` after one gemination step
      for `c`: unchanged, or the first `c` of a doubled `c`, now the small
      tsu, with the `c` after it kept. */
  predicate GeminatedOnceAt(t: string, g: string, c: char, i: int) {
    && 0 <= i < |t| == |g|
    && (|| g[i] == t[i]
        || (t[i] == c && g[i] == SmallTsu && i + 1 < |t| && t[i + 1] == c && g[i + 1] == c))
  }

  /** Position `i` of `g` is position `i` of `s` after gemination over the
      consonants `cs`: unchanged, or a listed consonant that stood twice in a
      row and is now the small tsu, with that consonant after it. */
  predicate GeminatedAt(s: string, g: string, cs: string, i: int) {
    && 0 <= i < |s| == |g|
    && (|| g[i] == s[i]
        || (g[i] == SmallTsu && s[i] in cs && i + 1 < |s| && s[i + 1] == s[i] && g[i + 1] == s[i]))
  }

  /** One gemination step keeps the length and only ever turns the first of
      two `c`s into a small tsu. */
  lemma {:induction false} GeminateStep(t: string, c: char)
    requires c != SmallTsu
    ensures |Geminate(t, c)| == |t|
    ensures forall i :: 0 <= i < |t| ==> GeminatedOnceAt(t, Geminate(t, c), c, i)
    decreases |t|
  {
    var g := Geminate(t, c);
    StartsWithMatchAt(t, [c, c]);
    if |t| < 2 {
      assert g == t;
    } else if MatchAt(t, [c, c], 0) {
      var rest := t[2..];
      var h := Geminate(rest, c);
      GeminateStep(rest, c);
      assert g == [SmallTsu, c] + h;
      forall i | 2 <= i < |t| ensures GeminatedOnceAt(t, g, c, i) {
        assert GeminatedOnceAt(rest, h, c, i - 2);
      }
    } else {
      var rest := t[1..];
      var h := Geminate(rest, c);
      GeminateStep(rest, c);
      assert g == [t[0]] + h;
      forall i | 1 <= i < |t| ensures GeminatedOnceAt(t, g, c, i) {
        assert GeminatedOnceAt(rest, h, c, i - 1);
      }
    }
  }

  /** The gemination pass keeps the length, and every position either keeps
      its character or held a listed consonant that was doubled and now
      holds the small tsu, followed by that consonant. */
  lemma {:induction false} GeminationPositions(s: string, cs: string)
    requires Distinct(cs) && SmallTsu !in cs
    ensures |GeminationPass(s, cs)| == |s|
    ensures forall i :: 0 <= i < |s| ==> GeminatedAt(s, GeminationPass(s, cs), cs, i)
    decreases |cs|
  {
    if cs != [] {
      var pre, c := cs[..|cs| - 1], cs[|cs| - 1];
      assert forall x :: x in pre ==> x in cs;
      assert c !in pre;
      GeminationPositions(s, pre);
      var t := GeminationPass(s, pre);
      var g := Geminate(t, c);
      GeminateStep(t, c);
      forall i | 0 <= i < |s| ensures GeminatedAt(s, g, cs, i) {
        assert GeminatedAt(s, t, pre, i);
        assert GeminatedOnceAt(t, g, c, i);
        if g[i] == t[i] {
          if t[i] != s[i] {
            assert t[i + 1] != c;
            assert GeminatedOnceAt(t, g, c, i + 1);
          }
        } else {
          assert GeminatedAt(s, t, pre, i + 1);
        }
      }
    }
  }

  /** Running the gemination pass over two consonant lists one after the
      other is running it over their concatenation. */
  lemma {:induction false} GeminationPassAppend(s: string, first: string, second: string)
    ensures GeminationPass(s, first + second) == GeminationPass(GeminationPass(s, first), second)
    decreases |second|
  {
    if second != [] {
      var both := first + second;
      assert both[..|both| - 1] == first + second[..|second| - 1];
      assert both[|both| - 1] == second[|second| - 1];
      GeminationPassAppend(s, first, second[..|second| - 1]);
    } else {
      assert first + second == first;
    }
  }

  /** Two strings without repeats and without a common character make a
      string without repeats. */
  lemma DistinctAppend(a: string, b: string)
    requires Distinct(a) && Distinct(b)
    requires forall i :: 0 <= i < |a| ==> a[i] !in b
    ensures Distinct(a + b)
  {
    forall i, j | 0 <= i < j < |a + b| ensures (a + b)[i] != (a + b)[j] {
      if j < |a| {
        assert (a + b)[i] == a[i] && (a + b)[j] == a[j];
      } else if i < |a| {
        assert (a + b)[i] == a[i] && (a + b)[j] == b[j - |a|];
      } else {
        assert (a + b)[i] == b[i - |a|] && (a + b)[j] == b[j - |a|];
      }
    }
  }

  lemma ConsonantHalves()
    ensures Consonants == "zrtpqsdfg" + "hjklmwxcvb"
    ensures Distinct("zrtpqsdfg") && Distinct("hjklmwxcvb")
    ensures forall i :: 0 <= i < |"zrtpqsdfg"| ==> "zrtpqsdfg"[i] !in "hjklmwxcvb"
  {
  }

  /** The consonant list names each consonant once and never the small tsu. */
  lemma ConsonantsDistinct()
    ensures Distinct(Consonants) && SmallTsu !in Consonants
  {
    ConsonantHalves();
    DistinctAppend("zrtpqsdfg", "hjklmwxcvb");
  }

  /** Letters outside the consonant list (the vowels, `n`, `y`, and anything
      that is not a lower-case ASCII consonant) are never geminated. */
  lemma NonConsonantsKept(s: string)
    ensures |GeminationPass(s, Consonants)| == |s|
    ensures forall i :: 0 <= i < |s| && s[i] !in Consonants ==> GeminationPass(s, Consonants)[i] == s[i]
  {
    var g := GeminationPass(s, Consonants);
    ConsonantsDistinct();
    GeminationPositions(s, Consonants);
    forall i | 0 <= i < |s| && s[i] !in Consonants ensures g[i] == s[i] {
      assert GeminatedAt(s, g, Consonants, i);
    }
  }

  /** No listed consonant stands twice in a row in `s`. */
  predicate NoDoubled(s: string, cs: string) {
    forall i :: 0 <= i < |s| - 1 && s[i] == s[i + 1] ==> s[i] !in cs
  }

  /** Without a doubled listed consonant the gemination pass changes nothing. */
  lemma {:induction false} GeminationPassIdentity(s: string, cs: string)
    requires NoDoubled(s, cs)
    ensures GeminationPass(s, cs) == s
    decreases |cs|
  {
    if cs != [] {
      var pre, c := cs[..|cs| - 1], cs[|cs| - 1];
      assert forall x :: x in pre ==> x in cs;
      GeminationPassIdentity(s, pre);
      assert !Occurs(s, [c, c]) by {
        forall j | 0 <= j <= |s| ensures !MatchAt(s, [c, c], j) {
          if j + 2 <= |s| {
            assert s[j..j + 2] == [s[j], s[j + 1]];
          }
        }
      }
      ReplaceAllAbsent(s, [c, c], [SmallTsu, c]);
    }
  }

  /** When no consonant before `cs[i]` stands doubled in `s`, and the step
      for `cs[i]` leaves none of the later ones doubled, the pass is that
      single step. */
  lemma GeminationSingleStep(s: string, cs: string, i: int, g: string)
    requires 0 <= i < |cs|
    requires NoDoubled(s, cs[..i])
    requires Geminate(s, cs[i]) == g
    requires NoDoubled(g, cs[i + 1..])
    ensures GeminationPass(s, cs) == g
  {
    var before, c, after := cs[..i], cs[i], cs[i + 1..];
    assert cs == before + [c] + after;
    GeminationPassAppend(s, before + [c], after);
    GeminationPassAppend(s, before, [c]);
    GeminationPassIdentity(s, before);
    assert GeminationPass(s, [c]) == Geminate(s, c) by { assert [c][..0] == []; }
    GeminationPassIdentity(Geminate(s, c), after);
  }


  /** A gemination step can be undone by replacing each small tsu and its
      consonant by the doubled consonant, provided the text had no small tsu. */
  lemma GeminateUndo(s: string, c: char)
    requires SmallTsu !in s
    ensures ReplaceAll(Geminate(s, c), [SmallTsu, c], [c, c]) == s
  {
    ReplaceAllUndo(s, [c, c], [SmallTsu, c]);
  }

  // ---------------------------------------------------------------------
  // The table pass

  /** Running the table pass over two tables one after the other is running
      it over their concatenation. */
  lemma {:induction false} TablePassAppend(s: string, first: Table, second: Table)
    ensures TablePass(s, first + second) == TablePass(TablePass(s, first), second)
    decreases |second|
  {
    if second != [] {
      var both := first + second;
      assert both[..|both| - 1] == first + second[..|second| - 1];
      assert both[|both| - 1] == second[|second| - 1];
      TablePassAppend(s, first, second[..|second| - 1]);
    } else {
      assert first + second == first;
    }
  }

  /** The first entry rewrites the text before the rest of the table sees it. */
  lemma TablePassCons(s: string, entry: (string, string), rest: Table)
    ensures TablePass(s, [entry] + rest) == TablePass(ReplaceAll(s, entry.0, entry.1), rest)
  {
    TablePassAppend(s, [entry], rest);
    assert [entry][..0] == [];
  }

  /** The table pass is the left fold of `ReplaceAll`: given the text after
      each entry, where entry `k` turns `states[k]` into `states[k + 1]`, the
      pass ends in the last of them. */
  lemma {:induction false} TablePassTrace(s: string, table: Table, states: seq<string>)
    requires |states| == |table| + 1 && states[0] == s
    requires forall k :: 0 <= k < |table| ==> ReplaceAll(states[k], table[k].0, table[k].1) == states[k + 1]
    ensures TablePass(s, table) == states[|table|]
    decreases |table|
  {
    if table != [] {
      var n := |table| - 1;
      var pre := table[..n];
      forall k | 0 <= k < |pre|
        ensures ReplaceAll(states[..n + 1][k], pre[k].0, pre[k].1) == states[..n + 1][k + 1]
      {
        assert pre[k] == table[k];
      }
      TablePassTrace(s, pre, states[..n + 1]);
    }
  }

  /** Every key is non-empty. */
  predicate NonEmptyKeys(table: Table) {
    forall e :: e in table ==> e.0 != []
  }

  /** When no key of the table occurs in the text, the table pass changes nothing. */
  lemma {:induction false} TablePassAbsent(s: string, table: Table)
    requires NonEmptyKeys(table)
    requires forall e :: e in table ==> !Occurs(s, e.0)
    ensures TablePass(s, table) == s
    decreases |table|
  {
    if table != [] {
      var pre := table[..|table| - 1];
      var last := table[|table| - 1];
      assert forall e :: e in pre ==> e in table;
      TablePassAbsent(s, pre);
      assert last in table;
      ReplaceAllAbsent(s, last.0, last.1);
      assert TablePass(s, table) == ReplaceAll(TablePass(s, pre), last.0, last.1);
    }
  }

  // ---------------------------------------------------------------------
  // The whole engine

  /** The result never starts or ends with whitespace, whatever the table holds. */
  lemma HiraganaOfStripped(text: string, table: Table)
    ensures NoEdgeSpace(HiraganaOf(text, table))
  {
  }

  /** The engine's result, from the result of each stage, for a text that
      is already lower-case and stripped. */
  lemma HiraganaOfStages(text: string, table: Table, geminated: string, replaced: string)
    requires Lower(text) == text && NoEdgeSpace(text)
    requires GeminationPass(text, Consonants) == geminated
    requires TablePass(geminated, table) == replaced
    requires NoEdgeSpace(replaced)
    ensures HiraganaOf(text, table) == replaced
  {
    StripFixedPoint(text);
    StripFixedPoint(replaced);
  }

  /** Only the case of ASCII letters differs: the results agree. */
  lemma CaseInsensitive(a: string, b: string, table: Table)
    requires SameIgnoringCase(a, b)
    ensures HiraganaOf(a, table) == HiraganaOf(b, table)
  {
    LowerOfSameIgnoringCase(a, b);
  }

  /** Lowering the input first changes nothing. */
  lemma LowerFirst(text: string, table: Table)
    ensures HiraganaOf(Lower(text), table) == HiraganaOf(text, table)
  {
    LowerIdempotent(text);
  }

  /** The empty text transliterates to the empty text, when no key is empty. */
  lemma EmptyInput(table: Table)
    requires NonEmptyKeys(table)
    ensures HiraganaOf([], table) == []
  {
    assert Lower([]) == [] && Strip([]) == [];
    GeminationPassIdentity([], Consonants);
    assert forall e :: e in table ==> !Occurs([], e.0);
    TablePassAbsent([], table);
  }

  /** An empty key is the exception: Python's `"".replace("", x)` is `x`. */
  lemma EmptyKeyOnEmptyInput()
    ensures HiraganaOf([], [([], "あ")]) == "あ"
  {
    assert Lower([]) == [] && Strip([]) == [];
    GeminationPassIdentity([], Consonants);
    var t: Table := [([], "あ")];
    assert t[..0] == [];
    assert TablePass([], t) == "あ";
    assert Strip("あ") == "あ" by { StripFixedPoint("あ"); }
  }

  /** Text that is already lower-case and stripped, has no doubled listed
      consonant and contains no key of the table comes back unchanged. */
  lemma PassThrough(s: string, table: Table)
    requires forall i :: 0 <= i < |s| ==> !IsUpper(s[i])
    requires NoEdgeSpace(s)
    requires NoDoubled(s, Consonants)
    requires NonEmptyKeys(table)
    requires forall e :: e in table ==> !Occurs(s, e.0)
    ensures HiraganaOf(s, table) == s
  {
    assert Lower(s) == s;
    StripFixedPoint(s);
    GeminationPassIdentity(s, Consonants);
    TablePassAbsent(s, table);
  }
}
