/**
 The expectations of tests/test_to_hiragana.py, proved for the engine run
 with a fragment of the transliteration table: only the entries each word
 needs. Each fragment lists a key before the shorter keys inside it, for
 example "ga" before "a".

 Each replacement step has a lemma `<Word>Entry<k>`. A key that occurs once,
 with its first character nowhere else in the text, is handled by
 `ReplaceAllOnce`. Where the scan also passes over a lone first character
 of the key, a `...Scan` lemma follows the scan for an arbitrary replacement
 `r`, with the text spelled as the pieces the scan visits. One lemma per
 word, `<Word>Pieces`, states that those pieces spell the texts.
 */
module HiraganaVectors {
  import opened PyStr
  import opened Hiragana

  /** Replacement is leftmost and does not overlap. */
  lemma GeminateLeftmost()
    ensures Geminate("ttt", 't') == "っtt"
    ensures Geminate("tttt", 't') == "っtっt"
  {
  }

  /** Where `t` stands in the consonant list. */
  lemma ConsonantsAroundT()
    ensures Consonants[..2] == "zr" && Consonants[2] == 't' && Consonants[3..] == "pqsdfghjklmwxcvb"
  {
  }

  // tests/test_to_hiragana.py, line 9
  const AeiouTable: Table := [("a", "あ"), ("e", "え"), ("i", "い"), ("o", "お"), ("u", "う")]

  /** The texts the replacement steps see and produce, as their pieces. */
  lemma AeiouPieces()
    ensures "aeiou" == "" + "a" + "eiou"
    ensures "あeiou" == "" + "あ" + "eiou"
    ensures "あeiou" == "あ" + "e" + "iou"
    ensures "あえiou" == "あ" + "え" + "iou"
    ensures "あえiou" == "あえ" + "i" + "ou"
    ensures "あえいou" == "あえ" + "い" + "ou"
    ensures "あえいou" == "あえい" + "o" + "u"
    ensures "あえいおu" == "あえい" + "お" + "u"
    ensures "あえいおu" == "あえいお" + "u" + ""
    ensures "あえいおう" == "あえいお" + "う" + ""
  {
  }

  lemma AeiouGeminated()
    ensures GeminationPass("aeiou", Consonants) == "aeiou"
  {
    GeminationPassIdentity("aeiou", Consonants);
  }

  lemma AeiouEntry0()
    ensures ReplaceAll("aeiou", "a", "あ") == "あeiou"
  {
    AeiouPieces();
    ReplaceAllOnce("", "a", "eiou", "あ");
  }

  lemma AeiouEntry1()
    ensures ReplaceAll("あeiou", "e", "え") == "あえiou"
  {
    AeiouPieces();
    ReplaceAllOnce("あ", "e", "iou", "え");
  }

  lemma AeiouEntry2()
    ensures ReplaceAll("あえiou", "i", "い") == "あえいou"
  {
    AeiouPieces();
    ReplaceAllOnce("あえ", "i", "ou", "い");
  }

  lemma AeiouEntry3()
    ensures ReplaceAll("あえいou", "o", "お") == "あえいおu"
  {
    AeiouPieces();
    ReplaceAllOnce("あえい", "o", "u", "お");
  }

  lemma AeiouEntry4()
    ensures ReplaceAll("あえいおu", "u", "う") == "あえいおう"
  {
    AeiouPieces();
    ReplaceAllOnce("あえいお", "u", "", "う");
  }

  lemma AeiouTablePass()
    ensures TablePass("aeiou", AeiouTable) == "あえいおう"
  {
    var states := ["aeiou", "あeiou", "あえiou", "あえいou", "あえいおu", "あえいおう"];
    forall k | 0 <= k < |AeiouTable|
      ensures ReplaceAll(states[k], AeiouTable[k].0, AeiouTable[k].1) == states[k + 1]
    {
      if k == 0 {
        AeiouEntry0();
      } else if k == 1 {
        AeiouEntry1();
      } else if k == 2 {
        AeiouEntry2();
      } else if k == 3 {
        AeiouEntry3();
      } else {
        AeiouEntry4();
      }
    }
    TablePassTrace("aeiou", AeiouTable, states);
  }

  lemma AeiouNormalised()
    ensures Lower("aeiou") == "aeiou"
  {
    var text := "aeiou";
    forall i | 0 <= i < |text| ensures !IsUpper(text[i]) {}
    LowerOfLowercase(text);
  }

  lemma AeiouNoEdgeSpace()
    ensures NoEdgeSpace("aeiou") && NoEdgeSpace("あえいおう")
  {
  }

  /** `to_hiragana("aeiou") == "あえいおう"` */
  lemma Aeiou()
    ensures HiraganaOf("aeiou", AeiouTable) == "あえいおう"
  {
    AeiouNormalised();
    AeiouNoEdgeSpace();
    AeiouGeminated();
    AeiouTablePass();
    HiraganaOfStages("aeiou", AeiouTable, "aeiou", "あえいおう");
  }

  // tests/test_to_hiragana.py, line 10
  const ArigatouTable: Table := [("ri", "り"), ("ga", "が"), ("to", "と"), ("a", "あ"), ("u", "う")]

  /** The texts the replacement steps see and produce, as their pieces. */
  lemma ArigatouPieces()
    ensures "arigatou" == "a" + "ri" + "gatou"
    ensures "aりgatou" == "a" + "り" + "gatou"
    ensures "aりgatou" == "aり" + "ga" + "tou"
    ensures "aりがtou" == "aり" + "が" + "tou"
    ensures "aりがtou" == "aりが" + "to" + "u"
    ensures "aりがとu" == "aりが" + "と" + "u"
    ensures "aりがとu" == "" + "a" + "りがとu"
    ensures "ありがとu" == "" + "あ" + "りがとu"
    ensures "ありがとu" == "ありがと" + "u" + ""
    ensures "ありがとう" == "ありがと" + "う" + ""
  {
  }

  lemma ArigatouGeminated()
    ensures GeminationPass("arigatou", Consonants) == "arigatou"
  {
    GeminationPassIdentity("arigatou", Consonants);
  }

  lemma ArigatouEntry0()
    ensures ReplaceAll("arigatou", "ri", "り") == "aりgatou"
  {
    ArigatouPieces();
    ReplaceAllOnce("a", "ri", "gatou", "り");
  }

  lemma ArigatouEntry1()
    ensures ReplaceAll("aりgatou", "ga", "が") == "aりがtou"
  {
    ArigatouPieces();
    ReplaceAllOnce("aり", "ga", "tou", "が");
  }

  lemma ArigatouEntry2()
    ensures ReplaceAll("aりがtou", "to", "と") == "aりがとu"
  {
    ArigatouPieces();
    ReplaceAllOnce("aりが", "to", "u", "と");
  }

  lemma ArigatouEntry3()
    ensures ReplaceAll("aりがとu", "a", "あ") == "ありがとu"
  {
    ArigatouPieces();
    ReplaceAllOnce("", "a", "りがとu", "あ");
  }

  lemma ArigatouEntry4()
    ensures ReplaceAll("ありがとu", "u", "う") == "ありがとう"
  {
    ArigatouPieces();
    ReplaceAllOnce("ありがと", "u", "", "う");
  }

  lemma ArigatouTablePass()
    ensures TablePass("arigatou", ArigatouTable) == "ありがとう"
  {
    var states := ["arigatou", "aりgatou", "aりがtou", "aりがとu", "ありがとu", "ありがとう"];
    forall k | 0 <= k < |ArigatouTable|
      ensures ReplaceAll(states[k], ArigatouTable[k].0, ArigatouTable[k].1) == states[k + 1]
    {
      if k == 0 {
        ArigatouEntry0();
      } else if k == 1 {
        ArigatouEntry1();
      } else if k == 2 {
        ArigatouEntry2();
      } else if k == 3 {
        ArigatouEntry3();
      } else {
        ArigatouEntry4();
      }
    }
    TablePassTrace("arigatou", ArigatouTable, states);
  }

  lemma ArigatouNormalised()
    ensures Lower("arigatou") == "arigatou"
  {
    var text := "arigatou";
    forall i | 0 <= i < |text| ensures !IsUpper(text[i]) {}
    LowerOfLowercase(text);
  }

  lemma ArigatouNoEdgeSpace()
    ensures NoEdgeSpace("arigatou") && NoEdgeSpace("ありがとう")
  {
  }

  /** `to_hiragana("arigatou") == "ありがとう"` */
  lemma Arigatou()
    ensures HiraganaOf("arigatou", ArigatouTable) == "ありがとう"
  {
    ArigatouNormalised();
    ArigatouNoEdgeSpace();
    ArigatouGeminated();
    ArigatouTablePass();
    HiraganaOfStages("arigatou", ArigatouTable, "arigatou", "ありがとう");
  }

  // tests/test_to_hiragana.py, line 11
  const SayonaraTable: Table := [("sa", "さ"), ("yo", "よ"), ("na", "な"), ("ra", "ら")]

  /** The texts the replacement steps see and produce, as their pieces. */
  lemma SayonaraPieces()
    ensures "sayonara" == "" + "sa" + "yonara"
    ensures "さyonara" == "" + "さ" + "yonara"
    ensures "さyonara" == "さ" + "yo" + "nara"
    ensures "さよnara" == "さ" + "よ" + "nara"
    ensures "さよnara" == "さよ" + "na" + "ra"
    ensures "さよなra" == "さよ" + "な" + "ra"
    ensures "さよなra" == "さよな" + "ra" + ""
    ensures "さよなら" == "さよな" + "ら" + ""
  {
  }

  lemma SayonaraGeminated()
    ensures GeminationPass("sayonara", Consonants) == "sayonara"
  {
    GeminationPassIdentity("sayonara", Consonants);
  }

  lemma SayonaraEntry0()
    ensures ReplaceAll("sayonara", "sa", "さ") == "さyonara"
  {
    SayonaraPieces();
    ReplaceAllOnce("", "sa", "yonara", "さ");
  }

  lemma SayonaraEntry1()
    ensures ReplaceAll("さyonara", "yo", "よ") == "さよnara"
  {
    SayonaraPieces();
    ReplaceAllOnce("さ", "yo", "nara", "よ");
  }

  lemma SayonaraEntry2()
    ensures ReplaceAll("さよnara", "na", "な") == "さよなra"
  {
    SayonaraPieces();
    ReplaceAllOnce("さよ", "na", "ra", "な");
  }

  lemma SayonaraEntry3()
    ensures ReplaceAll("さよなra", "ra", "ら") == "さよなら"
  {
    SayonaraPieces();
    ReplaceAllOnce("さよな", "ra", "", "ら");
  }

  lemma SayonaraTablePass()
    ensures TablePass("sayonara", SayonaraTable) == "さよなら"
  {
    var states := ["sayonara", "さyonara", "さよnara", "さよなra", "さよなら"];
    forall k | 0 <= k < |SayonaraTable|
      ensures ReplaceAll(states[k], SayonaraTable[k].0, SayonaraTable[k].1) == states[k + 1]
    {
      if k == 0 {
        SayonaraEntry0();
      } else if k == 1 {
        SayonaraEntry1();
      } else if k == 2 {
        SayonaraEntry2();
      } else {
        SayonaraEntry3();
      }
    }
    TablePassTrace("sayonara", SayonaraTable, states);
  }

  lemma SayonaraNormalised()
    ensures Lower("sayonara") == "sayonara"
  {
    var text := "sayonara";
    forall i | 0 <= i < |text| ensures !IsUpper(text[i]) {}
    LowerOfLowercase(text);
  }

  lemma SayonaraNoEdgeSpace()
    ensures NoEdgeSpace("sayonara") && NoEdgeSpace("さよなら")
  {
  }

  /** `to_hiragana("sayonara") == "さよなら"` */
  lemma Sayonara()
    ensures HiraganaOf("sayonara", SayonaraTable) == "さよなら"
  {
    SayonaraNormalised();
    SayonaraNoEdgeSpace();
    SayonaraGeminated();
    SayonaraTablePass();
    HiraganaOfStages("sayonara", SayonaraTable, "sayonara", "さよなら");
  }

  // tests/test_to_hiragana.py, line 12
  const FurimukazuTable: Table := [("fu", "ふ"), ("ri", "り"), ("mu", "む"), ("ka", "か"), ("zu", "ず")]

  /** The texts the replacement steps see and produce, as their pieces. */
  lemma FurimukazuPieces()
    ensures "furimukazu" == "" + "fu" + "rimukazu"
    ensures "ふrimukazu" == "" + "ふ" + "rimukazu"
    ensures "ふrimukazu" == "ふ" + "ri" + "mukazu"
    ensures "ふりmukazu" == "ふ" + "り" + "mukazu"
    ensures "ふりmukazu" == "ふり" + "mu" + "kazu"
    ensures "ふりむkazu" == "ふり" + "む" + "kazu"
    ensures "ふりむkazu" == "ふりむ" + "ka" + "zu"
    ensures "ふりむかzu" == "ふりむ" + "か" + "zu"
    ensures "ふりむかzu" == "ふりむか" + "zu" + ""
    ensures "ふりむかず" == "ふりむか" + "ず" + ""
  {
  }

  lemma FurimukazuGeminated()
    ensures GeminationPass("furimukazu", Consonants) == "furimukazu"
  {
    GeminationPassIdentity("furimukazu", Consonants);
  }

  lemma FurimukazuEntry0()
    ensures ReplaceAll("furimukazu", "fu", "ふ") == "ふrimukazu"
  {
    FurimukazuPieces();
    ReplaceAllOnce("", "fu", "rimukazu", "ふ");
  }

  lemma FurimukazuEntry1()
    ensures ReplaceAll("ふrimukazu", "ri", "り") == "ふりmukazu"
  {
    FurimukazuPieces();
    ReplaceAllOnce("ふ", "ri", "mukazu", "り");
  }

  lemma FurimukazuEntry2()
    ensures ReplaceAll("ふりmukazu", "mu", "む") == "ふりむkazu"
  {
    FurimukazuPieces();
    ReplaceAllOnce("ふり", "mu", "kazu", "む");
  }

  lemma FurimukazuEntry3()
    ensures ReplaceAll("ふりむkazu", "ka", "か") == "ふりむかzu"
  {
    FurimukazuPieces();
    ReplaceAllOnce("ふりむ", "ka", "zu", "か");
  }

  lemma FurimukazuEntry4()
    ensures ReplaceAll("ふりむかzu", "zu", "ず") == "ふりむかず"
  {
    FurimukazuPieces();
    ReplaceAllOnce("ふりむか", "zu", "", "ず");
  }

  lemma FurimukazuTablePass()
    ensures TablePass("furimukazu", FurimukazuTable) == "ふりむかず"
  {
    var states := ["furimukazu", "ふrimukazu", "ふりmukazu", "ふりむkazu", "ふりむかzu", "ふりむかず"];
    forall k | 0 <= k < |FurimukazuTable|
      ensures ReplaceAll(states[k], FurimukazuTable[k].0, FurimukazuTable[k].1) == states[k + 1]
    {
      if k == 0 {
        FurimukazuEntry0();
      } else if k == 1 {
        FurimukazuEntry1();
      } else if k == 2 {
        FurimukazuEntry2();
      } else if k == 3 {
        FurimukazuEntry3();
      } else {
        FurimukazuEntry4();
      }
    }
    TablePassTrace("furimukazu", FurimukazuTable, states);
  }

  lemma FurimukazuNormalised()
    ensures Lower("furimukazu") == "furimukazu"
  {
    var text := "furimukazu";
    forall i | 0 <= i < |text| ensures !IsUpper(text[i]) {}
    LowerOfLowercase(text);
  }

  lemma FurimukazuNoEdgeSpace()
    ensures NoEdgeSpace("furimukazu") && NoEdgeSpace("ふりむかず")
  {
  }

  /** `to_hiragana("furimukazu") == "ふりむかず"` */
  lemma Furimukazu()
    ensures HiraganaOf("furimukazu", FurimukazuTable) == "ふりむかず"
  {
    FurimukazuNormalised();
    FurimukazuNoEdgeSpace();
    FurimukazuGeminated();
    FurimukazuTablePass();
    HiraganaOfStages("furimukazu", FurimukazuTable, "furimukazu", "ふりむかず");
  }

  // tests/test_to_hiragana.py, line 13
  const NatteTable: Table := [("na", "な"), ("te", "て")]

  lemma NatteNoOtherDoubled()
    ensures NoDoubled("natte", "zr") && NoDoubled("naっte", "pqsdfghjklmwxcvb")
  {
  }

  /** The texts the replacement steps see and produce, as their pieces. */
  lemma NattePieces()
    ensures "natte" == "na" + "tt" + "e"
    ensures "naっte" == "na" + "っt" + "e"
    ensures "naっte" == "" + "na" + "っte"
    ensures "なっte" == "" + "な" + "っte"
    ensures "なっte" == "なっ" + "te" + ""
    ensures "なって" == "なっ" + "て" + ""
  {
  }

  lemma NatteGeminated()
    ensures GeminationPass("natte", Consonants) == "naっte"
  {
    ReplaceAllOnce("na", "tt", "e", "っt");
    NattePieces();
    NatteNoOtherDoubled();
    ConsonantsAroundT();
    GeminationSingleStep("natte", Consonants, 2, "naっte");
  }

  lemma NatteEntry0()
    ensures ReplaceAll("naっte", "na", "な") == "なっte"
  {
    NattePieces();
    ReplaceAllOnce("", "na", "っte", "な");
  }

  lemma NatteEntry1()
    ensures ReplaceAll("なっte", "te", "て") == "なって"
  {
    NattePieces();
    ReplaceAllOnce("なっ", "te", "", "て");
  }

  lemma NatteTablePass()
    ensures TablePass("naっte", NatteTable) == "なって"
  {
    var states := ["naっte", "なっte", "なって"];
    forall k | 0 <= k < |NatteTable|
      ensures ReplaceAll(states[k], NatteTable[k].0, NatteTable[k].1) == states[k + 1]
    {
      if k == 0 {
        NatteEntry0();
      } else {
        NatteEntry1();
      }
    }
    TablePassTrace("naっte", NatteTable, states);
  }

  lemma NatteNormalised()
    ensures Lower("natte") == "natte"
  {
    var text := "natte";
    forall i | 0 <= i < |text| ensures !IsUpper(text[i]) {}
    LowerOfLowercase(text);
  }

  lemma NatteNoEdgeSpace()
    ensures NoEdgeSpace("natte") && NoEdgeSpace("なって")
  {
  }

  /** `to_hiragana("natte") == "なって"` */
  lemma Natte()
    ensures HiraganaOf("natte", NatteTable) == "なって"
  {
    NatteNormalised();
    NatteNoEdgeSpace();
    NatteGeminated();
    NatteTablePass();
    HiraganaOfStages("natte", NatteTable, "naっte", "なって");
  }

  // tests/test_to_hiragana.py, line 14
  const TamashiiTable: Table := [("ta", "た"), ("ma", "ま"), ("shi", "し"), ("i", "い")]

  /** The texts the replacement steps see and produce, as their pieces. */
  lemma TamashiiPieces()
    ensures "tamashii" == "" + "ta" + "mashii"
    ensures "たmashii" == "" + "た" + "mashii"
    ensures "たmashii" == "た" + "ma" + "shii"
    ensures "たまshii" == "た" + "ま" + "shii"
    ensures "たまshii" == "たま" + "shi" + "i"
    ensures "たましi" == "たま" + "し" + "i"
    ensures "たましi" == "たまし" + "i" + ""
    ensures "たましい" == "たまし" + "い" + ""
  {
  }

  lemma TamashiiGeminated()
    ensures GeminationPass("tamashii", Consonants) == "tamashii"
  {
    GeminationPassIdentity("tamashii", Consonants);
  }

  lemma TamashiiEntry0()
    ensures ReplaceAll("tamashii", "ta", "た") == "たmashii"
  {
    TamashiiPieces();
    ReplaceAllOnce("", "ta", "mashii", "た");
  }

  lemma TamashiiEntry1()
    ensures ReplaceAll("たmashii", "ma", "ま") == "たまshii"
  {
    TamashiiPieces();
    ReplaceAllOnce("た", "ma", "shii", "ま");
  }

  lemma TamashiiEntry2()
    ensures ReplaceAll("たまshii", "shi", "し") == "たましi"
  {
    TamashiiPieces();
    ReplaceAllOnce("たま", "shi", "i", "し");
  }

  lemma TamashiiEntry3()
    ensures ReplaceAll("たましi", "i", "い") == "たましい"
  {
    TamashiiPieces();
    ReplaceAllOnce("たまし", "i", "", "い");
  }

  lemma TamashiiTablePass()
    ensures TablePass("tamashii", TamashiiTable) == "たましい"
  {
    var states := ["tamashii", "たmashii", "たまshii", "たましi", "たましい"];
    forall k | 0 <= k < |TamashiiTable|
      ensures ReplaceAll(states[k], TamashiiTable[k].0, TamashiiTable[k].1) == states[k + 1]
    {
      if k == 0 {
        TamashiiEntry0();
      } else if k == 1 {
        TamashiiEntry1();
      } else if k == 2 {
        TamashiiEntry2();
      } else {
        TamashiiEntry3();
      }
    }
    TablePassTrace("tamashii", TamashiiTable, states);
  }

  lemma TamashiiNormalised()
    ensures Lower("tamashii") == "tamashii"
  {
    var text := "tamashii";
    forall i | 0 <= i < |text| ensures !IsUpper(text[i]) {}
    LowerOfLowercase(text);
  }

  lemma TamashiiNoEdgeSpace()
    ensures NoEdgeSpace("tamashii") && NoEdgeSpace("たましい")
  {
  }

  /** `to_hiragana("tamashii") == "たましい"` */
  lemma Tamashii()
    ensures HiraganaOf("tamashii", TamashiiTable) == "たましい"
  {
    TamashiiNormalised();
    TamashiiNoEdgeSpace();
    TamashiiGeminated();
    TamashiiTablePass();
    HiraganaOfStages("tamashii", TamashiiTable, "tamashii", "たましい");
  }

  // tests/test_to_hiragana.py, line 15
  const SatteshimauTable: Table := [("sa", "さ"), ("te", "て"), ("shi", "し"), ("ma", "ま"), ("u", "う")]

  lemma SatteshimauNoOtherDoubled()
    ensures NoDoubled("satteshimau", "zr") && NoDoubled("saっteshimau", "pqsdfghjklmwxcvb")
  {
  }

  lemma SatteshimauEntry0Scan(r: string)
    ensures ReplaceAll("sa" + ("っte" + (['s'] + "himau")), "sa", r) == r + ("っte" + (['s'] + "himau"))
  {
    ReplaceAllWithoutFirst("himau", "sa", r);
    ReplaceAllSkipsChar('s', "himau", "sa", r);
    ReplaceAllSkipsPrefix("っte", ['s'] + "himau", "sa", r);
    ReplaceAllAtMatch("っte" + (['s'] + "himau"), "sa", r);
  }

  /** The texts the replacement steps see and produce, as their pieces. */
  lemma SatteshimauPieces()
    ensures "satteshimau" == "sa" + "tt" + "eshimau"
    ensures "saっteshimau" == "sa" + "っt" + "eshimau"
    ensures "saっteshimau" == "sa" + ("っte" + (['s'] + "himau"))
    ensures "さっteshimau" == "さ" + ("っte" + (['s'] + "himau"))
    ensures "さっteshimau" == "さっ" + "te" + "shimau"
    ensures "さってshimau" == "さっ" + "て" + "shimau"
    ensures "さってshimau" == "さって" + "shi" + "mau"
    ensures "さってしmau" == "さって" + "し" + "mau"
    ensures "さってしmau" == "さってし" + "ma" + "u"
    ensures "さってしまu" == "さってし" + "ま" + "u"
    ensures "さってしまu" == "さってしま" + "u" + ""
    ensures "さってしまう" == "さってしま" + "う" + ""
  {
  }

  lemma SatteshimauGeminated()
    ensures GeminationPass("satteshimau", Consonants) == "saっteshimau"
  {
    ReplaceAllOnce("sa", "tt", "eshimau", "っt");
    SatteshimauPieces();
    SatteshimauNoOtherDoubled();
    ConsonantsAroundT();
    GeminationSingleStep("satteshimau", Consonants, 2, "saっteshimau");
  }

  lemma SatteshimauEntry0()
    ensures ReplaceAll("saっteshimau", "sa", "さ") == "さっteshimau"
  {
    SatteshimauPieces();
    SatteshimauEntry0Scan("さ");
  }

  lemma SatteshimauEntry1()
    ensures ReplaceAll("さっteshimau", "te", "て") == "さってshimau"
  {
    SatteshimauPieces();
    ReplaceAllOnce("さっ", "te", "shimau", "て");
  }

  lemma SatteshimauEntry2()
    ensures ReplaceAll("さってshimau", "shi", "し") == "さってしmau"
  {
    SatteshimauPieces();
    ReplaceAllOnce("さって", "shi", "mau", "し");
  }

  lemma SatteshimauEntry3()
    ensures ReplaceAll("さってしmau", "ma", "ま") == "さってしまu"
  {
    SatteshimauPieces();
    ReplaceAllOnce("さってし", "ma", "u", "ま");
  }

  lemma SatteshimauEntry4()
    ensures ReplaceAll("さってしまu", "u", "う") == "さってしまう"
  {
    SatteshimauPieces();
    ReplaceAllOnce("さってしま", "u", "", "う");
  }

  lemma SatteshimauTablePass()
    ensures TablePass("saっteshimau", SatteshimauTable) == "さってしまう"
  {
    var states := ["saっteshimau", "さっteshimau", "さってshimau", "さってしmau", "さってしまu", "さってしまう"];
    forall k | 0 <= k < |SatteshimauTable|
      ensures ReplaceAll(states[k], SatteshimauTable[k].0, SatteshimauTable[k].1) == states[k + 1]
    {
      if k == 0 {
        SatteshimauEntry0();
      } else if k == 1 {
        SatteshimauEntry1();
      } else if k == 2 {
        SatteshimauEntry2();
      } else if k == 3 {
        SatteshimauEntry3();
      } else {
        SatteshimauEntry4();
      }
    }
    TablePassTrace("saっteshimau", SatteshimauTable, states);
  }

  lemma SatteshimauNormalised()
    ensures Lower("satteshimau") == "satteshimau"
  {
    var text := "satteshimau";
    forall i | 0 <= i < |text| ensures !IsUpper(text[i]) {}
    LowerOfLowercase(text);
  }

  lemma SatteshimauNoEdgeSpace()
    ensures NoEdgeSpace("satteshimau") && NoEdgeSpace("さってしまう")
  {
  }

  /** `to_hiragana("satteshimau") == "さってしまう"` */
  lemma Satteshimau()
    ensures HiraganaOf("satteshimau", SatteshimauTable) == "さってしまう"
  {
    SatteshimauNormalised();
    SatteshimauNoEdgeSpace();
    SatteshimauGeminated();
    SatteshimauTablePass();
    HiraganaOfStages("satteshimau", SatteshimauTable, "saっteshimau", "さってしまう");
  }

  // tests/test_to_hiragana.py, line 16
  const GenjitsuTable: Table := [("ge", "げ"), ("ji", "じ"), ("tsu", "つ"), ("n", "ん")]

  /** The texts the replacement steps see and produce, as their pieces. */
  lemma GenjitsuPieces()
    ensures "genjitsu" == "" + "ge" + "njitsu"
    ensures "げnjitsu" == "" + "げ" + "njitsu"
    ensures "げnjitsu" == "げn" + "ji" + "tsu"
    ensures "げnじtsu" == "げn" + "じ" + "tsu"
    ensures "げnじtsu" == "げnじ" + "tsu" + ""
    ensures "げnじつ" == "げnじ" + "つ" + ""
    ensures "げnじつ" == "げ" + "n" + "じつ"
    ensures "げんじつ" == "げ" + "ん" + "じつ"
  {
  }

  lemma GenjitsuGeminated()
    ensures GeminationPass("genjitsu", Consonants) == "genjitsu"
  {
    GeminationPassIdentity("genjitsu", Consonants);
  }

  lemma GenjitsuEntry0()
    ensures ReplaceAll("genjitsu", "ge", "げ") == "げnjitsu"
  {
    GenjitsuPieces();
    ReplaceAllOnce("", "ge", "njitsu", "げ");
  }

  lemma GenjitsuEntry1()
    ensures ReplaceAll("げnjitsu", "ji", "じ") == "げnじtsu"
  {
    GenjitsuPieces();
    ReplaceAllOnce("げn", "ji", "tsu", "じ");
  }

  lemma GenjitsuEntry2()
    ensures ReplaceAll("げnじtsu", "tsu", "つ") == "げnじつ"
  {
    GenjitsuPieces();
    ReplaceAllOnce("げnじ", "tsu", "", "つ");
  }

  lemma GenjitsuEntry3()
    ensures ReplaceAll("げnじつ", "n", "ん") == "げんじつ"
  {
    GenjitsuPieces();
    ReplaceAllOnce("げ", "n", "じつ", "ん");
  }

  lemma GenjitsuTablePass()
    ensures TablePass("genjitsu", GenjitsuTable) == "げんじつ"
  {
    var states := ["genjitsu", "げnjitsu", "げnじtsu", "げnじつ", "げんじつ"];
    forall k | 0 <= k < |GenjitsuTable|
      ensures ReplaceAll(states[k], GenjitsuTable[k].0, GenjitsuTable[k].1) == states[k + 1]
    {
      if k == 0 {
        GenjitsuEntry0();
      } else if k == 1 {
        GenjitsuEntry1();
      } else if k == 2 {
        GenjitsuEntry2();
      } else {
        GenjitsuEntry3();
      }
    }
    TablePassTrace("genjitsu", GenjitsuTable, states);
  }

  lemma GenjitsuNormalised()
    ensures Lower("genjitsu") == "genjitsu"
  {
    var text := "genjitsu";
    forall i | 0 <= i < |text| ensures !IsUpper(text[i]) {}
    LowerOfLowercase(text);
  }

  lemma GenjitsuNoEdgeSpace()
    ensures NoEdgeSpace("genjitsu") && NoEdgeSpace("げんじつ")
  {
  }

  /** `to_hiragana("genjitsu") == "げんじつ"` */
  lemma Genjitsu()
    ensures HiraganaOf("genjitsu", GenjitsuTable) == "げんじつ"
  {
    GenjitsuNormalised();
    GenjitsuNoEdgeSpace();
    GenjitsuGeminated();
    GenjitsuTablePass();
    HiraganaOfStages("genjitsu", GenjitsuTable, "genjitsu", "げんじつ");
  }

  // tests/test_to_hiragana.py, line 17
  const KieteshimattaTable: Table := [("ki", "き"), ("te", "て"), ("shi", "し"), ("ma", "ま"), ("ta", "た"), ("e", "え")]

  lemma KieteshimattaNoOtherDoubled()
    ensures NoDoubled("kieteshimatta", "zr") && NoDoubled("kieteshimaっta", "pqsdfghjklmwxcvb")
  {
  }

  lemma KieteshimattaDoubledScan(r: string)
    ensures ReplaceAll("kie" + (['t'] + ("eshima" + ("tt" + "a"))), "tt", r) == "kie" + (['t'] + ("eshima" + (r + "a")))
  {
    ReplaceAllWithoutFirst("a", "tt", r);
    ReplaceAllAtMatch("a", "tt", r);
    ReplaceAllSkipsPrefix("eshima", "tt" + "a", "tt", r);
    ReplaceAllSkipsChar('t', "eshima" + ("tt" + "a"), "tt", r);
    ReplaceAllSkipsPrefix("kie", ['t'] + ("eshima" + ("tt" + "a")), "tt", r);
  }

  lemma KieteshimattaEntry1Scan(r: string)
    ensures ReplaceAll("きe" + ("te" + ("shimaっ" + (['t'] + "a"))), "te", r) == "きe" + (r + ("shimaっ" + (['t'] + "a")))
  {
    ReplaceAllWithoutFirst("a", "te", r);
    ReplaceAllSkipsChar('t', "a", "te", r);
    ReplaceAllSkipsPrefix("shimaっ", ['t'] + "a", "te", r);
    ReplaceAllAtMatch("shimaっ" + (['t'] + "a"), "te", r);
    ReplaceAllSkipsPrefix("きe", "te" + ("shimaっ" + (['t'] + "a")), "te", r);
  }

  /** The texts the replacement steps see and produce, as their pieces. */
  lemma KieteshimattaPieces()
    ensures "kieteshimatta" == "kie" + (['t'] + ("eshima" + ("tt" + "a")))
    ensures "kieteshimaっta" == "kie" + (['t'] + ("eshima" + ("っt" + "a")))
    ensures "kieteshimaっta" == "" + "ki" + "eteshimaっta"
    ensures "きeteshimaっta" == "" + "き" + "eteshimaっta"
    ensures "きeteshimaっta" == "きe" + ("te" + ("shimaっ" + (['t'] + "a")))
    ensures "きeてshimaっta" == "きe" + ("て" + ("shimaっ" + (['t'] + "a")))
    ensures "きeてshimaっta" == "きeて" + "shi" + "maっta"
    ensures "きeてしmaっta" == "きeて" + "し" + "maっta"
    ensures "きeてしmaっta" == "きeてし" + "ma" + "っta"
    ensures "きeてしまっta" == "きeてし" + "ま" + "っta"
    ensures "きeてしまっta" == "きeてしまっ" + "ta" + ""
    ensures "きeてしまった" == "きeてしまっ" + "た" + ""
    ensures "きeてしまった" == "き" + "e" + "てしまった"
    ensures "きえてしまった" == "き" + "え" + "てしまった"
  {
  }

  lemma KieteshimattaGeminated()
    ensures GeminationPass("kieteshimatta", Consonants) == "kieteshimaっta"
  {
    KieteshimattaPieces();
    KieteshimattaDoubledScan("っt");
    KieteshimattaNoOtherDoubled();
    ConsonantsAroundT();
    GeminationSingleStep("kieteshimatta", Consonants, 2, "kieteshimaっta");
  }

  lemma KieteshimattaEntry0()
    ensures ReplaceAll("kieteshimaっta", "ki", "き") == "きeteshimaっta"
  {
    KieteshimattaPieces();
    ReplaceAllOnce("", "ki", "eteshimaっta", "き");
  }

  lemma KieteshimattaEntry1()
    ensures ReplaceAll("きeteshimaっta", "te", "て") == "きeてshimaっta"
  {
    KieteshimattaPieces();
    KieteshimattaEntry1Scan("て");
  }

  lemma KieteshimattaEntry2()
    ensures ReplaceAll("きeてshimaっta", "shi", "し") == "きeてしmaっta"
  {
    KieteshimattaPieces();
    ReplaceAllOnce("きeて", "shi", "maっta", "し");
  }

  lemma KieteshimattaEntry3()
    ensures ReplaceAll("きeてしmaっta", "ma", "ま") == "きeてしまっta"
  {
    KieteshimattaPieces();
    ReplaceAllOnce("きeてし", "ma", "っta", "ま");
  }

  lemma KieteshimattaEntry4()
    ensures ReplaceAll("きeてしまっta", "ta", "た") == "きeてしまった"
  {
    KieteshimattaPieces();
    ReplaceAllOnce("きeてしまっ", "ta", "", "た");
  }

  lemma KieteshimattaEntry5()
    ensures ReplaceAll("きeてしまった", "e", "え") == "きえてしまった"
  {
    KieteshimattaPieces();
    ReplaceAllOnce("き", "e", "てしまった", "え");
  }

  lemma KieteshimattaTablePass()
    ensures TablePass("kieteshimaっta", KieteshimattaTable) == "きえてしまった"
  {
    var states := ["kieteshimaっta", "きeteshimaっta", "きeてshimaっta", "きeてしmaっta", "きeてしまっta", "きeてしまった", "きえてしまった"];
    forall k | 0 <= k < |KieteshimattaTable|
      ensures ReplaceAll(states[k], KieteshimattaTable[k].0, KieteshimattaTable[k].1) == states[k + 1]
    {
      if k == 0 {
        KieteshimattaEntry0();
      } else if k == 1 {
        KieteshimattaEntry1();
      } else if k == 2 {
        KieteshimattaEntry2();
      } else if k == 3 {
        KieteshimattaEntry3();
      } else if k == 4 {
        KieteshimattaEntry4();
      } else {
        KieteshimattaEntry5();
      }
    }
    TablePassTrace("kieteshimaっta", KieteshimattaTable, states);
  }

  lemma KieteshimattaNormalised()
    ensures Lower("kieteshimatta") == "kieteshimatta"
  {
    var text := "kieteshimatta";
    forall i | 0 <= i < |text| ensures !IsUpper(text[i]) {}
    LowerOfLowercase(text);
  }

  lemma KieteshimattaNoEdgeSpace()
    ensures NoEdgeSpace("kieteshimatta") && NoEdgeSpace("きえてしまった")
  {
  }

  /** `to_hiragana("kieteshimatta") == "きえてしまった"` */
  lemma Kieteshimatta()
    ensures HiraganaOf("kieteshimatta", KieteshimattaTable) == "きえてしまった"
  {
    KieteshimattaNormalised();
    KieteshimattaNoEdgeSpace();
    KieteshimattaGeminated();
    KieteshimattaTablePass();
    HiraganaOfStages("kieteshimatta", KieteshimattaTable, "kieteshimaっta", "きえてしまった");
  }

  // tests/test_to_hiragana.py, line 18
  const HonnouTable: Table := [("ho", "ほ"), ("no", "の"), ("u", "う"), ("n", "ん")]

  lemma HonnouEntry1Scan(r: string)
    ensures ReplaceAll("ほ" + (['n'] + ("no" + "u")), "no", r) == "ほ" + (['n'] + (r + "u"))
  {
    ReplaceAllWithoutFirst("u", "no", r);
    ReplaceAllAtMatch("u", "no", r);
    ReplaceAllSkipsChar('n', "no" + "u", "no", r);
    ReplaceAllSkipsPrefix("ほ", ['n'] + ("no" + "u"), "no", r);
  }

  /** The texts the replacement steps see and produce, as their pieces. */
  lemma HonnouPieces()
    ensures "honnou" == "" + "ho" + "nnou"
    ensures "ほnnou" == "" + "ほ" + "nnou"
    ensures "ほnnou" == "ほ" + (['n'] + ("no" + "u"))
    ensures "ほnのu" == "ほ" + (['n'] + ("の" + "u"))
    ensures "ほnのu" == "ほnの" + "u" + ""
    ensures "ほnのう" == "ほnの" + "う" + ""
    ensures "ほnのう" == "ほ" + "n" + "のう"
    ensures "ほんのう" == "ほ" + "ん" + "のう"
  {
  }

  lemma HonnouGeminated()
    ensures GeminationPass("honnou", Consonants) == "honnou"
  {
    GeminationPassIdentity("honnou", Consonants);
  }

  lemma HonnouEntry0()
    ensures ReplaceAll("honnou", "ho", "ほ") == "ほnnou"
  {
    HonnouPieces();
    ReplaceAllOnce("", "ho", "nnou", "ほ");
  }

  lemma HonnouEntry1()
    ensures ReplaceAll("ほnnou", "no", "の") == "ほnのu"
  {
    HonnouPieces();
    HonnouEntry1Scan("の");
  }

  lemma HonnouEntry2()
    ensures ReplaceAll("ほnのu", "u", "う") == "ほnのう"
  {
    HonnouPieces();
    ReplaceAllOnce("ほnの", "u", "", "う");
  }

  lemma HonnouEntry3()
    ensures ReplaceAll("ほnのう", "n", "ん") == "ほんのう"
  {
    HonnouPieces();
    ReplaceAllOnce("ほ", "n", "のう", "ん");
  }

  lemma HonnouTablePass()
    ensures TablePass("honnou", HonnouTable) == "ほんのう"
  {
    var states := ["honnou", "ほnnou", "ほnのu", "ほnのう", "ほんのう"];
    forall k | 0 <= k < |HonnouTable|
      ensures ReplaceAll(states[k], HonnouTable[k].0, HonnouTable[k].1) == states[k + 1]
    {
      if k == 0 {
        HonnouEntry0();
      } else if k == 1 {
        HonnouEntry1();
      } else if k == 2 {
        HonnouEntry2();
      } else {
        HonnouEntry3();
      }
    }
    TablePassTrace("honnou", HonnouTable, states);
  }

  lemma HonnouNormalised()
    ensures Lower("honnou") == "honnou"
  {
    var text := "honnou";
    forall i | 0 <= i < |text| ensures !IsUpper(text[i]) {}
    LowerOfLowercase(text);
  }

  lemma HonnouNoEdgeSpace()
    ensures NoEdgeSpace("honnou") && NoEdgeSpace("ほんのう")
  {
  }

  /** `to_hiragana("honnou") == "ほんのう"` */
  lemma Honnou()
    ensures HiraganaOf("honnou", HonnouTable) == "ほんのう"
  {
    HonnouNormalised();
    HonnouNoEdgeSpace();
    HonnouGeminated();
    HonnouTablePass();
    HiraganaOfStages("honnou", HonnouTable, "honnou", "ほんのう");
  }

  // tests/test_to_hiragana.py, line 19
  const KyouTable: Table := [("kyo", "きょ"), ("u", "う")]

  /** The texts the replacement steps see and produce, as their pieces. */
  lemma KyouPieces()
    ensures "kyou" == "" + "kyo" + "u"
    ensures "きょu" == "" + "きょ" + "u"
    ensures "きょu" == "きょ" + "u" + ""
    ensures "きょう" == "きょ" + "う" + ""
  {
  }

  lemma KyouGeminated()
    ensures GeminationPass("kyou", Consonants) == "kyou"
  {
    GeminationPassIdentity("kyou", Consonants);
  }

  lemma KyouEntry0()
    ensures ReplaceAll("kyou", "kyo", "きょ") == "きょu"
  {
    KyouPieces();
    ReplaceAllOnce("", "kyo", "u", "きょ");
  }

  lemma KyouEntry1()
    ensures ReplaceAll("きょu", "u", "う") == "きょう"
  {
    KyouPieces();
    ReplaceAllOnce("きょ", "u", "", "う");
  }

  lemma KyouTablePass()
    ensures TablePass("kyou", KyouTable) == "きょう"
  {
    var states := ["kyou", "きょu", "きょう"];
    forall k | 0 <= k < |KyouTable|
      ensures ReplaceAll(states[k], KyouTable[k].0, KyouTable[k].1) == states[k + 1]
    {
      if k == 0 {
        KyouEntry0();
      } else {
        KyouEntry1();
      }
    }
    TablePassTrace("kyou", KyouTable, states);
  }

  lemma KyouNormalised()
    ensures Lower("kyou") == "kyou"
  {
    var text := "kyou";
    forall i | 0 <= i < |text| ensures !IsUpper(text[i]) {}
    LowerOfLowercase(text);
  }

  lemma KyouNoEdgeSpace()
    ensures NoEdgeSpace("kyou") && NoEdgeSpace("きょう")
  {
  }

  /** `to_hiragana("kyou") == "きょう"` */
  lemma Kyou()
    ensures HiraganaOf("kyou", KyouTable) == "きょう"
  {
    KyouNormalised();
    KyouNoEdgeSpace();
    KyouGeminated();
    KyouTablePass();
    HiraganaOfStages("kyou", KyouTable, "kyou", "きょう");
  }

  // tests/test_to_hiragana.py, line 20
  const RyougashiTable: Table := [("ryo", "りょ"), ("ga", "が"), ("shi", "し"), ("u", "う")]

  /** The texts the replacement steps see and produce, as their pieces. */
  lemma RyougashiPieces()
    ensures "ryougashi" == "" + "ryo" + "ugashi"
    ensures "りょugashi" == "" + "りょ" + "ugashi"
    ensures "りょugashi" == "りょu" + "ga" + "shi"
    ensures "りょuがshi" == "りょu" + "が" + "shi"
    ensures "りょuがshi" == "りょuが" + "shi" + ""
    ensures "りょuがし" == "りょuが" + "し" + ""
    ensures "りょuがし" == "りょ" + "u" + "がし"
    ensures "りょうがし" == "りょ" + "う" + "がし"
  {
  }

  lemma RyougashiGeminated()
    ensures GeminationPass("ryougashi", Consonants) == "ryougashi"
  {
    GeminationPassIdentity("ryougashi", Consonants);
  }

  lemma RyougashiEntry0()
    ensures ReplaceAll("ryougashi", "ryo", "りょ") == "りょugashi"
  {
    RyougashiPieces();
    ReplaceAllOnce("", "ryo", "ugashi", "りょ");
  }

  lemma RyougashiEntry1()
    ensures ReplaceAll("りょugashi", "ga", "が") == "りょuがshi"
  {
    RyougashiPieces();
    ReplaceAllOnce("りょu", "ga", "shi", "が");
  }

  lemma RyougashiEntry2()
    ensures ReplaceAll("りょuがshi", "shi", "し") == "りょuがし"
  {
    RyougashiPieces();
    ReplaceAllOnce("りょuが", "shi", "", "し");
  }

  lemma RyougashiEntry3()
    ensures ReplaceAll("りょuがし", "u", "う") == "りょうがし"
  {
    RyougashiPieces();
    ReplaceAllOnce("りょ", "u", "がし", "う");
  }

  lemma RyougashiTablePass()
    ensures TablePass("ryougashi", RyougashiTable) == "りょうがし"
  {
    var states := ["ryougashi", "りょugashi", "りょuがshi", "りょuがし", "りょうがし"];
    forall k | 0 <= k < |RyougashiTable|
      ensures ReplaceAll(states[k], RyougashiTable[k].0, RyougashiTable[k].1) == states[k + 1]
    {
      if k == 0 {
        RyougashiEntry0();
      } else if k == 1 {
        RyougashiEntry1();
      } else if k == 2 {
        RyougashiEntry2();
      } else {
        RyougashiEntry3();
      }
    }
    TablePassTrace("ryougashi", RyougashiTable, states);
  }

  lemma RyougashiNormalised()
    ensures Lower("ryougashi") == "ryougashi"
  {
    var text := "ryougashi";
    forall i | 0 <= i < |text| ensures !IsUpper(text[i]) {}
    LowerOfLowercase(text);
  }

  lemma RyougashiNoEdgeSpace()
    ensures NoEdgeSpace("ryougashi") && NoEdgeSpace("りょうがし")
  {
  }

  /** `to_hiragana("ryougashi") == "りょうがし"` */
  lemma Ryougashi()
    ensures HiraganaOf("ryougashi", RyougashiTable) == "りょうがし"
  {
    RyougashiNormalised();
    RyougashiNoEdgeSpace();
    RyougashiGeminated();
    RyougashiTablePass();
    HiraganaOfStages("ryougashi", RyougashiTable, "ryougashi", "りょうがし");
  }
}
