/**
  Concrete games: words built from fixed decompositions and compared, as the
  game does for a guess against the secret word.
*/
module Scenarios {
  import opened Wrappers
  import opened WordProcessor
  import opened Evaluate

  /** The decomposition of "मीनाक्षी": मी, ना, क्षी. */
  function Meenakshi(): seq<Syllable> {
    [ Syllable("मी", ["म्", "ई"]),
      Syllable("ना", ["न्", "आ"]),
      Syllable("क्षी", ["क्", "ष्", "ई"]) ]
  }

  /** The decomposition of "मीनीक्षी": मी, नी, क्षी. */
  function Meeneekshi(): seq<Syllable> {
    [ Syllable("मी", ["म्", "ई"]),
      Syllable("नी", ["न्", "ई"]),
      Syllable("क्षी", ["क्", "ष्", "ई"]) ]
  }

  /** Every svara is a single character, so a consonant written with its virama is not one. */
  lemma ConsonantIsNotASvara(c: Symbol)
    requires |c| == 2
    ensures !IsSvara(c)
  {
  }

  /** A run of sub-symbols none of which is a svara is all vyanjanas. */
  lemma {:induction false} NoSvaras(cs: seq<Symbol>)
    requires forall c :: c in cs ==> !IsSvara(c)
    ensures SvarasOf(cs) == [] && VyanjanasOf(cs) == cs
  {
    if cs != [] {
      NoSvaras(cs[1..]);
      assert [cs[0]] + cs[1..] == cs;
    }
  }

  /** The views of an akshara spelt consonants-then-vowel. */
  lemma ConsonantsThenVowel(cs: seq<Symbol>, v: Symbol)
    requires forall c :: c in cs ==> |c| == 2
    requires IsSvara(v)
    ensures SvarasOf(cs + [v]) == [v]
    ensures VyanjanasOf(cs + [v]) == cs
  {
    forall c | c in cs ensures !IsSvara(c) {
      ConsonantIsNotASvara(c);
    }
    NoSvaras(cs);
    FiltersAppend(cs, [v]);
    assert [v][1..] == [];
  }

  lemma ViewsAt(w: Word, syllables: seq<Syllable>, i: nat, cs: seq<Symbol>, v: Symbol)
    requires w.Decomposes(syllables) && i < |syllables|
    requires syllables[i].vinyaasa == cs + [v]
    requires forall c :: c in cs ==> |c| == 2
    requires IsSvara(v)
    ensures |w.aksharas| == |syllables| && w.aksharas[i] == syllables[i].akshara
    ensures w.svaras[i] == v && w.vyanjanas[i] == cs
  {
    ConsonantsThenVowel(cs, v);
  }

  lemma MeenakshiMa(w: Word)
    requires w.Decomposes(Meenakshi())
    ensures |w.aksharas| == 3 && w.aksharas[0] == "मी" && w.svaras[0] == "ई" && w.vyanjanas[0] == ["म्"]
  {
    ViewsAt(w, Meenakshi(), 0, ["म्"], "ई");
  }

  lemma MeenakshiNa(w: Word)
    requires w.Decomposes(Meenakshi())
    ensures |w.aksharas| == 3 && w.aksharas[1] == "ना" && w.svaras[1] == "आ" && w.vyanjanas[1] == ["न्"]
  {
    ViewsAt(w, Meenakshi(), 1, ["न्"], "आ");
  }

  lemma MeenakshiKsha(w: Word)
    requires w.Decomposes(Meenakshi())
    ensures |w.aksharas| == 3 && w.aksharas[2] == "क्षी" && w.svaras[2] == "ई" && w.vyanjanas[2] == ["क्", "ष्"]
  {
    ViewsAt(w, Meenakshi(), 2, ["क्", "ष्"], "ई");
  }

  lemma MeeneekshiViews(w: Word)
    requires w.Decomposes(Meeneekshi())
    ensures |w.aksharas| == 3
    ensures w.aksharas[0] == "मी" && w.aksharas[1] == "नी" && w.aksharas[2] == "क्षी"
    ensures w.svaras[1] == "ई" && w.vyanjanas[1] == ["न्"]
  {
    ViewsAt(w, Meeneekshi(), 1, ["न्"], "ई");
  }

  /** नी at position 1 of मीनाक्षी: न् is at its place, ई only elsewhere. */
  lemma MiddleCell(s: Word)
    requires s.Valid() && |s.aksharas| == 3
    requires s.aksharas[0] == "मी" && s.aksharas[1] == "ना" && s.aksharas[2] == "क्षी"
    requires s.svaras[0] == "ई" && s.svaras[1] == "आ"
    requires s.vyanjanas[1] == ["न्"]
    ensures Cell(s, "नी", "ई", ["न्"], 1) == (Correct, Present)
  {
    assert "नी"[1] != "ना"[1];
    assert "नी" !in s.aksharas;
    assert SvaraStatus(s, "ई", 1) == Present;
    var na: Symbol := "न्";
    assert na in [na] && na in s.vyanjanas[1];
    assert VyanjanaStatus(s, [na], 1) == Correct;
  }

  lemma MeeneekshiAgainstMeenakshi(s: Word, g: Word)
    requires s.Valid() && g.Valid() && |s.aksharas| == 3 && |g.aksharas| == 3
    requires s.aksharas[0] == "मी" && s.aksharas[1] == "ना" && s.aksharas[2] == "क्षी"
    requires s.svaras[0] == "ई" && s.svaras[1] == "आ"
    requires s.vyanjanas[1] == ["न्"]
    requires g.aksharas[0] == "मी" && g.aksharas[1] == "नी" && g.aksharas[2] == "क्षी"
    requires g.svaras[1] == "ई" && g.vyanjanas[1] == ["न्"]
    ensures Statuses(s, g) == [(Correct, Correct), (Correct, Present), (Correct, Correct)]
  {
    var r := Statuses(s, g);
    assert r[0] == Cell(s, "मी", g.svaras[0], g.vyanjanas[0], 0) == (Correct, Correct);
    assert r[2] == Cell(s, "क्षी", g.svaras[2], g.vyanjanas[2], 2) == (Correct, Correct);
    MiddleCell(s);
    assert r[1] == Cell(s, "नी", "ई", ["न्"], 1);
  }

  lemma AnusvaraIsNotASvara()
    ensures !IsSvara(ANUSVARA)
  {
  }

  /** An akshara spelt consonants-then-vowel has its svara and no anusvara. */
  lemma Buildable(syllables: seq<Syllable>, i: nat, cs: seq<Symbol>, v: Symbol)
    requires i < |syllables| && syllables[i].vinyaasa == cs + [v]
    requires forall c :: c in cs ==> |c| == 2
    requires IsSvara(v)
    ensures SvarasOf(syllables[i].vinyaasa) != [] && ANUSVARA !in syllables[i].vinyaasa
  {
    ConsonantsThenVowel(cs, v);
    AnusvaraIsNotASvara();
    assert |ANUSVARA| == 1;
    assert ANUSVARA !in cs;
    assert ANUSVARA != v;
    assert syllables[i].vinyaasa == cs + [v];
  }

  lemma NoConstructionError(syllables: seq<Syllable>)
    requires forall k :: 0 <= k < |syllables| ==>
      SvarasOf(syllables[k].vinyaasa) != [] && ANUSVARA !in syllables[k].vinyaasa
    ensures ConstructionError(syllables).None?
  {
  }

  /** Neither decomposition holds an anusvara, and every akshara has its svara. */
  lemma MeenakshiBuilds()
    ensures ConstructionError(Meenakshi()).None?
  {
    var m := Meenakshi();
    forall k | 0 <= k < |m|
      ensures SvarasOf(m[k].vinyaasa) != [] && ANUSVARA !in m[k].vinyaasa
    {
      if k == 0 {
        Buildable(m, 0, ["म्"], "ई");
      } else if k == 1 {
        Buildable(m, 1, ["न्"], "आ");
      } else {
        Buildable(m, 2, ["क्", "ष्"], "ई");
      }
    }
    NoConstructionError(m);
  }

  lemma MeeneekshiBuilds()
    ensures ConstructionError(Meeneekshi()).None?
  {
    var m := Meeneekshi();
    forall k | 0 <= k < |m|
      ensures SvarasOf(m[k].vinyaasa) != [] && ANUSVARA !in m[k].vinyaasa
    {
      if k == 0 {
        Buildable(m, 0, ["म्"], "ई");
      } else if k == 1 {
        Buildable(m, 1, ["न्"], "ई");
      } else {
        Buildable(m, 2, ["क्", "ष्"], "ई");
      }
    }
    NoConstructionError(m);
  }

  /** The secret मीनाक्षी, built. */
  method BuildMeenakshi() returns (w: Word)
    ensures w.Valid() && |w.aksharas| == 3
    ensures w.aksharas[0] == "मी" && w.aksharas[1] == "ना" && w.aksharas[2] == "क्षी"
    ensures w.svaras[0] == "ई" && w.svaras[1] == "आ"
    ensures w.vyanjanas[1] == ["न्"]
  {
    MeenakshiBuilds();
    var r := Word.New("मीनाक्षी", Meenakshi());
    if r.Err? {
      assert false;
      return new Word("");
    }
    w := r.value;
    MeenakshiMa(w);
    MeenakshiNa(w);
    MeenakshiKsha(w);
  }

  /** The guess मीनीक्षी, built. */
  method BuildMeeneekshi() returns (w: Word)
    ensures w.Valid() && |w.aksharas| == 3
    ensures w.aksharas[0] == "मी" && w.aksharas[1] == "नी" && w.aksharas[2] == "क्षी"
    ensures w.svaras[1] == "ई" && w.vyanjanas[1] == ["न्"]
  {
    MeeneekshiBuilds();
    var r := Word.New("मीनीक्षी", Meeneekshi());
    if r.Err? {
      assert false;
      return new Word("");
    }
    w := r.value;
    MeeneekshiViews(w);
  }

  /** A secret guessed exactly: every position is (Correct, Correct). */
  method GuessedExactly() returns (status: seq<PositionResult>)
    ensures status == [(Correct, Correct), (Correct, Correct), (Correct, Correct)]
  {
    var secret := BuildMeenakshi();
    var guess := BuildMeenakshi();
    assert guess.aksharas == secret.aksharas;
    var c := Compare.New(secret, guess);
    if c.Err? {
      assert false;
      return [];
    }
    c.value.Compare();
    AllCorrectIffSameAksharas(secret, guess);
    status := c.value.status;
    assert status == seq(3, _ => (Correct, Correct));
  }

  /**
    Against "मीनाक्षी", the guess "मीनीक्षी" has न् at its own position but ई,
    which the secret has only elsewhere: (Correct, Present) in the middle.
  */
  method SvaraPresentElsewhere() returns (status: seq<PositionResult>)
    ensures status == [(Correct, Correct), (Correct, Present), (Correct, Correct)]
  {
    var s := BuildMeenakshi();
    var g := BuildMeeneekshi();
    var c := Compare.New(s, g);
    if c.Err? {
      assert false;
      return [];
    }
    c.value.Compare();
    status := c.value.status;
    MeeneekshiAgainstMeenakshi(s, g);
  }

  /** A word with an anusvara is refused. */
  method AnusvaraRefused() returns (r: Result<Word, WordError>)
    ensures r == Err(UnsupportedAnusvara)
  {
    r := Word.New("शंख", [Syllable("शं", ["श्", "अ", "ं"]), Syllable("ख", ["ख्", "अ"])]);
  }
}
