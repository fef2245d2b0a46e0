/**
  The word model: a word split into aksharas (syllables), with one svara (vowel)
  and a cluster of vyanjanas (consonants) per akshara, and the membership and
  position queries the comparison engine asks of it.

  Splitting a word into aksharas, and an akshara into its vinyaasa (its ordered
  phonemic sub-symbols), is done by an external linguistic library; here its
  answer is an input, a sequence of `Syllable`s.
*/
module WordProcessor {
  import opened Wrappers

  /** A phonemic sub-symbol of a vinyaasa (a vowel, a consonant with virama, a mark). */
  type Symbol = string

  /** One akshara, as the text the decomposition library returns for it. */
  type Akshara = string

  /** The fourteen independent vowels; a sub-symbol is a svara exactly when it is one of them. */
  const SVARAS: seq<Symbol> :=
    ["अ", "आ", "इ", "ई", "उ", "ऊ", "ऋ", "ॠ", "ऌ", "ॡ", "ए", "ऐ", "ओ", "औ"]

  /** The anusvara, which words may not contain. */
  const ANUSVARA: Symbol := "ं"

  predicate IsSvara(s: Symbol) {
    s in SVARAS
  }

  /** One akshara and its vinyaasa, as the decomposition library gives them. */
  datatype Syllable = Syllable(akshara: Akshara, vinyaasa: seq<Symbol>)

  /** Why a word cannot be built. */
  datatype WordError =
    | UnsupportedAnusvara      // the word's vinyaasa contains the anusvara
    | MissingSvara(index: nat) // the akshara at `index` has no svara in its vinyaasa

  /** The list comprehension that concatenates a list of lists, in order. */
  function Flatten(ss: seq<seq<Symbol>>): seq<Symbol>
  {
    if ss == [] then [] else ss[0] + Flatten(ss[1..])
  }

  /** A symbol is in the flattened list exactly when it is in one of the lists. */
  lemma {:induction false} FlattenMembers(ss: seq<seq<Symbol>>, x: Symbol)
    ensures x in Flatten(ss) <==> exists j :: 0 <= j < |ss| && x in ss[j]
  {
    if ss != [] {
      FlattenMembers(ss[1..], x);
      if x in Flatten(ss[1..]) {
        var j :| 0 <= j < |ss[1..]| && x in ss[1..][j];
        assert x in ss[j + 1];
      }
      if exists j :: 0 <= j < |ss| && x in ss[j] {
        var j :| 0 <= j < |ss| && x in ss[j];
        if j > 0 {
          assert x in ss[1..][j - 1];
        }
      }
    }
  }

  lemma {:induction false} FlattenAppend(a: seq<seq<Symbol>>, b: seq<seq<Symbol>>)
    ensures Flatten(a + b) == Flatten(a) + Flatten(b)
  {
    if a == [] {
      assert a + b == b;
    } else {
      assert (a + b)[1..] == a[1..] + b;
      FlattenAppend(a[1..], b);
    }
  }

  /** The akshara texts of a decomposition, in order. */
  function AksharasOf(syllables: seq<Syllable>): (r: seq<Akshara>)
    ensures |r| == |syllables|
    ensures forall i :: 0 <= i < |r| ==> r[i] == syllables[i].akshara
  {
    seq(|syllables|, i requires 0 <= i < |syllables| => syllables[i].akshara)
  }

  /** The vinyaasas of a decomposition, one per akshara. */
  function VinyaasasOf(syllables: seq<Syllable>): (r: seq<seq<Symbol>>)
    ensures |r| == |syllables|
    ensures forall i :: 0 <= i < |r| ==> r[i] == syllables[i].vinyaasa
  {
    seq(|syllables|, i requires 0 <= i < |syllables| => syllables[i].vinyaasa)
  }

  /**
    The vinyaasa of the whole word. The library is taken to decompose a word
    into exactly the concatenation of its aksharas' vinyaasas.
  */
  function WordVinyaasa(syllables: seq<Syllable>): seq<Symbol>
  {
    Flatten(VinyaasasOf(syllables))
  }

  /** A symbol is in the word's vinyaasa exactly when it is in some akshara's vinyaasa. */
  lemma WordVinyaasaMembers(syllables: seq<Syllable>, x: Symbol)
    ensures x in WordVinyaasa(syllables) <==> exists k :: 0 <= k < |syllables| && x in syllables[k].vinyaasa
  {
    var vs := VinyaasasOf(syllables);
    FlattenMembers(vs, x);
    if exists j :: 0 <= j < |vs| && x in vs[j] {
      var j :| 0 <= j < |vs| && x in vs[j];
      assert x in syllables[j].vinyaasa;
    }
  }

  /** The sub-symbols of a vinyaasa that are svaras, in order. */
  function SvarasOf(vinyaasa: seq<Symbol>): seq<Symbol>
  {
    if vinyaasa == [] then []
    else (if IsSvara(vinyaasa[0]) then [vinyaasa[0]] else []) + SvarasOf(vinyaasa[1..])
  }

  /** The sub-symbols of a vinyaasa that are not svaras, in order. */
  function VyanjanasOf(vinyaasa: seq<Symbol>): seq<Symbol>
  {
    if vinyaasa == [] then []
    else (if IsSvara(vinyaasa[0]) then [] else [vinyaasa[0]]) + VyanjanasOf(vinyaasa[1..])
  }

  /** The svaras kept are exactly the sub-symbols that are svaras; the vyanjanas, exactly the others. */
  lemma {:induction false} FiltersMembers(vinyaasa: seq<Symbol>, x: Symbol)
    ensures x in SvarasOf(vinyaasa) <==> x in vinyaasa && IsSvara(x)
    ensures x in VyanjanasOf(vinyaasa) <==> x in vinyaasa && !IsSvara(x)
  {
    if vinyaasa != [] {
      FiltersMembers(vinyaasa[1..], x);
      assert vinyaasa == [vinyaasa[0]] + vinyaasa[1..];
    }
  }

  /** The svara kept for an akshara is the first sub-symbol of its vinyaasa that is a svara. */
  lemma {:induction false} SvaraIsFirstSvara(vinyaasa: seq<Symbol>)
    requires SvarasOf(vinyaasa) != []
    ensures exists k :: (0 <= k < |vinyaasa| && vinyaasa[k] == SvarasOf(vinyaasa)[0]
                         && forall j :: 0 <= j < k ==> !IsSvara(vinyaasa[j]))
  {
    if !IsSvara(vinyaasa[0]) {
      SvaraIsFirstSvara(vinyaasa[1..]);
      var k :| 0 <= k < |vinyaasa[1..]| && vinyaasa[1..][k] == SvarasOf(vinyaasa[1..])[0]
        && (forall j :: 0 <= j < k ==> !IsSvara(vinyaasa[1..][j]));
      assert vinyaasa[k + 1] == SvarasOf(vinyaasa)[0];
      forall j | 0 <= j < k + 1 ensures !IsSvara(vinyaasa[j]) {
        if j > 0 { assert vinyaasa[j] == vinyaasa[1..][j - 1]; }
      }
    }
  }

  lemma AppendAssociates(x: seq<Symbol>, y: seq<Symbol>, z: seq<Symbol>)
    ensures x + (y + z) == (x + y) + z
  {
  }

  /** Both filters distribute over concatenation, so each keeps the order of the vinyaasa. */
  lemma {:induction false} FiltersAppend(a: seq<Symbol>, b: seq<Symbol>)
    ensures SvarasOf(a + b) == SvarasOf(a) + SvarasOf(b)
    ensures VyanjanasOf(a + b) == VyanjanasOf(a) + VyanjanasOf(b)
  {
    if a == [] {
      assert a + b == b;
    } else {
      var ab := a + b;
      assert ab[0] == a[0] && ab[1..] == a[1..] + b;
      FiltersAppend(a[1..], b);
      var x := a[0];
      var sHead := if IsSvara(x) then [x] else [];
      var vHead := if IsSvara(x) then [] else [x];
      assert SvarasOf(a) == sHead + SvarasOf(a[1..]);
      assert VyanjanasOf(a) == vHead + VyanjanasOf(a[1..]);
      assert SvarasOf(ab) == sHead + (SvarasOf(a[1..]) + SvarasOf(b));
      assert VyanjanasOf(ab) == vHead + (VyanjanasOf(a[1..]) + VyanjanasOf(b));
      AppendAssociates(sHead, SvarasOf(a[1..]), SvarasOf(b));
      AppendAssociates(vHead, VyanjanasOf(a[1..]), VyanjanasOf(b));
    }
  }

  /** Together the two filters keep every sub-symbol exactly once: nothing is lost or invented. */
  lemma {:induction false} FiltersPartition(vinyaasa: seq<Symbol>)
    ensures multiset(vinyaasa) == multiset(SvarasOf(vinyaasa)) + multiset(VyanjanasOf(vinyaasa))
  {
    if vinyaasa != [] {
      assert vinyaasa == [vinyaasa[0]] + vinyaasa[1..];
      FiltersPartition(vinyaasa[1..]);
    }
  }

  /**
    For an akshara with exactly one svara, its svara and its vyanjana cluster
    together are its vinyaasa, up to order.
  */
  lemma SingleSvaraLossless(vinyaasa: seq<Symbol>)
    requires |SvarasOf(vinyaasa)| == 1
    ensures multiset(vinyaasa) == multiset{SvarasOf(vinyaasa)[0]} + multiset(VyanjanasOf(vinyaasa))
  {
    FiltersPartition(vinyaasa);
    assert SvarasOf(vinyaasa) == [SvarasOf(vinyaasa)[0]];
  }

  /** The position of the first akshara whose vinyaasa holds no svara, or the length if there is none. */
  function FirstSvaraless(syllables: seq<Syllable>): (k: nat)
    ensures k <= |syllables|
    ensures forall j :: 0 <= j < k ==> SvarasOf(syllables[j].vinyaasa) != []
    ensures k < |syllables| ==> SvarasOf(syllables[k].vinyaasa) == []
  {
    if syllables == [] then 0
    else if SvarasOf(syllables[0].vinyaasa) == [] then 0
    else 1 + FirstSvaraless(syllables[1..])
  }

  /** `FirstSvaraless` is pinned down by the svara-less position it stops at. */
  lemma FirstSvaralessAt(syllables: seq<Syllable>, i: nat)
    requires i <= |syllables|
    requires forall j :: 0 <= j < i ==> SvarasOf(syllables[j].vinyaasa) != []
    requires i < |syllables| ==> SvarasOf(syllables[i].vinyaasa) == []
    ensures FirstSvaraless(syllables) == i
  {
  }

  /** The outcome of `ConstructionError` once the scan of the aksharas has stopped at `i`. */
  lemma ConstructionErrorAt(syllables: seq<Syllable>, i: nat)
    requires ANUSVARA !in WordVinyaasa(syllables)
    requires i <= |syllables|
    requires forall j :: 0 <= j < i ==> SvarasOf(syllables[j].vinyaasa) != []
    requires i < |syllables| ==> SvarasOf(syllables[i].vinyaasa) == []
    ensures ConstructionError(syllables) == if i < |syllables| then Some(MissingSvara(i)) else None
  {
    FirstSvaralessAt(syllables, i);
  }

  /**
    The error, if any, that building a word from this decomposition raises:
    the anusvara check comes first, then the first akshara without a svara.
  */
  function ConstructionError(syllables: seq<Syllable>): (e: Option<WordError>)
    ensures e == Some(UnsupportedAnusvara) <==>
      exists k :: 0 <= k < |syllables| && ANUSVARA in syllables[k].vinyaasa
    ensures e.None? <==>
      forall k :: 0 <= k < |syllables| ==>
        ANUSVARA !in syllables[k].vinyaasa && SvarasOf(syllables[k].vinyaasa) != []
    ensures e.Some? && e.value.MissingSvara? ==>
      e.value.index < |syllables| && SvarasOf(syllables[e.value.index].vinyaasa) == []
      && forall j :: 0 <= j < e.value.index ==> SvarasOf(syllables[j].vinyaasa) != []
  {
    WordVinyaasaMembers(syllables, ANUSVARA);
    if ANUSVARA in WordVinyaasa(syllables) then Some(UnsupportedAnusvara)
    else
      var k := FirstSvaraless(syllables);
      if k < |syllables| then Some(MissingSvara(k)) else None
  }

  /** The first `n` svaras and vyanjana clusters are those the decomposition determines. */
  ghost predicate DecomposedUpTo(syllables: seq<Syllable>, svaras: seq<Symbol>, vyanjanas: seq<seq<Symbol>>, n: nat)
  {
    && n <= |syllables|
    && |svaras| == n
    && |vyanjanas| == n
    && forall i :: 0 <= i < n ==>
         && SvarasOf(syllables[i].vinyaasa) != []
         && svaras[i] == SvarasOf(syllables[i].vinyaasa)[0]
         && vyanjanas[i] == VyanjanasOf(syllables[i].vinyaasa)
  }

  /** Decomposing one more akshara extends the decomposed prefix by its svara and its cluster. */
  lemma DecomposedStep(syllables: seq<Syllable>, svaras: seq<Symbol>, vyanjanas: seq<seq<Symbol>>, n: nat)
    requires DecomposedUpTo(syllables, svaras, vyanjanas, n)
    requires n < |syllables| && SvarasOf(syllables[n].vinyaasa) != []
    ensures DecomposedUpTo(syllables, svaras + [SvarasOf(syllables[n].vinyaasa)[0]],
                           vyanjanas + [VyanjanasOf(syllables[n].vinyaasa)], n + 1)
  {
  }

  /** A word and its per-akshara views. */
  class Word {
    const word: string
    var aksharas: seq<Akshara>
    var svaras: seq<Symbol>
    var vyanjanas: seq<seq<Symbol>>

    /** The views are parallel to the aksharas and each holds only what its name says. */
    ghost predicate Valid()
      reads this
    {
      && |svaras| == |aksharas|
      && |vyanjanas| == |aksharas|
      && (forall i :: 0 <= i < |svaras| ==> IsSvara(svaras[i]))
      && (forall i, v :: 0 <= i < |vyanjanas| && v in vyanjanas[i] ==> !IsSvara(v))
    }

    /** The views are exactly those the decomposition determines, akshara by akshara. */
    ghost predicate Decomposes(syllables: seq<Syllable>)
      reads this
    {
      aksharas == AksharasOf(syllables) && DecomposedUpTo(syllables, svaras, vyanjanas, |syllables|)
    }

    /** A word whose views come from a decomposition keeps the views' invariant. */
    lemma DecomposedIsValid(syllables: seq<Syllable>)
      requires Decomposes(syllables)
      ensures Valid()
    {
      forall i | 0 <= i < |svaras| ensures IsSvara(svaras[i]) {
        FiltersMembers(syllables[i].vinyaasa, svaras[i]);
      }
      forall i, v | 0 <= i < |vyanjanas| && v in vyanjanas[i] ensures !IsSvara(v) {
        FiltersMembers(syllables[i].vinyaasa, v);
      }
    }

    /** The dataclass initialiser: the word, and empty lists for the derived fields. */
    constructor (word: string)
      ensures this.word == word
      ensures aksharas == [] && svaras == [] && vyanjanas == []
    {
      this.word := word;
      aksharas := [];
      svaras := [];
      vyanjanas := [];
    }

    /**
      Fills the derived fields from the decomposition of `word`, akshara by
      akshara, or reports the error the source raises.
    */
    method PostInit(syllables: seq<Syllable>) returns (error: Option<WordError>)
      requires aksharas == [] && svaras == [] && vyanjanas == []
      modifies this
      ensures error == ConstructionError(syllables)
      ensures error.None? ==> Valid() && Decomposes(syllables)
    {
      if ANUSVARA in WordVinyaasa(syllables) {
        return Some(UnsupportedAnusvara);
      }
      aksharas := AksharasOf(syllables);
      var i := 0;
      while i < |aksharas|
        invariant 0 <= i <= |aksharas| == |syllables|
        invariant aksharas == AksharasOf(syllables)
        invariant DecomposedUpTo(syllables, svaras, vyanjanas, i)
      {
        var vinyaasa := syllables[i].vinyaasa;
        var found := SvarasOf(vinyaasa);
        if found == [] {
          ConstructionErrorAt(syllables, i);
          return Some(MissingSvara(i));
        }
        DecomposedStep(syllables, svaras, vyanjanas, i);
        svaras := svaras + [found[0]];
        vyanjanas := vyanjanas + [VyanjanasOf(vinyaasa)];
        i := i + 1;
      }
      ConstructionErrorAt(syllables, i);
      DecomposedIsValid(syllables);
      return None;
    }

    /** Builds a word from its decomposition; fails exactly as `ConstructionError` says. */
    static method New(word: string, syllables: seq<Syllable>) returns (r: Result<Word, WordError>)
      ensures r.Err? <==> ConstructionError(syllables).Some?
      ensures r.Err? ==> r.error == ConstructionError(syllables).value
      ensures r.Ok? ==> (fresh(r.value) && r.value.word == word
                         && r.value.Valid() && r.value.Decomposes(syllables))
    {
      var w := new Word(word);
      var error := w.PostInit(syllables);
      if error.Some? {
        return Err(error.value);
      }
      return Ok(w);
    }

    function IsAksharaCorrect(akshara: Akshara, index: nat): (b: bool)
      reads this
      requires index < |aksharas|
      ensures b <==> aksharas[index] == akshara
      ensures b ==> IsAksharaPresent(akshara)
    {
      akshara == aksharas[index]
    }

    function IsAksharaPresent(akshara: Akshara): (b: bool)
      reads this
      ensures b <==> exists j :: 0 <= j < |aksharas| && aksharas[j] == akshara
    {
      akshara in aksharas
    }

    function IsSvaraPresent(svara: Symbol): (b: bool)
      reads this
      ensures b <==> exists j :: 0 <= j < |svaras| && svaras[j] == svara
      ensures b && Valid() ==> IsSvara(svara)
    {
      svara in svaras
    }

    /** Membership in the flattened vyanjana clusters: `v` is in some akshara's cluster. */
    function IsVyanjanaPresent(vyanjana: Symbol): (b: bool)
      reads this
      ensures b <==> exists j :: 0 <= j < |vyanjanas| && vyanjana in vyanjanas[j]
      ensures b && Valid() ==> !IsSvara(vyanjana)
    {
      FlattenMembers(vyanjanas, vyanjana);
      vyanjana in Flatten(vyanjanas)
    }

    /** The svara at `index` is `svara`. */
    function IsSvaraCorrect(svara: Symbol, index: nat): (b: bool)
      reads this
      requires index < |svaras|
      ensures b ==> IsSvaraPresent(svara)
    {
      svaras[index] == svara
    }

    /** `vyanjana` is one of the consonants of the cluster at `index`. */
    function IsVyanjanaCorrect(vyanjana: Symbol, index: nat): (b: bool)
      reads this
      requires index < |vyanjanas|
      ensures b ==> IsVyanjanaPresent(vyanjana)
    {
      vyanjana in vyanjanas[index]
    }
  }
}
