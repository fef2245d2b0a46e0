/**
  The comparison engine: given the secret word and a guess with as many
  aksharas, one (vyanjana status, svara status) pair per position.

  A position's pair is decided by the guess's akshara, svara and vyanjana
  cluster at that position and by the secret word alone; there is no pass
  that adjusts one position's result by another's.
*/
module Evaluate {
  import opened Wrappers
  import opened WordProcessor

  datatype CellStatus = Correct | Present | Absent | Missing | Mismatch

  /** (vyanjana status, svara status) for one position. */
  type PositionResult = (CellStatus, CellStatus)

  /** Why a comparison cannot be set up. */
  datatype CompareError = LengthMismatch

  /**
    The svara side of the fallback rule: at the same position, else anywhere
    in the secret, else nowhere.
  */
  function SvaraStatus(secret: Word, svara: Symbol, index: nat): (r: CellStatus)
    reads secret
    requires secret.Valid() && index < |secret.aksharas|
    ensures r == Correct <==> secret.svaras[index] == svara
    ensures r == Present <==> secret.svaras[index] != svara && svara in secret.svaras
    ensures r == Absent <==> svara !in secret.svaras
  {
    if secret.IsSvaraCorrect(svara, index) then Correct
    else if secret.IsSvaraPresent(svara) then Present
    else Absent
  }

  /**
    The vyanjana side of the fallback rule: some guessed consonant is in the
    secret's cluster at the same position, else some guessed consonant is in
    some cluster of the secret, else none is.
  */
  function VyanjanaStatus(secret: Word, vyanjanas: seq<Symbol>, index: nat): (r: CellStatus)
    reads secret
    requires secret.Valid() && index < |secret.aksharas|
    ensures r == Correct <==> exists v :: v in vyanjanas && v in secret.vyanjanas[index]
    ensures r == Absent <==>
      forall v, j :: v in vyanjanas && 0 <= j < |secret.vyanjanas| ==> v !in secret.vyanjanas[j]
    ensures r == Present <==> !(r == Correct || r == Absent)
    ensures vyanjanas == [] ==> r == Absent
  {
    if exists v | v in vyanjanas :: secret.IsVyanjanaCorrect(v, index) then Correct
    else if exists v | v in vyanjanas :: secret.IsVyanjanaPresent(v) then Present
    else Absent
  }

  /**
    The result at position `index` for a guessed akshara with the given svara
    and vyanjana cluster: the whole akshara at the same position, else the
    whole akshara elsewhere, else the two sides separately, with equal sides
    collapsed into one pair.
  */
  function Cell(secret: Word, akshara: Akshara, svara: Symbol, vyanjanas: seq<Symbol>, index: nat)
    : (r: PositionResult)
    reads secret
    requires secret.Valid() && index < |secret.aksharas|
    ensures r == (Correct, Correct) <==> secret.aksharas[index] == akshara
    ensures r == (Present, Present) <==>
      secret.aksharas[index] != akshara && akshara in secret.aksharas
    ensures r.0 == Missing <==> r.1 == Missing
    ensures r.0 == Mismatch <==> r.1 == Mismatch
  {
    if secret.IsAksharaCorrect(akshara, index) then (Correct, Correct)
    else if secret.IsAksharaPresent(akshara) then (Present, Present)
    else
      var svaraStatus := SvaraStatus(secret, svara, index);
      var vyanjanaStatus := VyanjanaStatus(secret, vyanjanas, index);
      if svaraStatus == vyanjanaStatus then
        if svaraStatus == Absent then (Absent, Absent)
        else if svaraStatus == Present then (Mismatch, Mismatch)
        else (Missing, Missing)
      else (vyanjanaStatus, svaraStatus)
  }

  /**
    When the guessed akshara is nowhere in the secret, equal sides collapse
    (both absent, both present elsewhere, both at the position) and unequal
    sides are reported as they are.
  */
  lemma FallbackPairs(secret: Word, akshara: Akshara, svara: Symbol, vyanjanas: seq<Symbol>, index: nat)
    requires secret.Valid() && index < |secret.aksharas|
    requires akshara !in secret.aksharas
    ensures var s, v := SvaraStatus(secret, svara, index), VyanjanaStatus(secret, vyanjanas, index);
      var r := Cell(secret, akshara, svara, vyanjanas, index);
      && (r == (Absent, Absent) <==> s == Absent && v == Absent)
      && (r == (Mismatch, Mismatch) <==> s == Present && v == Present)
      && (r == (Missing, Missing) <==> s == Correct && v == Correct)
      && (s != v ==> r == (v, s))
  {
  }

  /** The result for every position of `guess` against `secret`. */
  ghost function Statuses(secret: Word, guess: Word): (r: seq<PositionResult>)
    reads secret, guess
    requires secret.Valid() && guess.Valid() && |secret.aksharas| == |guess.aksharas|
    ensures |r| == |guess.aksharas|
  {
    seq(|guess.aksharas|, i reads secret, guess
                           requires secret.Valid() && guess.Valid()
                           requires 0 <= i < |guess.aksharas| == |secret.aksharas|
                           => Cell(secret, guess.aksharas[i], guess.svaras[i], guess.vyanjanas[i], i))
  }

  /**
    The win test: every position is (Correct, Correct) exactly when the guess
    has the secret's aksharas.
  */
  lemma {:induction false} AllCorrectIffSameAksharas(secret: Word, guess: Word)
    requires secret.Valid() && guess.Valid() && |secret.aksharas| == |guess.aksharas|
    ensures Statuses(secret, guess) == seq(|guess.aksharas|, _ => (Correct, Correct))
      <==> guess.aksharas == secret.aksharas
  {
    var n := |guess.aksharas|;
    var all := seq(n, _ => (Correct, Correct));
    var r := Statuses(secret, guess);
    if r == all {
      forall i | 0 <= i < n ensures guess.aksharas[i] == secret.aksharas[i] {
        assert r[i] == all[i];
      }
    }
    if guess.aksharas == secret.aksharas {
      forall i | 0 <= i < n ensures r[i] == all[i] {
      }
    }
  }

  /**
    A position's result depends only on the guess's akshara, svara and cluster
    at that position: no other position of the guess affects it.
  */
  lemma PositionsAreIndependent(secret: Word, guess1: Word, guess2: Word, i: nat)
    requires secret.Valid() && guess1.Valid() && guess2.Valid()
    requires |guess1.aksharas| == |secret.aksharas| == |guess2.aksharas|
    requires i < |secret.aksharas|
    requires guess1.aksharas[i] == guess2.aksharas[i]
    requires guess1.svaras[i] == guess2.svaras[i]
    requires guess1.vyanjanas[i] == guess2.vyanjanas[i]
    ensures Statuses(secret, guess1)[i] == Statuses(secret, guess2)[i]
  {
  }

  /** A word compared with itself wins. */
  lemma SelfComparisonWins(w: Word)
    requires w.Valid()
    ensures Statuses(w, w) == seq(|w.aksharas|, _ => (Correct, Correct))
  {
    AllCorrectIffSameAksharas(w, w);
  }

  /** A comparison of the secret `word` with `guess`, and its result list. */
  class Compare {
    const word: Word
    const guess: Word
    var status: seq<PositionResult>

    ghost predicate Valid()
      reads this, word, guess
    {
      && word.Valid()
      && guess.Valid()
      && |word.aksharas| == |guess.aksharas|
      && |status| == |guess.aksharas|
    }

    /** The dataclass initialiser: both words, and an empty status list. */
    constructor (word: Word, guess: Word)
      ensures this.word == word && this.guess == guess && status == []
    {
      this.word := word;
      this.guess := guess;
      status := [];
    }

    /** Rejects words of different lengths, else starts every position at (Absent, Absent). */
    method PostInit() returns (error: Option<CompareError>)
      requires word.Valid() && guess.Valid()
      modifies this
      ensures error.Some? <==> |word.aksharas| != |guess.aksharas|
      ensures error.None? ==> Valid() && status == seq(|guess.aksharas|, _ => (Absent, Absent))
    {
      if |word.aksharas| != |guess.aksharas| {
        return Some(LengthMismatch);
      }
      status := seq(|guess.aksharas|, _ => (Absent, Absent));
      return None;
    }

    /** Sets up a comparison; fails exactly when the akshara counts differ. */
    static method New(word: Word, guess: Word) returns (r: Result<Compare, CompareError>)
      requires word.Valid() && guess.Valid()
      ensures r.Err? <==> |word.aksharas| != |guess.aksharas|
      ensures r.Ok? ==> (fresh(r.value) && r.value.word == word && r.value.guess == guess
                         && r.value.Valid()
                         && r.value.status == seq(|guess.aksharas|, _ => (Absent, Absent)))
    {
      var c := new Compare(word, guess);
      var error := c.PostInit();
      if error.Some? {
        return Err(error.value);
      }
      return Ok(c);
    }

    /**
      The result for the guess's akshara at `index`: the whole akshara at the
      same position, else anywhere in the secret, else the svara and the
      vyanjana cluster judged separately and equal sides collapsed.
    */
    method PositionStatus(index: nat) returns (r: PositionResult)
      requires Valid() && index < |guess.aksharas|
      ensures r == Cell(word, guess.aksharas[index], guess.svaras[index], guess.vyanjanas[index], index)
    {
      var akshara := guess.aksharas[index];
      if word.IsAksharaCorrect(akshara, index) {
        return (Correct, Correct);
      } else if word.IsAksharaPresent(akshara) {
        return (Present, Present);
      }
      var vyanjanas := guess.vyanjanas[index];
      var svara := guess.svaras[index];

      var vyanjanaCheck := exists v | v in vyanjanas :: word.IsVyanjanaPresent(v);
      var svaraCheck := word.IsSvaraPresent(svara);

      var svaraPositionCheck := word.IsSvaraCorrect(svara, index);
      var vyanjanaPositionCheck := exists v | v in vyanjanas :: word.IsVyanjanaCorrect(v, index);

      var svaraStatus, vyanjanaStatus;
      if svaraPositionCheck {
        svaraStatus := Correct;
      } else if svaraCheck {
        svaraStatus := Present;
      } else {
        svaraStatus := Absent;
      }

      if vyanjanaPositionCheck {
        vyanjanaStatus := Correct;
      } else if vyanjanaCheck {
        vyanjanaStatus := Present;
      } else {
        vyanjanaStatus := Absent;
      }

      if svaraStatus == vyanjanaStatus {
        if svaraStatus == Absent {
          r := (Absent, Absent);
        } else if svaraStatus == Present {
          r := (Mismatch, Mismatch);
        } else {
          assert svaraStatus == Correct;
          r := (Missing, Missing);
        }
      } else {
        r := (vyanjanaStatus, svaraStatus);
      }
    }

    /** Overwrites every position's status with its result; the words are not changed. */
    method Compare()
      requires Valid()
      modifies this
      ensures Valid()
      ensures status == Statuses(word, guess)
      ensures unchanged(word) && unchanged(guess)
    {
      for index := 0 to |guess.aksharas|
        invariant Valid()
        invariant forall j :: 0 <= j < index ==>
          status[j] == Cell(word, guess.aksharas[j], guess.svaras[j], guess.vyanjanas[j], j)
      {
        var r := PositionStatus(index);
        status := status[index := r];
      }
    }
  }

  /** Comparing twice gives the same statuses: nothing but the status list is written. */
  method CompareTwice(c: Compare) returns (first: seq<PositionResult>, second: seq<PositionResult>)
    requires c.Valid()
    modifies c
    ensures first == second == c.status == Statuses(c.word, c.guess)
  {
    c.Compare();
    first := c.status;
    c.Compare();
    second := c.status;
  }
}
