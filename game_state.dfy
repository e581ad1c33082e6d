/** The progression state of one game session: the shuffled words of the
    active planet, the cursor into them, the number of correct answers, the
    completion flag, and the map from planet id to the last completed score. */
module GameState {
  import opened GameData

  class GameSession {
    /** The planet the session is showing, if the id resolved to one. */
    var planet: Option<Planet>
    var currentWordIndex: nat
    var correctAnswers: nat
    var shuffledWords: seq<string>
    var isComplete: bool
    /** Stored scores by planet id; the browser storage behind it is not modelled. */
    var progress: map<string, int>

    /** The two counters move together, the flag records that the cursor
        has run past the words, and the words are those of the planet. */
    ghost predicate Valid()
      reads this
    {
      && correctAnswers == currentWordIndex
      && (isComplete ==> currentWordIndex >= |shuffledWords|)
      && (currentWordIndex > 0 ==> (isComplete <==> currentWordIndex >= |shuffledWords|))
      && (planet.Some? ==> multiset(shuffledWords) == multiset(planet.value.words))
    }

    /** A fresh round: the planet's words in a new order, both counters at zero. */
    ghost predicate AtStart()
      reads this
    {
      && planet.Some?
      && multiset(shuffledWords) == multiset(planet.value.words)
      && currentWordIndex == 0 && correctAnswers == 0 && !isComplete
    }

    /** Mounting the hook: the empty initial state, then the effect that
        deals the words when a planet is given. `saved` is whatever the
        progress store held. */
    constructor (planet: Option<Planet>, saved: map<string, int>)
      ensures Valid()
      ensures this.planet == planet && progress == saved
      ensures planet.Some? ==> AtStart()
      ensures planet.None? ==> currentWordIndex == 0 && correctAnswers == 0
                               && shuffledWords == [] && !isComplete
    {
      this.planet := planet;
      progress := saved;
      currentWordIndex := 0;
      correctAnswers := 0;
      shuffledWords := [];
      isComplete := false;
      new;
      if planet.Some? {
        StartRound();
      }
    }

    /** Deals the active planet's words afresh and zeroes the counters. */
    method StartRound()
      requires planet.Some?
      modifies this
      ensures Valid() && AtStart()
      ensures planet == old(planet) && progress == old(progress)
    {
      var shuffled := ShuffleArray(planet.value.words);
      shuffledWords := shuffled;
      currentWordIndex := 0;
      correctAnswers := 0;
      isComplete := false;
    }

    /** The effect that runs when the planet changes (and only then): a new
        planet starts a new round; no planet leaves the round state as it was. */
    method PlanetChanged(p: Option<Planet>)
      requires Valid() && p != planet
      modifies this
      ensures Valid() && planet == p && progress == old(progress)
      ensures p.Some? ==> AtStart()
      ensures p.None? ==> currentWordIndex == old(currentWordIndex) && correctAnswers == old(correctAnswers)
                          && shuffledWords == old(shuffledWords) && isComplete == old(isComplete)
    {
      planet := p;
      if p.Some? {
        StartRound();
      }
    }

    /** The word to find, or "" when there is none to ask: no planet, no
        words, or every word already answered. */
    function GetCurrentWord(): (w: string)
      reads this
      ensures planet.None? || |shuffledWords| == 0 ==> w == ""
      ensures Valid() && isComplete ==> w == ""
      ensures Valid() && planet.Some? && !isComplete && |shuffledWords| > 0 ==>
                w == shuffledWords[currentWordIndex]
    {
      if planet.None? || |shuffledWords| == 0 then ""
      else if currentWordIndex < |shuffledWords| then shuffledWords[currentWordIndex]
      else ""
    }

    /** The value the page compares a pick against. Past the end of the
        words the code reads an array element that is not there, which
        equals no string: that is `None`. Otherwise it is the current word. */
    function AskedWord(): (r: Option<string>)
      reads this
      ensures r.None? <==> planet.Some? && |shuffledWords| > 0 && currentWordIndex >= |shuffledWords|
      ensures r.Some? ==> r.value == GetCurrentWord()
    {
      if planet.None? || |shuffledWords| == 0 then Some("")
      else if currentWordIndex < |shuffledWords| then Some(shuffledWords[currentWordIndex])
      else None
    }

    /** The options shown for the current word: the word itself and up to
        two wrong answers from other planets, in a fresh random order. */
    method GetWordOptions() returns (options: seq<string>)
      ensures GetCurrentWord() == "" ==> options == []
      ensures GetCurrentWord() != "" ==>
                planet.Some? && IsOptionSet(options, GetCurrentWord(), planet.value.words)
    {
      var currentWord := GetCurrentWord();
      if currentWord == "" {
        return [];
      }
      var wrongAnswers := GenerateWrongAnswers(currentWord, planet.value.words);
      options := ShuffleArray([currentWord] + wrongAnswers);
      OptionSetOfShuffle(options, currentWord, planet.value.words, wrongAnswers);
    }

    /** A correct answer: both counters advance by one; reaching the end of
        the words sets the flag and stores the score under the planet's id,
        replacing whatever was stored there. */
    method HandleCorrectAnswer()
      requires Valid()
      modifies this
      ensures Valid()
      ensures correctAnswers == old(correctAnswers) + 1
      ensures currentWordIndex == old(currentWordIndex) + 1
      ensures shuffledWords == old(shuffledWords) && planet == old(planet)
      ensures isComplete <==> currentWordIndex >= |shuffledWords|
      ensures progress == if isComplete && planet.Some?
                          then old(progress)[planet.value.id := correctAnswers]
                          else old(progress)
    {
      var newCorrectAnswers := correctAnswers + 1;
      var newWordIndex := currentWordIndex + 1;
      var complete := newWordIndex >= |shuffledWords|;
      correctAnswers := newCorrectAnswers;
      currentWordIndex := newWordIndex;
      isComplete := complete;
      if complete && planet.Some? {
        progress := progress[planet.value.id := newCorrectAnswers];
      }
    }

    /** The player picks `selected`: only the asked word counts as correct,
        a wrong pick changes nothing, and once a round with words is
        complete no pick is correct. */
    method Submit(selected: string) returns (correct: bool)
      requires Valid()
      modifies this
      ensures Valid()
      ensures correct == (old(AskedWord()) == Some(selected))
      ensures old(isComplete) && planet.Some? && |shuffledWords| > 0 ==> !correct
      ensures correct ==> correctAnswers == old(correctAnswers) + 1
                          && currentWordIndex == old(currentWordIndex) + 1
                          && (isComplete <==> currentWordIndex >= |shuffledWords|)
                          && progress == if isComplete && planet.Some?
                                         then old(progress)[planet.value.id := correctAnswers]
                                         else old(progress)
      ensures !correct ==> correctAnswers == old(correctAnswers) && currentWordIndex == old(currentWordIndex)
                           && isComplete == old(isComplete) && progress == old(progress)
      ensures shuffledWords == old(shuffledWords) && planet == old(planet)
    {
      correct := AskedWord() == Some(selected);
      if correct {
        HandleCorrectAnswer();
      }
    }

    /** Play again: with a planet, the same state as a new round; without
        one, nothing happens. */
    method ResetGame()
      requires Valid()
      modifies this
      ensures Valid() && planet == old(planet) && progress == old(progress)
      ensures planet.Some? ==> AtStart()
      ensures planet.None? ==> currentWordIndex == old(currentWordIndex) && correctAnswers == old(correctAnswers)
                               && shuffledWords == old(shuffledWords) && isComplete == old(isComplete)
    {
      if planet.Some? {
        StartRound();
      }
    }
  }

  /** What the option list promises about the word `cw` to find on a planet
      with words `own`: the word exactly once, at most two others, each of
      them a word of another planet, none repeated. */
  ghost predicate IsOptionSet(options: seq<string>, cw: string, own: seq<string>)
  {
    && multiset(options)[cw] == 1
    && |options| == 1 + (if |WrongPool(cw, own)| < MaxWrongAnswers then |WrongPool(cw, own)| else MaxWrongAnswers)
    && (forall w :: w in options && w != cw ==> w in AllWords && w !in own)
    && multiset(options) - multiset{cw} <= multiset(WrongPool(cw, own))
    && Distinct(options)
  }

  /** Shuffling the correct word together with the generated wrong answers yields an option set. */
  lemma OptionSetOfShuffle(options: seq<string>, cw: string, own: seq<string>, wrong: seq<string>)
    requires |wrong| == if |WrongPool(cw, own)| < MaxWrongAnswers then |WrongPool(cw, own)| else MaxWrongAnswers
    requires forall w :: w in wrong ==> w in AllWords && w != cw && w !in own
    requires multiset(wrong) <= multiset(WrongPool(cw, own))
    requires Distinct(wrong)
    requires multiset(options) == multiset([cw] + wrong)
    ensures IsOptionSet(options, cw, own)
  {
    ShuffledCandidates(options, cw, wrong);
  }

  /** A permutation of `[cw] + wrong`, where `wrong` is distinct and avoids
      `cw`, holds `cw` once, holds otherwise exactly `wrong`, and is distinct. */
  lemma ShuffledCandidates<T>(options: seq<T>, cw: T, wrong: seq<T>)
    requires cw !in wrong && Distinct(wrong)
    requires multiset(options) == multiset([cw] + wrong)
    ensures multiset(options)[cw] == 1 && |options| == 1 + |wrong|
    ensures multiset(options) - multiset{cw} == multiset(wrong)
    ensures forall w :: w in options && w != cw ==> w in wrong
    ensures Distinct(options)
  {
    var candidates := [cw] + wrong;
    assert multiset(candidates) == multiset{cw} + multiset(wrong);
    assert |options| == |multiset(options)| == |candidates|;
    forall w | w in options && w != cw ensures w in wrong {
      assert w in multiset(candidates);
    }
    assert Distinct(candidates) by {
      forall i, j | 0 <= i < j < |candidates| ensures candidates[i] != candidates[j] {
        assert candidates[j] == wrong[j - 1];
        if i > 0 { assert candidates[i] == wrong[i - 1]; }
      }
    }
    DistinctSub(options, candidates);
  }

  /** While a round is running, the word asked is one of the planet's words. */
  lemma CurrentWordInPlanet(s: GameSession)
    requires s.Valid() && s.planet.Some? && !s.isComplete && |s.shuffledWords| > 0
    ensures s.GetCurrentWord() in s.planet.value.words
  {
    assert s.GetCurrentWord() in multiset(s.shuffledWords);
  }

  /** A whole round on planet `p`, answering the asked word each time:
      it ends complete, with one correct answer per word, and the store
      then holds that score under `p.id` and is otherwise as it was. */
  method PlayRound(p: Planet, saved: map<string, int>) returns (score: int, complete: bool, stored: map<string, int>)
    requires |p.words| > 0
    ensures complete && score == |p.words|
    ensures stored == saved[p.id := |p.words|]
  {
    var session := new GameSession(Some(p), saved);
    assert |session.shuffledWords| == |multiset(session.shuffledWords)| == |p.words|;
    while !session.isComplete
      invariant session.Valid() && session.planet == Some(p)
      invariant |session.shuffledWords| == |p.words|
      invariant session.currentWordIndex <= |session.shuffledWords|
      invariant session.progress == if session.isComplete then saved[p.id := session.correctAnswers] else saved
      decreases |p.words| - session.currentWordIndex
    {
      var correct := session.Submit(session.GetCurrentWord());
    }
    score, complete, stored := session.correctAnswers, session.isComplete, session.progress;
  }
}
