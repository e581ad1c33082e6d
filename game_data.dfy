/** The static content catalog of the game: the planets, the flattened
    vocabulary, lookup by id, the Fisher-Yates shuffle and the choice of
    wrong answers (distractors) shown beside the correct word. */
module GameData {

  datatype Option<T> = None | Some(value: T)

  /** One content set of the game. */
  datatype Planet = Planet(
    id: string,
    name: string,
    displayName: string,
    words: seq<string>,
    emoji: string,
    className: string)

  /** The catalog, in the order the planet map shows it. */
  const Planets: seq<Planet> := [
    Planet("zoom", "zoom", "Planet Zoom", ["the", "and", "is", "me"], "\U{1FA90}", "planet-zoom"),
    Planet("pop", "pop", "Planet Pop", ["run", "play", "big", "little"], "\U{1F30D}", "planet-pop"),
    Planet("zing", "zing", "Planet Zing", ["jump", "red", "you", "see"], "\U{1F30E}", "planet-zing")
  ]

  /** How many wrong answers are offered beside the correct one. */
  const MaxWrongAnswers: nat := 2

  predicate Distinct<T(==)>(s: seq<T>) {
    forall i, j :: 0 <= i < j < |s| ==> s[i] != s[j]
  }

  /** The words of the given planets, concatenated in order. */
  function Flatten(ps: seq<Planet>): (ws: seq<string>)
  {
    if ps == [] then [] else ps[0].words + Flatten(ps[1..])
  }

  lemma {:induction false} FlattenMembership(ps: seq<Planet>, w: string)
    ensures w in Flatten(ps) <==> exists k :: 0 <= k < |ps| && w in ps[k].words
  {
    if ps != [] {
      FlattenMembership(ps[1..], w);
      if w in Flatten(ps[1..]) {
        var k :| 0 <= k < |ps[1..]| && w in ps[1..][k].words;
        assert w in ps[k + 1].words;
      }
      if exists k :: 0 <= k < |ps| && w in ps[k].words {
        var k :| 0 <= k < |ps| && w in ps[k].words;
        if k > 0 {
          assert w in ps[1..][k - 1].words;
        }
      }
    }
  }

  /** Every word of every planet, in catalog order. */
  const AllWords: seq<string> := Flatten(Planets)

  lemma AllWordsContents()
    ensures AllWords == ["the", "and", "is", "me", "run", "play", "big", "little",
                         "jump", "red", "you", "see"]
  {
    assert Planets[1..][1..][1..] == [];
  }

  /** The twelve words are pairwise distinct, so distractors never repeat. */
  lemma AllWordsDistinct()
    ensures |AllWords| == 12 && Distinct(AllWords)
  {
    AllWordsContents();
  }

  /** The first planet of `ps` whose id is exactly `id`, if any. */
  function FindById(ps: seq<Planet>, id: string): (r: Option<Planet>)
    ensures r.None? <==> forall k :: 0 <= k < |ps| ==> ps[k].id != id
    ensures r.Some? ==> exists k :: 0 <= k < |ps| && ps[k] == r.value && r.value.id == id
                                    && forall j :: 0 <= j < k ==> ps[j].id != id
  {
    if ps == [] then None
    else if ps[0].id == id then Some(ps[0])
    else
      var r := FindById(ps[1..], id);
      assert r.None? ==> forall k :: 0 <= k < |ps| ==> ps[k].id != id by {
        if r.None? {
          forall k | 0 <= k < |ps| ensures ps[k].id != id {
            if k > 0 { assert ps[k] == ps[1..][k - 1]; }
          }
        }
      }
      assert r.Some? ==> exists k :: 0 <= k < |ps| && ps[k] == r.value && r.value.id == id
                                     && forall j :: 0 <= j < k ==> ps[j].id != id by {
        if r.Some? {
          var k :| 0 <= k < |ps[1..]| && ps[1..][k] == r.value && r.value.id == id
                   && forall j :: 0 <= j < k ==> ps[1..][j].id != id;
          assert forall j :: 0 <= j < k + 1 ==> ps[j].id != id by {
            forall j | 0 <= j < k + 1 ensures ps[j].id != id {
              if j > 0 { assert ps[j] == ps[1..][j - 1]; }
            }
          }
          assert ps[k + 1] == r.value;
        }
      }
      r
  }

  /** Lookup of a planet by exact id. */
  function GetPlanetById(id: string): (r: Option<Planet>)
    ensures r.None? <==> forall p :: p in Planets ==> p.id != id
    ensures r.Some? ==> r.value in Planets && r.value.id == id
  {
    FindById(Planets, id)
  }

  /** The three ids are distinct, so each finds its own planet, and
      every other string finds none. */
  lemma GetPlanetByIdCatalog(id: string)
    ensures id == "zoom" ==> GetPlanetById(id) == Some(Planets[0])
    ensures id == "pop" ==> GetPlanetById(id) == Some(Planets[1])
    ensures id == "zing" ==> GetPlanetById(id) == Some(Planets[2])
    ensures id != "zoom" && id != "pop" && id != "zing" ==> GetPlanetById(id) == None
  {
  }

  /** A value of Math.random(), in [0, 1), scaled to an index in [0, n). */
  function ScaledIndex(x: real, n: nat): (j: int)
  {
    (x * n as real).Floor
  }

  lemma ScaledIndexInRange(x: real, n: nat)
    requires 0.0 <= x < 1.0 && n > 0
    ensures 0 <= ScaledIndex(x, n) < n
  {
    assert 0.0 <= x * n as real < n as real;
  }

  /** Fisher-Yates shuffle of a copy of `input`; `input` itself is a value
      and stays as it was. Each draw of Math.random() is an arbitrary real in [0, 1). */
  method ShuffleArray<T>(input: seq<T>) returns (shuffled: seq<T>)
    ensures |shuffled| == |input|
    ensures multiset(shuffled) == multiset(input)
  {
    var a := new T[|input|](k requires 0 <= k < |input| => input[k]);
    assert a[..] == input;
    var i := a.Length - 1;
    while i > 0
      invariant -1 <= i < a.Length
      invariant multiset(a[..]) == multiset(input)
    {
      var x: real :| 0.0 <= x < 1.0;
      ScaledIndexInRange(x, i + 1);
      var j := ScaledIndex(x, i + 1);
      a[i], a[j] := a[j], a[i];
      i := i - 1;
    }
    shuffled := a[..];
  }

  /** The words of `words` that are neither `correctWord` nor in `excludeWords`, in order;
      every occurrence of such a word is kept. */
  function KeepWrong(words: seq<string>, correctWord: string, excludeWords: seq<string>): (pool: seq<string>)
    ensures forall w :: w in pool <==> w in words && w != correctWord && w !in excludeWords
    ensures forall w :: multiset(pool)[w] == if w != correctWord && w !in excludeWords then multiset(words)[w] else 0
    ensures multiset(pool) <= multiset(words)
    ensures Distinct(words) ==> Distinct(pool)
  {
    if words == [] then []
    else
      var rest := KeepWrong(words[1..], correctWord, excludeWords);
      assert words == [words[0]] + words[1..];
      assert Distinct(words) ==> words[0] !in words[1..] && Distinct(words[1..]) by {
        if Distinct(words) {
          forall k | 0 <= k < |words[1..]| ensures words[1..][k] != words[0] {
            assert words[1..][k] == words[k + 1];
          }
        }
      }
      if words[0] != correctWord && words[0] !in excludeWords then [words[0]] + rest else rest
  }

  /** The candidates for wrong answers: the whole vocabulary minus the correct word and the excluded words. */
  function WrongPool(correctWord: string, excludeWords: seq<string>): (pool: seq<string>)
    ensures forall w :: w in pool <==> w in AllWords && w != correctWord && w !in excludeWords
    ensures forall w :: multiset(pool)[w] == if w in AllWords && w != correctWord && w !in excludeWords then 1 else 0
  {
    AllWordsDistinct();
    DistinctCounts(AllWords);
    KeepWrong(AllWords, correctWord, excludeWords)
  }

  /** With a distinct vocabulary the pool of candidates is distinct too. */
  lemma WrongPoolDistinct(correctWord: string, excludeWords: seq<string>)
    ensures Distinct(WrongPool(correctWord, excludeWords))
  {
    AllWordsDistinct();
  }

  lemma PrefixMultiset<T>(s: seq<T>, n: nat)
    requires n <= |s|
    ensures multiset(s[..n]) <= multiset(s)
    ensures forall x :: x in s[..n] ==> x in s
  {
    assert s == s[..n] + s[n..];
  }

  lemma {:induction false} DistinctCounts<T>(s: seq<T>)
    ensures Distinct(s) <==> forall x :: multiset(s)[x] <= 1
  {
    if s != [] {
      DistinctCounts(s[1..]);
      assert s == [s[0]] + s[1..];
      if Distinct(s) {
        assert s[0] !in s[1..] by {
          forall k | 0 <= k < |s[1..]| ensures s[1..][k] != s[0] {
            assert s[1..][k] == s[k + 1];
          }
        }
        assert Distinct(s[1..]) by {
          forall i, j | 0 <= i < j < |s[1..]| ensures s[1..][i] != s[1..][j] {
            assert s[1..][i] == s[i + 1] && s[1..][j] == s[j + 1];
          }
        }
      }
      if forall x :: multiset(s)[x] <= 1 {
        forall x ensures multiset(s[1..])[x] <= 1 {
          assert multiset(s)[x] == multiset([s[0]])[x] + multiset(s[1..])[x];
        }
        assert multiset(s)[s[0]] == 1 + multiset(s[1..])[s[0]];
        forall i, j | 0 <= i < j < |s| ensures s[i] != s[j] {
          if i == 0 {
            assert s[j] == s[1..][j - 1];
            assert s[j] in multiset(s[1..]);
          } else {
            assert s[i] == s[1..][i - 1] && s[j] == s[1..][j - 1];
          }
        }
      }
    }
  }

  /** A sequence whose every element occurs at most as often as in a distinct sequence is distinct. */
  lemma DistinctSub<T>(a: seq<T>, b: seq<T>)
    requires multiset(a) <= multiset(b) && Distinct(b)
    ensures Distinct(a)
  {
    DistinctCounts(b);
    DistinctCounts(a);
    forall x ensures multiset(a)[x] <= 1 {
      assert multiset(a)[x] <= multiset(b)[x];
    }
  }

  /** At most two distinct wrong answers, none of them the correct word or an excluded word. */
  method GenerateWrongAnswers(correctWord: string, excludeWords: seq<string> := []) returns (wrong: seq<string>)
    ensures |wrong| == if |WrongPool(correctWord, excludeWords)| < MaxWrongAnswers
                       then |WrongPool(correctWord, excludeWords)| else MaxWrongAnswers
    ensures forall w :: w in wrong ==> w in AllWords && w != correctWord && w !in excludeWords
    ensures multiset(wrong) <= multiset(WrongPool(correctWord, excludeWords))
    ensures Distinct(wrong)
  {
    var pool := WrongPool(correctWord, excludeWords);
    var shuffled := ShuffleArray(pool);
    var n := if |shuffled| < MaxWrongAnswers then |shuffled| else MaxWrongAnswers;
    wrong := shuffled[..n];
    PrefixMultiset(shuffled, n);
    forall w | w in wrong ensures w in pool {
      assert w in multiset(shuffled);
    }
    WrongPoolDistinct(correctWord, excludeWords);
    DistinctSub(wrong, pool);
  }
}
