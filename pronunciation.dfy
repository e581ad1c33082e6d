/** Three text transforms meant for speech: a phonetic respelling of
    known sight words, a syllable table (one split and three words mapped
    to themselves), and pause markers inserted into sentences. */
module Pronunciation {

  /** A character of the ECMAScript `\s` class: the WhiteSpace and
      LineTerminator code points of section 22.2.2.9 of ECMA-262. */
  predicate IsWs(c: char) {
    || c == '\t' || c == '\n' || c == '\U{000B}' || c == '\U{000C}' || c == '\r' || c == ' '
    || c == '\U{00A0}' || c == '\U{1680}' || ('\U{2000}' <= c <= '\U{200A}')
    || c == '\U{2028}' || c == '\U{2029}' || c == '\U{202F}' || c == '\U{205F}'
    || c == '\U{3000}' || c == '\U{FEFF}'
  }

  function LowerChar(c: char): (d: char)
  {
    if 'A' <= c <= 'Z' then (c as int + 32) as char else c
  }

  /** ASCII lower-casing, character by character. */
  function Lower(s: string): (t: string)
  {
    seq(|s|, i requires 0 <= i < |s| => LowerChar(s[i]))
  }

  /** Lower-casing is idempotent and leaves no upper-case letter behind. */
  lemma LowerIdempotent(s: string)
    ensures Lower(Lower(s)) == Lower(s)
    ensures forall i :: 0 <= i < |s| ==> !('A' <= Lower(s)[i] <= 'Z')
  {
  }

  /** The phonetic respellings, keyed by lower-case word. */
  const PronunciationMap: map<string, string> := map[
    "the" := "thuh", "and" := "and", "is" := "iz", "me" := "mee",
    "run" := "ruhn", "play" := "play", "big" := "big", "little" := "lit-uhl",
    "can" := "can", "go" := "goh", "up" := "uhp", "down" := "down",
    "jump" := "juhmp", "red" := "red", "you" := "yoo", "see" := "see",
    "look" := "look", "here" := "heer", "come" := "kuhm", "help" := "help",
    "with" := "with", "they" := "thay", "have" := "hav", "this" := "this",
    "from" := "fruhm", "said" := "sed", "what" := "wuht", "make" := "mayk"
  ]

  /** The syllable splits, keyed by lower-case word. */
  const SyllableMap: map<string, string> := map[
    "little" := "lit ... tle", "help" := "help", "jump" := "jump", "come" := "come"
  ]

  /** `table[key] || fallback`: a missing key or an empty entry gives the fallback. */
  function LookupOr(table: map<string, string>, key: string, fallback: string): (r: string)
  {
    if key in table && table[key] != "" then table[key] else fallback
  }

  /** No entry of either table is empty, so the fallback is taken exactly when the key is absent. */
  lemma TablesHaveNoEmptyEntry()
    ensures forall k :: k in PronunciationMap ==> PronunciationMap[k] != ""
    ensures forall k :: k in SyllableMap ==> SyllableMap[k] != ""
  {
  }

  function GetPhoneticPronunciation(word: string): (r: string)
    ensures Lower(word) in PronunciationMap ==> r == PronunciationMap[Lower(word)]
    ensures Lower(word) !in PronunciationMap ==> r == word
  {
    TablesHaveNoEmptyEntry();
    LookupOr(PronunciationMap, Lower(word), word)
  }

  function SyllableBreakdown(word: string): (r: string)
    ensures Lower(word) in SyllableMap ==> r == SyllableMap[Lower(word)]
    ensures Lower(word) !in SyllableMap ==> r == word
  {
    TablesHaveNoEmptyEntry();
    LookupOr(SyllableMap, Lower(word), word)
  }

  /** Spellings that differ only in ASCII case are pronounced alike. */
  lemma {:induction false} PhoneticIgnoresCase(a: string, b: string)
    requires Lower(a) == Lower(b)
    requires Lower(a) in PronunciationMap
    ensures GetPhoneticPronunciation(a) == GetPhoneticPronunciation(b)
  {
  }

  lemma PhoneticExamples()
    ensures GetPhoneticPronunciation("The") == "thuh"
    ensures GetPhoneticPronunciation("Cat") == "Cat"
  {
    KnownWordExample();
    UnknownWordExample();
  }

  lemma KnownWordExample()
    ensures GetPhoneticPronunciation("The") == "thuh"
  {
    assert Lower("The") == "the";
  }

  lemma UnknownWordExample()
    ensures GetPhoneticPronunciation("Cat") == "Cat"
  {
    assert Lower("Cat") == "cat";
    assert "cat" !in PronunciationMap;
  }

  /** Only "little", in any case, is split; "help", "jump" and "come" map to
      their lower-case selves; every other word is returned as given. */
  lemma SyllableBreakdownCases(word: string)
    ensures Lower(word) == "little" ==> SyllableBreakdown(word) == "lit ... tle"
    ensures Lower(word) in {"help", "jump", "come"} ==> SyllableBreakdown(word) == Lower(word)
    ensures Lower(word) !in {"little", "help", "jump", "come"} ==> SyllableBreakdown(word) == word
  {
  }

  lemma SyllableExamples()
    ensures SyllableBreakdown("little") == "lit ... tle"
    ensures SyllableBreakdown("LITTLE") == "lit ... tle"
    ensures SyllableBreakdown("help") == "help"
    ensures SyllableBreakdown("HELP") == "help"
  {
    assert Lower("LITTLE") == "little";
    assert Lower("little") == "little";
    assert Lower("help") == "help";
    assert Lower("HELP") == "help";
  }

  /** Every occurrence of `c` in `s` replaced by `rep`: a global replace of a one-character pattern. */
  function ReplaceChar(s: string, c: char, rep: string): (r: string)
    ensures forall x :: x in r ==> x in rep || (x in s && x != c)
  {
    if s == [] then []
    else (if s[0] == c then rep else [s[0]]) + ReplaceChar(s[1..], c, rep)
  }

  /** The global replace of `\s+` by `rep`, scanning left to right: the
      first whitespace character of each maximal run becomes `rep` and the
      rest of the run is dropped. `inRun` says that the character before
      `s` was whitespace, so a leading run of `s` continues that run. */
  function ReplaceWsFrom(s: string, rep: string, inRun: bool): (r: string)
    ensures forall x :: x in r ==> x in rep || (x in s && !IsWs(x))
  {
    if s == [] then [] else Emit(s[0], rep, inRun) + ReplaceWsFrom(s[1..], rep, IsWs(s[0]))
  }

  /** What one character becomes: itself if it is not whitespace, `rep`
      if it starts a run, nothing if it continues one. */
  function Emit(c: char, rep: string, inRun: bool): (r: string)
  {
    if !IsWs(c) then [c] else if inRun then [] else rep
  }

  /** Every maximal run of whitespace in `s` replaced by `rep`. */
  function ReplaceWsRuns(s: string, rep: string): (r: string)
    ensures forall x :: x in r ==> x in rep || (x in s && !IsWs(x))
  {
    ReplaceWsFrom(s, rep, false)
  }

  const PeriodPause: string := "... "
  const CommaPause: string := ", ... "
  const WordPause: string := " ... "

  /** The three replaces, in order: periods, then commas, then whitespace
      runs (including the spaces the first two inserted). */
  function AddSentencePauses(sentence: string): (r: string)
  {
    ReplaceWsRuns(ReplaceChar(ReplaceChar(sentence, '.', PeriodPause), ',', CommaPause), WordPause)
  }

  /** The only whitespace is the plain space, and no two whitespace characters are adjacent. */
  ghost predicate SingleSpaced(r: string) {
    && (forall i :: 0 <= i < |r| && IsWs(r[i]) ==> r[i] == ' ')
    && (forall i :: 0 <= i < |r| - 1 ==> !(IsWs(r[i]) && IsWs(r[i + 1])))
  }

  /** Two single-spaced strings stay single-spaced when joined, unless whitespace meets whitespace. */
  lemma SingleSpacedAppend(x: string, y: string)
    requires SingleSpaced(x) && SingleSpaced(y)
    requires x == [] || y == [] || !IsWs(x[|x| - 1]) || !IsWs(y[0])
    ensures SingleSpaced(x + y)
  {
    var r := x + y;
    forall i | 0 <= i < |r| && IsWs(r[i]) ensures r[i] == ' ' {
      if i >= |x| { assert r[i] == y[i - |x|]; }
    }
    forall i | 0 <= i < |r| - 1 ensures !(IsWs(r[i]) && IsWs(r[i + 1])) {
      if i >= |x| {
        assert r[i] == y[i - |x|] && r[i + 1] == y[i + 1 - |x|];
      } else if i == |x| - 1 {
        assert r[i] == x[|x| - 1] && r[i + 1] == y[0];
      }
    }
  }

  lemma EmitSingleSpaced(c: char, inRun: bool)
    ensures SingleSpaced(Emit(c, WordPause, inRun))
    ensures Emit(c, WordPause, inRun) != [] && IsWs(Emit(c, WordPause, inRun)[0]) ==> IsWs(c) && !inRun
  {
  }

  /** Inside a run nothing more is emitted until a non-whitespace character. */
  lemma {:induction false} ReplaceWsFromSingleSpaced(s: string, inRun: bool)
    ensures SingleSpaced(ReplaceWsFrom(s, WordPause, inRun))
    ensures inRun ==> ReplaceWsFrom(s, WordPause, inRun) == [] || !IsWs(ReplaceWsFrom(s, WordPause, inRun)[0])
  {
    if s != [] {
      var head := Emit(s[0], WordPause, inRun);
      var rt := ReplaceWsFrom(s[1..], WordPause, IsWs(s[0]));
      ReplaceWsFromSingleSpaced(s[1..], IsWs(s[0]));
      EmitSingleSpaced(s[0], inRun);
      assert head != [] && IsWs(head[|head| - 1]) ==> IsWs(s[0]);
      SingleSpacedAppend(head, rt);
      assert ReplaceWsFrom(s, WordPause, inRun) == head + rt;
    }
  }

  /** The output of the pause chain is single-spaced, whatever the input. */
  lemma AddSentencePausesSingleSpaced(sentence: string)
    ensures SingleSpaced(AddSentencePauses(sentence))
  {
    ReplaceWsFromSingleSpaced(ReplaceChar(ReplaceChar(sentence, '.', PeriodPause), ',', CommaPause), false);
  }

  /** A character the pause chain leaves in place. */
  predicate IsPlain(c: char) {
    c != '.' && c != ',' && !IsWs(c)
  }

  /** The plain characters of `s`, in order. */
  function PlainChars(s: string): (r: string)
  {
    if s == [] then [] else (if IsPlain(s[0]) then [s[0]] else []) + PlainChars(s[1..])
  }

  lemma {:induction false} PlainCharsAppend(a: string, b: string)
    ensures PlainChars(a + b) == PlainChars(a) + PlainChars(b)
  {
    if a == [] {
      assert a + b == b;
    } else {
      assert (a + b)[0] == a[0];
      assert (a + b)[1..] == a[1..] + b;
      PlainCharsAppend(a[1..], b);
    }
  }

  lemma {:induction false} ReplaceCharKeepsPlain(s: string, c: char, rep: string)
    requires !IsPlain(c) && PlainChars(rep) == []
    ensures PlainChars(ReplaceChar(s, c, rep)) == PlainChars(s)
  {
    if s != [] {
      ReplaceCharKeepsPlain(s[1..], c, rep);
      PlainCharsAppend(if s[0] == c then rep else [s[0]], ReplaceChar(s[1..], c, rep));
      assert s == [s[0]] + s[1..];
      PlainCharsAppend([s[0]], s[1..]);
    }
  }

  lemma {:induction false} ReplaceWsFromKeepsPlain(s: string, inRun: bool)
    ensures PlainChars(ReplaceWsFrom(s, WordPause, inRun)) == PlainChars(s)
  {
    if s != [] {
      ReplaceWsFromKeepsPlain(s[1..], IsWs(s[0]));
      PlainCharsAppend(Emit(s[0], WordPause, inRun), ReplaceWsFrom(s[1..], WordPause, IsWs(s[0])));
      assert PlainChars(WordPause) == [];
    }
  }

  /** Every character other than a period, a comma or whitespace survives, in its original order,
      and no other such character is added. */
  lemma AddSentencePausesKeepsPlain(sentence: string)
    ensures PlainChars(AddSentencePauses(sentence)) == PlainChars(sentence)
  {
    assert PlainChars(PeriodPause) == [] && PlainChars(CommaPause) == [];
    var s1 := ReplaceChar(sentence, '.', PeriodPause);
    ReplaceCharKeepsPlain(sentence, '.', PeriodPause);
    var s2 := ReplaceChar(s1, ',', CommaPause);
    ReplaceCharKeepsPlain(s1, ',', CommaPause);
    ReplaceWsFromKeepsPlain(s2, false);
  }

  lemma {:induction false} ReplaceCharIdentity(s: string, c: char, rep: string)
    requires forall i :: 0 <= i < |s| ==> s[i] != c
    ensures ReplaceChar(s, c, rep) == s
  {
    if s != [] {
      ReplaceCharIdentity(s[1..], c, rep);
    }
  }

  lemma {:induction false} ReplaceWsFromIdentity(s: string, inRun: bool)
    requires forall i :: 0 <= i < |s| ==> !IsWs(s[i])
    ensures ReplaceWsFrom(s, WordPause, inRun) == s
  {
    if s != [] {
      ReplaceWsFromIdentity(s[1..], false);
    }
  }

  /** Text without periods, commas or whitespace passes through unchanged. */
  lemma AllPlainUnchanged(sentence: string)
    requires forall i :: 0 <= i < |sentence| ==> IsPlain(sentence[i])
    ensures AddSentencePauses(sentence) == sentence
  {
    ReplaceCharIdentity(sentence, '.', PeriodPause);
    ReplaceCharIdentity(sentence, ',', CommaPause);
    ReplaceWsFromIdentity(sentence, false);
  }

  /** Whether the scan is inside a run after reading `a`, having started with `inRun`. */
  function EndsInRun(a: string, inRun: bool): (r: bool)
  {
    if a == [] then inRun else IsWs(a[|a| - 1])
  }

  /** The replace of whitespace runs works piecewise: the second piece
      continues a run exactly when the first ends in whitespace. */
  lemma {:induction false} ReplaceWsFromAppend(a: string, b: string, rep: string, inRun: bool)
    ensures ReplaceWsFrom(a + b, rep, inRun)
            == ReplaceWsFrom(a, rep, inRun) + ReplaceWsFrom(b, rep, EndsInRun(a, inRun))
  {
    if a == [] {
      assert a + b == b;
    } else {
      var ab := a + b;
      assert ab[0] == a[0] && ab[1..] == a[1..] + b;
      var next := IsWs(a[0]);
      assert EndsInRun(a[1..], next) == EndsInRun(a, inRun);
      ReplaceWsFromAppend(a[1..], b, rep, next);
    }
  }

  lemma {:induction false} ReplaceCharAppend(a: string, b: string, c: char, rep: string)
    ensures ReplaceChar(a + b, c, rep) == ReplaceChar(a, c, rep) + ReplaceChar(b, c, rep)
  {
    if a == [] {
      assert a + b == b;
    } else {
      assert (a + b)[0] == a[0] && (a + b)[1..] == a[1..] + b;
      ReplaceCharAppend(a[1..], b, c, rep);
    }
  }

  /** A last character other than `c` is still the last character after the replace. */
  lemma ReplaceCharLast(a: string, c: char, rep: string)
    requires a != [] && a[|a| - 1] != c
    ensures ReplaceChar(a, c, rep) != [] && ReplaceChar(a, c, rep)[|ReplaceChar(a, c, rep)| - 1] == a[|a| - 1]
  {
    var n := |a| - 1;
    assert a == a[..n] + [a[n]];
    ReplaceCharAppend(a[..n], [a[n]], c, rep);
    assert ReplaceChar([a[n]], c, rep) == [a[n]];
  }

  /** A first character other than `c` is still the first character after the replace. */
  lemma ReplaceCharFirst(b: string, c: char, rep: string)
    requires b != [] && b[0] != c
    ensures ReplaceChar(b, c, rep) != [] && ReplaceChar(b, c, rep)[0] == b[0]
  {
  }

  /** A scan that starts on a non-whitespace character does not depend on the run flag. */
  lemma ReplaceWsFromStartsPlain(s: string, rep: string, inRun: bool)
    requires s != [] && !IsWs(s[0])
    ensures ReplaceWsFrom(s, rep, inRun) == ReplaceWsFrom(s, rep, false)
  {
  }

  /** Split next to a plain character, the pause chain works on each piece alone. */
  lemma AddSentencePausesAppend(a: string, b: string)
    requires a == [] || IsPlain(a[|a| - 1]) || (b != [] && IsPlain(b[0]))
    ensures AddSentencePauses(a + b) == AddSentencePauses(a) + AddSentencePauses(b)
  {
    var a1, b1 := ReplaceChar(a, '.', PeriodPause), ReplaceChar(b, '.', PeriodPause);
    ReplaceCharAppend(a, b, '.', PeriodPause);
    var a2, b2 := ReplaceChar(a1, ',', CommaPause), ReplaceChar(b1, ',', CommaPause);
    ReplaceCharAppend(a1, b1, ',', CommaPause);
    ReplaceWsFromAppend(a2, b2, WordPause, false);
    if a == [] {
      assert a1 == [] && a2 == [];
    } else if IsPlain(a[|a| - 1]) {
      ReplaceCharLast(a, '.', PeriodPause);
      ReplaceCharLast(a1, ',', CommaPause);
      assert !EndsInRun(a2, false);
    } else {
      ReplaceCharFirst(b, '.', PeriodPause);
      ReplaceCharFirst(b1, ',', CommaPause);
      ReplaceWsFromStartsPlain(b2, WordPause, EndsInRun(a2, false));
    }
  }

  /** A separator between two runs of plain text is rewritten on its own,
      and the text on both sides is kept as it is. */
  lemma SeparatorPaused(u: string, sep: string, v: string)
    requires forall i :: 0 <= i < |u| ==> IsPlain(u[i])
    requires forall i :: 0 <= i < |v| ==> IsPlain(v[i])
    requires v != []
    ensures AddSentencePauses(u + sep + v) == u + AddSentencePauses(sep) + v
  {
    AddSentencePausesAppend(u + sep, v);
    AddSentencePausesAppend(u, sep);
    AllPlainUnchanged(u);
    AllPlainUnchanged(v);
  }

  /** A space between words becomes one word pause. */
  lemma SpacePaused()
    ensures AddSentencePauses(" ") == WordPause
  {
    assert ReplaceChar(" ", '.', PeriodPause) == " ";
    assert ReplaceChar(" ", ',', CommaPause) == " ";
    assert ReplaceWsFrom(" ", WordPause, false) == WordPause + ReplaceWsFrom([], WordPause, true);
  }

  /** Inside a run, further whitespace emits nothing. */
  lemma {:induction false} ReplaceWsFromInRun(s: string, rep: string)
    requires forall i :: 0 <= i < |s| ==> IsWs(s[i])
    ensures ReplaceWsFrom(s, rep, true) == []
  {
    if s != [] {
      ReplaceWsFromInRun(s[1..], rep);
    }
  }

  lemma WhitespaceRunKept()
    ensures ReplaceChar(ReplaceChar(" \t\n ", '.', PeriodPause), ',', CommaPause) == " \t\n "
  {
    ReplaceCharIdentity(" \t\n ", '.', PeriodPause);
    ReplaceCharIdentity(" \t\n ", ',', CommaPause);
  }

  /** A run of whitespace of any kind also becomes one word pause. */
  lemma WhitespaceRunPaused()
    ensures AddSentencePauses(" \t\n ") == WordPause
  {
    var s := " \t\n ";
    WhitespaceRunKept();
    ReplaceWsFromInRun(s[1..], WordPause);
    assert ReplaceWsFrom(s, WordPause, false) == WordPause + ReplaceWsFrom(s[1..], WordPause, true);
  }

  lemma PeriodReplaced()
    ensures ReplaceChar(ReplaceChar(".", '.', PeriodPause), ',', CommaPause) == "..." + " "
  {
    var s1 := ReplaceChar(".", '.', PeriodPause);
    assert s1 == PeriodPause + ReplaceChar([], '.', PeriodPause);
    assert s1 == PeriodPause;
    ReplaceCharIdentity(PeriodPause, ',', CommaPause);
    assert PeriodPause == "..." + " ";
  }

  lemma PeriodSpacePaused()
    ensures ReplaceWsFrom("..." + " ", WordPause, false) == "..." + WordPause
  {
    ReplaceWsFromAppend("...", " ", WordPause, false);
    ReplaceWsFromIdentity("...", false);
    assert ReplaceWsFrom(" ", WordPause, false) == WordPause + ReplaceWsFrom([], WordPause, true);
  }

  /** The third replace also rewrites the space that the period pause ends
      with: a closing period becomes a pause followed by a word pause. */
  lemma PeriodPaused()
    ensures AddSentencePauses(".") == "... ... "
  {
    PeriodReplaced();
    PeriodSpacePaused();
    assert "..." + WordPause == "... ... ";
  }

  lemma CommaReplaced()
    ensures ReplaceChar(ReplaceChar(", ", '.', PeriodPause), ',', CommaPause) == ", ..." + "  "
  {
    var s1 := ReplaceChar(", ", '.', PeriodPause);
    ReplaceCharIdentity(", ", '.', PeriodPause);
    var s2 := ReplaceChar(s1, ',', CommaPause);
    assert s2 == CommaPause + ReplaceChar(" ", ',', CommaPause);
    assert ReplaceChar(" ", ',', CommaPause) == " ";
  }

  lemma CommaWordPaused()
    ensures ReplaceWsFrom(", ...", WordPause, false) == "," + WordPause + "..."
  {
    assert ", ..." == "," + " ...";
    ReplaceWsFromAppend(",", " ...", WordPause, false);
    assert ReplaceWsFrom(",", WordPause, false) == ",";
    ReplaceWsFromIdentity("...", true);
    assert ReplaceWsFrom(" ...", WordPause, false) == WordPause + "...";
  }

  lemma DoubleSpacePaused()
    ensures ReplaceWsFrom("  ", WordPause, false) == WordPause
  {
    ReplaceWsFromInRun(" ", WordPause);
  }

  /** A comma and a space become a comma and three pauses in a row. */
  lemma CommaSpacePaused()
    ensures AddSentencePauses(", ") == ", ... ... ... "
  {
    CommaReplaced();
    ReplaceWsFromAppend(", ...", "  ", WordPause, false);
    CommaWordPaused();
    DoubleSpacePaused();
    assert "," + WordPause + "..." + WordPause == ", ... ... ... ";
  }

  /** Two plain words and a closing period, as in "I run.". */
  lemma SentenceExample(u: string, v: string)
    requires forall i :: 0 <= i < |u| ==> IsPlain(u[i])
    requires forall i :: 0 <= i < |v| ==> IsPlain(v[i])
    requires v != []
    ensures AddSentencePauses(u + " " + v + ".") == u + " ... " + v + "... ... "
  {
    var a := u + " " + v;
    assert a[|a| - 1] == v[|v| - 1];
    AddSentencePausesAppend(a, ".");
    SeparatorPaused(u, " ", v);
    SpacePaused();
    PeriodPaused();
  }

  /** Two plain words around a comma and a space, as in "a, b". */
  lemma CommaExample(u: string, v: string)
    requires forall i :: 0 <= i < |u| ==> IsPlain(u[i])
    requires forall i :: 0 <= i < |v| ==> IsPlain(v[i])
    requires v != []
    ensures AddSentencePauses(u + ", " + v) == u + ", ... ... ... " + v
  {
    SeparatorPaused(u, ", ", v);
    CommaSpacePaused();
  }

  /** A plain word after a space, appended to text that ends in a plain
      character: the text is paused on its own, then one word pause, then the word. */
  lemma WordAppended(u: string, v: string)
    requires u != [] && IsPlain(u[|u| - 1])
    requires forall i :: 0 <= i < |v| ==> IsPlain(v[i])
    requires v != []
    ensures AddSentencePauses(u + " " + v) == AddSentencePauses(u) + " ... " + v
  {
    AddSentencePausesAppend(u + " ", v);
    AddSentencePausesAppend(u, " ");
    AllPlainUnchanged(v);
    SpacePaused();
  }

  lemma SentenceSplitPeriod()
    ensures AddSentencePauses("I can run.") == AddSentencePauses("I can run") + AddSentencePauses(".")
  {
    assert "I can run." == "I can run" + ".";
    AddSentencePausesAppend("I can run", ".");
  }

  /** Three plain words separated by single spaces. */
  lemma ThreeWordsPaused(a: string, b: string, c: string)
    requires forall i :: 0 <= i < |a| ==> IsPlain(a[i])
    requires forall i :: 0 <= i < |b| ==> IsPlain(b[i])
    requires forall i :: 0 <= i < |c| ==> IsPlain(c[i])
    requires a != [] && b != [] && c != []
    ensures AddSentencePauses(a + " " + b + " " + c) == a + " ... " + b + " ... " + c
  {
    WordAppended(a + " " + b, c);
    WordAppended(a, b);
    AllPlainUnchanged(a);
  }

  lemma SentenceWords()
    ensures AddSentencePauses("I can run") == "I" + " ... " + "can" + " ... " + "run"
  {
    assert "I can run" == "I" + " " + "can" + " " + "run";
    ThreeWordsPaused("I", "can", "run");
  }

  /** The sentence "I can run.": a pause between the words, then the period's pause and a word pause. */
  lemma SentenceLiteralExample()
    ensures AddSentencePauses("I can run.") == "I ... can ... run... ... "
  {
    SentenceSplitPeriod();
    SentenceWords();
    PeriodPaused();
    SentenceJoined();
  }

  lemma SentenceJoined()
    ensures "I" + " ... " + "can" + " ... " + "run" + "... ... " == "I ... can ... run... ... "
  {
  }

  /** The text "a, b": the comma, then three pauses in a row, then "b". */
  lemma CommaLiteralExample()
    ensures AddSentencePauses("a, b") == "a, ... ... ... b"
  {
    assert "a, b" == "a" + ", " + "b";
    CommaExample("a", "b");
    assert "a" + ", ... ... ... " + "b" == "a, ... ... ... b";
  }
}
