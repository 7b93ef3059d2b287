/** What the canonical form of a text stands for: the sequence of its lower-cased words. */
module WordRules {
  import opened Text

  predicate AllSpace(s: string) {
    forall k | 0 <= k < |s| :: IsSpace(s[k])
  }

  /** Not empty, and free of white space. */
  predicate IsWord(s: string) {
    s != "" && forall k | 0 <= k < |s| :: !IsSpace(s[k])
  }

  /** The words of the text are `words`, in order: white space up to position `from`, a word up to position
      `to`, where the text ends or white space follows, and then the other words. */
  ghost predicate HasWords(text: string, words: seq<string>)
    decreases |words|
  {
    if words == [] then AllSpace(text)
    else exists from: nat, to: nat :: StartsAt(text, words, from, to) && HasWords(text[to..], words[1..])
  }

  ghost predicate StartsAt(text: string, words: seq<string>, from: nat, to: nat)
    requires words != []
  {
    && from < to <= |text| && AllSpace(text[..from])
    && text[from..to] == words[0] && IsWord(words[0])
    && (to == |text| || IsSpace(text[to]))
  }

  lemma Begin(text: string, words: seq<string>, from: nat, to: nat)
    requires words != [] && StartsAt(text, words, from, to) && HasWords(text[to..], words[1..])
    ensures HasWords(text, words)
  {
  }

  lemma StartsLater(before: string, text: string, after: string, words: seq<string>, from: nat, to: nat)
    requires words != [] && AllSpace(before) && AllSpace(after) && StartsAt(text, words, from, to)
    ensures var longer, n := before + text + after, |before|;
            StartsAt(longer, words, n + from, n + to) && longer[n + to..] == text[to..] + after
  {
    hide IsSpace, IsWord;
    var longer, n := before + text + after, |before|;
    assert longer[..n + from] == before + text[..from];
    assert longer[n + from..n + to] == text[from..to];
    if to < |text| {
      assert longer[n + to] == text[to];
    } else if after != "" {
      assert longer[n + to] == after[0];
    }
  }

  lemma {:induction false} SpaceAround(before: string, text: string, after: string, words: seq<string>)
    requires AllSpace(before) && AllSpace(after) && HasWords(text, words)
    ensures HasWords(before + text + after, words)
    decreases |words|
  {
    hide IsSpace;
    if words == [] {
    } else {
      var from: nat, to: nat :| StartsAt(text, words, from, to) && HasWords(text[to..], words[1..]);
      hide HasWords, StartsAt;
      SpaceAround("", text[to..], after, words[1..]);
      assert "" + text[to..] + after == text[to..] + after;
      StartsLater(before, text, after, words, from, to);
      Begin(before + text + after, words, |before| + from, |before| + to);
    }
  }

  lemma SpaceInFront(c: char, text: string, words: seq<string>)
    requires IsSpace(c) && HasWords(text, words)
    ensures HasWords([c] + text, words)
  {
    hide HasWords;
    SpaceAround([c], text, "", words);
    assert [c] + text + "" == [c] + text;
  }

  lemma WordInFront(word: string, text: string, words: seq<string>)
    requires IsWord(word) && (text == "" || IsSpace(text[0])) && HasWords(text, words)
    ensures HasWords(word + text, [word] + words)
  {
    var longer, all := word + text, [word] + words;
    assert longer[..0] == "" && longer[0..|word|] == word && longer[|word|..] == text && all[1..] == words;
    Begin(longer, all, 0, |word|);
  }

  /** `Words` finds words that the text has. */
  lemma WordsAreThere(s: string)
    ensures HasWords(s, Words(s))
  {
    WordsFromAreThere(s, "");
    assert "" + s == s;
  }

  lemma {:induction false} WordsFromAreThere(s: string, word: string)
    requires word == "" || IsWord(word)
    ensures HasWords(word + s, WordsFrom(s, word))
    decreases |s|
  {
    if s == "" {
      NothingLeft(word);
      assert word + s == word;
    } else if IsSpace(s[0]) {
      WordsFromAreThere(s[1..], "");
      assert "" + s[1..] == s[1..];
      WordEnds(word, s, WordsFrom(s[1..], ""));
    } else {
      WordsFromAreThere(s[1..], word + [s[0]]);
      assert word + s == word + [s[0]] + s[1..];
    }
  }

  lemma NothingLeft(word: string)
    requires word == "" || IsWord(word)
    ensures HasWords(word, WordsFrom("", word))
  {
    if word != "" {
      var none: seq<string> := [];
      assert HasWords("", none);
      WordInFront(word, "", none);
      assert word + "" == word && [word] + none == [word];
    }
  }

  lemma WordEnds(word: string, s: string, words: seq<string>)
    requires word == "" || IsWord(word)
    requires s != "" && IsSpace(s[0]) && HasWords(s[1..], words)
    ensures HasWords(word + s, (if word == "" then [] else [word]) + words)
  {
    hide HasWords, IsSpace;
    SpaceInFront(s[0], s[1..], words);
    assert [s[0]] + s[1..] == s;
    if word == "" {
      assert word + s == s && [] + words == words;
    } else {
      WordInFront(word, s, words);
    }
  }

  lemma WordsHaveLetters(text: string, words: seq<string>)
    requires words != [] && HasWords(text, words)
    ensures !AllSpace(text)
  {
    var from: nat, to: nat :| StartsAt(text, words, from, to) && HasWords(text[to..], words[1..]);
    assert text[from] == words[0][0];
  }

  lemma FirstWord(text: string, words: seq<string>) returns (from: nat, to: nat)
    requires words != [] && HasWords(text, words)
    ensures StartsAt(text, words, from, to) && HasWords(text[to..], words[1..])
    ensures text[from..to] == words[0]
  {
    from, to :| StartsAt(text, words, from, to) && HasWords(text[to..], words[1..]);
  }

  lemma NoWordsMeansSpace(text: string)
    ensures HasWords(text, []) <==> AllSpace(text)
  {
  }

  /** A text has one sequence of words. */
  lemma {:induction false} WordsAreUnique(text: string, a: seq<string>, b: seq<string>)
    requires HasWords(text, a) && HasWords(text, b)
    ensures a == b
    decreases |a|
  {
    hide HasWords, AllSpace;
    NoWordsMeansSpace(text);
    if a == [] {
      if b != [] {
        WordsHaveLetters(text, b);
      }
    } else {
      WordsHaveLetters(text, a);
      var i, j := FirstWord(text, a);
      var m, n := FirstWord(text, b);
      StartsNoLater(text, a, i, j, b, m, n);
      StartsNoLater(text, b, m, n, a, i, j);
      WordsAreUnique(text[j..], a[1..], b[1..]);
      assert a == [a[0]] + a[1..] && b == [b[0]] + b[1..];
    }
  }

  lemma SpacesAndThenLetters(text: string, words: seq<string>, from: nat, to: nat)
    requires words != [] && StartsAt(text, words, from, to)
    ensures forall k | 0 <= k < from :: IsSpace(text[k])
    ensures forall k | from <= k < to :: !IsSpace(text[k])
  {
    assert forall k | 0 <= k < from :: text[k] == text[..from][k];
    assert forall k | from <= k < to :: text[k] == words[0][k - from];
  }

  lemma StartsNoLater(text: string, a: seq<string>, i: nat, j: nat, b: seq<string>, m: nat, n: nat)
    requires a != [] && b != [] && StartsAt(text, a, i, j) && StartsAt(text, b, m, n)
    ensures i <= m && (i == m ==> j <= n)
  {
    SpacesAndThenLetters(text, a, i, j);
    SpacesAndThenLetters(text, b, m, n);
    assert !IsSpace(text[m]) && (n == |text| || IsSpace(text[n]));
  }

  lemma {:induction false} WordsAreWords(text: string, words: seq<string>)
    requires HasWords(text, words)
    ensures forall k | 0 <= k < |words| :: IsWord(words[k])
    decreases |words|
  {
    if words == [] {
    } else {
      var from: nat, to: nat :| StartsAt(text, words, from, to) && HasWords(text[to..], words[1..]);
      WordsAreWords(text[to..], words[1..]);
    }
  }

  /** Words joined by single blanks are the words of what they join to. */
  lemma {:induction false} JoinedWords(words: seq<string>)
    requires forall k | 0 <= k < |words| :: IsWord(words[k])
    ensures HasWords(Join(" ", words), words)
  {
    if words == [] {
    } else if |words| == 1 {
      NothingLeft(words[0]);
      assert words == [words[0]];
    } else {
      JoinedWords(words[1..]);
      OneMoreWord(words[0], Join(" ", words[1..]), words[1..]);
      assert words == [words[0]] + words[1..];
    }
  }

  lemma OneMoreWord(word: string, text: string, words: seq<string>)
    requires IsWord(word) && HasWords(text, words)
    ensures HasWords(word + " " + text, [word] + words)
  {
    hide HasWords;
    SpaceInFront(' ', text, words);
    WordInFront(word, [' '] + text, words);
    assert word + " " + text == word + ([' '] + text);
  }

  // Stripping.

  lemma {:induction false} StripLeftKeepsCore(s: string) returns (before: string)
    ensures AllSpace(before) && s == before + StripLeft(s)
  {
    before := "";
    if s != "" && IsSpace(s[0]) {
      var rest := StripLeftKeepsCore(s[1..]);
      before := [s[0]] + rest;
      assert s == [s[0]] + s[1..];
    }
  }

  lemma {:induction false} StripRightKeepsCore(s: string) returns (after: string)
    ensures AllSpace(after) && s == StripRight(s) + after
  {
    after := "";
    if s != "" && IsSpace(s[|s| - 1]) {
      var rest := StripRightKeepsCore(s[..|s| - 1]);
      after := rest + [s[|s| - 1]];
      assert s == s[..|s| - 1] + [s[|s| - 1]];
    }
  }

  /** Stripping takes white space off both ends and nothing else. */
  lemma StripKeepsCore(s: string) returns (before: string, after: string)
    ensures AllSpace(before) && AllSpace(after) && s == before + Strip(s) + after
    ensures Trimmed(Strip(s))
  {
    before := StripLeftKeepsCore(s);
    after := StripRightKeepsCore(StripLeft(s));
    StripTrims(s);
  }

  predicate AllBlank(s: string) {
    forall k | 0 <= k < |s| :: s[k] == ' '
  }

  lemma {:induction false} TrimLeftKeepsCore(s: string) returns (before: string)
    ensures AllBlank(before) && s == before + TrimLeftBlanks(s)
    ensures TrimLeftBlanks(s) != "" ==> TrimLeftBlanks(s)[0] != ' '
  {
    before := "";
    if s != "" && s[0] == ' ' {
      var rest := TrimLeftKeepsCore(s[1..]);
      before := [s[0]] + rest;
      assert s == [s[0]] + s[1..];
    }
  }

  lemma {:induction false} TrimRightKeepsCore(s: string) returns (after: string)
    ensures AllBlank(after) && s == TrimRightBlanks(s) + after
    ensures TrimRightBlanks(s) != "" ==> TrimRightBlanks(s)[|TrimRightBlanks(s)| - 1] != ' '
  {
    after := "";
    if s != "" && s[|s| - 1] == ' ' {
      var rest := TrimRightKeepsCore(s[..|s| - 1]);
      after := rest + [s[|s| - 1]];
      assert s == s[..|s| - 1] + [s[|s| - 1]];
    }
  }

  /** SQL's trimming takes blanks off both ends and nothing else. */
  lemma TrimKeepsCore(s: string) returns (before: string, after: string)
    ensures AllBlank(before) && AllBlank(after) && s == before + TrimBlanks(s) + after
    ensures var t := TrimBlanks(s); t != "" ==> t[0] != ' ' && t[|t| - 1] != ' '
  {
    before := TrimLeftKeepsCore(s);
    after := TrimRightKeepsCore(TrimLeftBlanks(s));
    assert TrimLeftBlanks(s) == TrimBlanks(s) + after;
  }

  // Case.

  /** Two characters count as one letter exactly when they are equal or the small and the capital form of
      one letter from a to z. */
  lemma SameLetterExactly(c: char, d: char)
    ensures LowerChar(c) == LowerChar(d) <==>
              || c == d || ('A' <= c <= 'Z' && d as int == c as int + 32)
              || ('A' <= d <= 'Z' && c as int == d as int + 32)
    ensures IsSpace(LowerChar(c)) <==> IsSpace(c)
    ensures LowerChar(c) == '|' <==> c == '|'
  {
  }

  /** The two texts have the same words in the same order, up to case. */
  ghost predicate SameWords(a: string, b: string) {
    exists words :: HasWords(Lower(a), words) && HasWords(Lower(b), words)
  }

  lemma CanonicalHasWords(s: string)
    ensures HasWords(Lower(s), Words(Lower(Strip(s))))
    ensures HasWords(Canonical(s), Words(Lower(Strip(s))))
  {
    var before, after := StripKeepsCore(s);
    var words := Words(Lower(Strip(s)));
    WordsAreThere(Lower(Strip(s)));
    assert Lower(s) == Lower(before) + Lower(Strip(s)) + Lower(after);
    SpaceAround(Lower(before), Lower(Strip(s)), Lower(after), words);
    WordsAreWords(Lower(s), words);
    JoinedWords(words);
  }

  /** Two texts have one canonical form exactly when they have the same words, up to case. */
  lemma CanonicalExactly(a: string, b: string)
    ensures Canonical(a) == Canonical(b) <==> SameWords(a, b)
  {
    var u, v := Words(Lower(Strip(a))), Words(Lower(Strip(b)));
    CanonicalHasWords(a);
    CanonicalHasWords(b);
    if Canonical(a) == Canonical(b) {
      WordsAreUnique(Canonical(a), u, v);
    }
    if words :| HasWords(Lower(a), words) && HasWords(Lower(b), words) {
      WordsAreUnique(Lower(a), u, words);
      WordsAreUnique(Lower(b), v, words);
    }
  }

  lemma WordIsCanonical(word: string)
    requires IsWord(word)
    ensures Canonical(word) == Lower(word)
  {
    TrimmedIsStripped(word);
    var none: seq<string> := [];
    assert HasWords("", none);
    WordInFront(Lower(word), "", none);
    assert Lower(word) + "" == Lower(word) && [Lower(word)] + none == [Lower(word)];
    CanonicalHasWords(word);
    WordsAreUnique(Lower(word), [Lower(word)], Words(Lower(Strip(word))));
  }

  // Bars, which the joined key uses as separators.

  function Bars(s: string): nat {
    multiset(s)['|']
  }

  lemma BarsAdd(a: string, b: string)
    ensures Bars(a + b) == Bars(a) + Bars(b)
  {
  }

  lemma {:induction false} NoBars(s: string)
    requires '|' !in s
    ensures Bars(s) == 0
  {
  }

  lemma {:induction false} LowerKeepsBars(s: string)
    ensures Bars(Lower(s)) == Bars(s)
  {
    if s == "" {
      assert Lower(s) == "";
    } else {
      LowerKeepsBars(s[1..]);
      assert s == [s[0]] + s[1..] && Lower(s) == [LowerChar(s[0])] + Lower(s[1..]);
      BarsAdd([s[0]], s[1..]);
      BarsAdd([LowerChar(s[0])], Lower(s[1..]));
      SameLetterExactly(s[0], s[0]);
      assert Bars([s[0]]) == Bars([LowerChar(s[0])]);
    }
  }

  lemma {:induction false} SameWordsSameBars(a: string, b: string, words: seq<string>)
    requires HasWords(a, words) && HasWords(b, words)
    ensures Bars(a) == Bars(b)
    decreases |words|
  {
    if words == [] {
      NoBars(a);
      NoBars(b);
    } else {
      var i: nat, j: nat :| StartsAt(a, words, i, j) && HasWords(a[j..], words[1..]);
      var m: nat, n: nat :| StartsAt(b, words, m, n) && HasWords(b[n..], words[1..]);
      SameWordsSameBars(a[j..], b[n..], words[1..]);
      BarsInParts(a, i, j);
      BarsInParts(b, m, n);
    }
  }

  lemma BarsInParts(s: string, i: nat, j: nat)
    requires i <= j <= |s| && AllSpace(s[..i])
    ensures Bars(s) == Bars(s[i..j]) + Bars(s[j..])
  {
    assert s == s[..i] + (s[i..j] + s[j..]);
    BarsAdd(s[..i], s[i..j] + s[j..]);
    BarsAdd(s[i..j], s[j..]);
    NoBars(s[..i]);
  }

  lemma CanonicalKeepsBars(s: string)
    ensures Bars(Canonical(s)) == Bars(s)
  {
    CanonicalHasWords(s);
    SameWordsSameBars(Lower(s), Canonical(s), Words(Lower(Strip(s))));
    LowerKeepsBars(s);
  }

  lemma {:induction false} SplitsAtOneBar(a: string, b: string, c: string, d: string)
    requires a + "|" + b == c + "|" + d && Bars(a) == Bars(c)
    ensures a == c && b == d
  {
    if |a| < |c| {
      BarPrefix(a, b, c, d);
    } else if |c| < |a| {
      BarPrefix(c, d, a, b);
    } else {
      var joined := a + "|" + b;
      assert a == joined[..|a|] == (c + "|" + d)[..|a|] == c;
      assert b == joined[|a| + 1..] == (c + "|" + d)[|a| + 1..] == d;
    }
  }

  lemma BarPrefix(a: string, b: string, c: string, d: string)
    requires a + "|" + b == c + "|" + d && |a| < |c|
    ensures Bars(a) < Bars(c)
  {
    var rest := c[|a| + 1..];
    var joined := a + "|" + b;
    assert joined[..|c|] == c;
    assert c == a + "|" + rest;
    BarsAdd(a + "|", rest);
    BarsAdd(a, "|");
    assert Bars("|") == 1;
  }
}
