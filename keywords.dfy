/** `extract_keywords` of the GUI helpers: the words of an abstract, counted
    and ranked by frequency. Letters, digits and case are ASCII here. */
module Keywords {
  import opened Wrappers
  import opened Text

  predicate IsAsciiLetter(c: char)
  {
    'a' <= c <= 'z' || 'A' <= c <= 'Z'
  }

  /** `\w` */
  predicate IsWordChar(c: char)
  {
    IsAsciiLetter(c) || IsAsciiDigit(c) || c == '_'
  }

  function LowerChar(c: char): char
  {
    if 'A' <= c <= 'Z' then (c as int - 'A' as int + 'a' as int) as char else c
  }

  /** `s.lower()` */
  function Lower(s: string): (r: string)
    ensures |r| == |s|
    ensures forall k :: 0 <= k < |s| ==> r[k] == LowerChar(s[k])
    ensures NoUpper(r)
  {
    seq(|s|, k requires 0 <= k < |s| => LowerChar(s[k]))
  }

  predicate NoUpper(s: string)
  {
    forall k :: 0 <= k < |s| ==> !('A' <= s[k] <= 'Z')
  }

  /** A match of `[A-Za-z]\w{3,}`. */
  predicate IsToken(w: string)
  {
    |w| >= 4 && IsAsciiLetter(w[0]) && forall k :: 1 <= k < |w| ==> IsWordChar(w[k])
  }

  /** The length of the run of word characters at `i`. */
  function WordRun(s: string, i: nat): (n: nat)
    requires i <= |s|
    ensures i + n <= |s|
    ensures forall k :: i <= k < i + n ==> IsWordChar(s[k])
    ensures i + n == |s| || !IsWordChar(s[i + n])
    decreases |s| - i
  {
    if i == |s| || !IsWordChar(s[i]) then 0 else 1 + WordRun(s, i + 1)
  }

  /** `re.findall(r"[A-Za-z]\w{3,}", s)` from position `p`: a match is tried
      at each position, takes the whole run of word characters after its
      letter, and scanning resumes after it. */
  function FindWords(s: string, p: nat): seq<string>
    requires p <= |s|
    decreases |s| - p
  {
    if p == |s| then []
    else if IsAsciiLetter(s[p]) && WordRun(s, p + 1) >= 3
    then [s[p..p + 1 + WordRun(s, p + 1)]] + FindWords(s, p + 1 + WordRun(s, p + 1))
    else FindWords(s, p + 1)
  }

  /** Every word found is a letter and at least three word characters,
      taken from the text, so lower-case when the text is. */
  lemma {:induction false} FindWordsTokens(s: string, p: nat)
    requires p <= |s|
    ensures forall w :: w in FindWords(s, p) ==> IsToken(w) && (NoUpper(s) ==> NoUpper(w))
    decreases |s| - p
  {
    if p < |s| {
      var n := WordRun(s, p + 1);
      if IsAsciiLetter(s[p]) && n >= 3 {
        FindWordsTokens(s, p + 1 + n);
        var w := s[p..p + 1 + n];
        assert forall k :: 1 <= k < |w| ==> w[k] == s[p + k];
      } else {
        FindWordsTokens(s, p + 1);
      }
    }
  }

  /** The words of the lower-cased abstract. */
  function Words(text: string): seq<string>
  {
    FindWords(Lower(text), 0)
  }

  lemma WordsLowerTokens(text: string)
    ensures forall w :: w in Words(text) ==> IsToken(w) && NoUpper(w)
  {
    FindWordsTokens(Lower(text), 0);
  }

  /** The distinct words in order of first occurrence: the key order of the
      `freq` dictionary. */
  function FirstOccurrences(words: seq<string>): (r: seq<string>)
    ensures forall w :: w in r <==> w in words
  {
    if words == [] then []
    else
      var init := words[..|words| - 1];
      var last := words[|words| - 1];
      assert words == init + [last];
      FirstOccurrences(init) + (if last in init then [] else [last])
  }

  predicate Distinct<T(==)>(s: seq<T>)
  {
    forall i, j :: 0 <= i < j < |s| ==> s[i] != s[j]
  }

  lemma {:induction false} FirstOccurrencesDistinct(words: seq<string>)
    ensures Distinct(FirstOccurrences(words))
    ensures |FirstOccurrences(words)| <= |words|
  {
    if words != [] {
      FirstOccurrencesDistinct(words[..|words| - 1]);
    }
  }

  lemma FirstOccurrencesStep(words: seq<string>, k: nat)
    requires k < |words|
    ensures FirstOccurrences(words[..k + 1])
         == FirstOccurrences(words[..k]) + (if words[k] in words[..k] then [] else [words[k]])
    ensures multiset(words[..k + 1]) == multiset(words[..k]) + multiset{words[k]}
    ensures forall w :: w in words[..k + 1] <==> w in words[..k] || w == words[k]
  {
    assert words[..k + 1] == words[..k] + [words[k]];
  }

  /** `freq` maps exactly the words of `ws` to their numbers of occurrences. */
  ghost predicate Counts(freq: map<string, nat>, ws: seq<string>)
  {
    && (forall w :: w in freq <==> w in ws)
    && (forall w :: w in freq ==> freq[w] == multiset(ws)[w])
  }

  /** Line 15 takes `freq` from the counts of `words[..k]` to those of
      `words[..k + 1]`. */
  lemma CountsStep(freq: map<string, nat>, words: seq<string>, k: nat)
    requires k < |words| && Counts(freq, words[..k])
    ensures Counts(freq[words[k] := (if words[k] in freq then freq[words[k]] else 0) + 1], words[..k + 1])
  {
    FirstOccurrencesStep(words, k);
  }

  /** Lines 13-15: counts the words into `freq`; `keys` is the dictionary's
      insertion order. */
  method CountWords(words: seq<string>) returns (keys: seq<string>, freq: map<string, nat>)
    ensures keys == FirstOccurrences(words)
    ensures forall w :: w in freq <==> w in words
    ensures forall w :: w in freq ==> freq[w] == multiset(words)[w]
  {
    keys := [];
    freq := map[];
    for k := 0 to |words|
      invariant keys == FirstOccurrences(words[..k])
      invariant Counts(freq, words[..k])
    {
      var w := words[k];
      FirstOccurrencesStep(words, k);
      CountsStep(freq, words, k);
      if w !in freq {
        keys := keys + [w];
      }
      freq := freq[w := (if w in freq then freq[w] else 0) + 1];
    }
    assert words[..|words|] == words;
  }

  /** `freq.items()`: each distinct word with its number of occurrences, in
      first-occurrence order. */
  function Items(words: seq<string>): (r: seq<(string, nat)>)
    ensures |r| == |FirstOccurrences(words)|
    ensures forall i :: 0 <= i < |r| ==> r[i] == (FirstOccurrences(words)[i], multiset(words)[FirstOccurrences(words)[i]])
  {
    var keys := FirstOccurrences(words);
    seq(|keys|, i requires 0 <= i < |keys| => (keys[i], multiset(words)[keys[i]]))
  }

  predicate NonIncreasing(s: seq<(string, nat)>)
  {
    forall i, j :: 0 <= i < j < |s| ==> s[i].1 >= s[j].1
  }

  /** Inserts `x` after every element whose count is at least its own. */
  function InsertRanked(s: seq<(string, nat)>, x: (string, nat)): seq<(string, nat)>
  {
    if s == [] then [x]
    else if x.1 > s[0].1 then [x] + s
    else [s[0]] + InsertRanked(s[1..], x)
  }

  /** `sorted(items, key=lambda x: x[1], reverse=True)`: Python's sort is
      stable also when reversed. */
  function Ranked(items: seq<(string, nat)>): seq<(string, nat)>
  {
    if items == [] then []
    else InsertRanked(Ranked(items[..|items| - 1]), items[|items| - 1])
  }

  lemma {:induction false} InsertRankedPermutes(s: seq<(string, nat)>, x: (string, nat))
    ensures multiset(InsertRanked(s, x)) == multiset(s) + multiset{x}
  {
    if s != [] && x.1 <= s[0].1 {
      InsertRankedPermutes(s[1..], x);
      assert s == [s[0]] + s[1..];
    }
  }

  lemma {:induction false} InsertRankedOrdered(s: seq<(string, nat)>, x: (string, nat))
    requires NonIncreasing(s)
    ensures NonIncreasing(InsertRanked(s, x))
  {
    if s != [] && x.1 <= s[0].1 {
      InsertRankedOrdered(s[1..], x);
      var t := InsertRanked(s[1..], x);
      InsertRankedPermutes(s[1..], x);
      forall j | 0 <= j < |t| ensures s[0].1 >= t[j].1 {
        assert t[j] in multiset(t);
      }
    }
  }

  /** The ranking holds the same items and is ordered by non-increasing
      count. */
  lemma {:induction false} RankedPermutes(items: seq<(string, nat)>)
    ensures NonIncreasing(Ranked(items))
    ensures multiset(Ranked(items)) == multiset(items)
  {
    if items != [] {
      var init := items[..|items| - 1];
      RankedPermutes(init);
      InsertRankedPermutes(Ranked(init), items[|items| - 1]);
      InsertRankedOrdered(Ranked(init), items[|items| - 1]);
      assert items == init + [items[|items| - 1]];
    }
  }

  /** The items with count `c`, in their order. */
  function WithCount(s: seq<(string, nat)>, c: nat): seq<(string, nat)>
  {
    if s == [] then []
    else WithCount(s[..|s| - 1], c) + (if s[|s| - 1].1 == c then [s[|s| - 1]] else [])
  }

  lemma {:induction false} WithCountPrepend(x: (string, nat), s: seq<(string, nat)>, c: nat)
    ensures WithCount([x] + s, c) == (if x.1 == c then [x] else []) + WithCount(s, c)
    decreases |s|
  {
    if s != [] {
      var init := s[..|s| - 1];
      assert ([x] + s)[..|s|] == [x] + init;
      WithCountPrepend(x, init, c);
    } else {
      assert [x] + s == [x];
      assert [x][..0] == [];
    }
  }

  lemma {:induction false} WithCountNone(s: seq<(string, nat)>, c: nat)
    requires forall i :: 0 <= i < |s| ==> s[i].1 != c
    ensures WithCount(s, c) == []
  {
    if s != [] {
      WithCountNone(s[..|s| - 1], c);
    }
  }

  lemma {:induction false} InsertRankedStable(s: seq<(string, nat)>, x: (string, nat), c: nat)
    requires NonIncreasing(s)
    ensures WithCount(InsertRanked(s, x), c) == WithCount(s, c) + (if x.1 == c then [x] else [])
  {
    if s == [] {
      assert [x][..0] == [];
    } else if x.1 > s[0].1 {
      InsertFrontStable(s, x, c);
    } else {
      NonIncreasingTail(s);
      InsertRankedStable(s[1..], x, c);
      InsertBehindStable(s, x, c);
    }
  }

  lemma NonIncreasingTail(s: seq<(string, nat)>)
    requires NonIncreasing(s) && s != []
    ensures NonIncreasing(s[1..])
  {
    forall i, j | 0 <= i < j < |s[1..]| ensures s[1..][i].1 >= s[1..][j].1 {
      assert s[1..][i] == s[i + 1] && s[1..][j] == s[j + 1];
    }
  }

  /** An item counted no higher than the head goes behind it, and the
      head's contribution stays in front. */
  lemma InsertBehindStable(s: seq<(string, nat)>, x: (string, nat), c: nat)
    requires s != [] && x.1 <= s[0].1
    requires WithCount(InsertRanked(s[1..], x), c) == WithCount(s[1..], c) + (if x.1 == c then [x] else [])
    ensures WithCount(InsertRanked(s, x), c) == WithCount(s, c) + (if x.1 == c then [x] else [])
  {
    var head := if s[0].1 == c then [s[0]] else [];
    var tail := if x.1 == c then [x] else [];
    assert InsertRanked(s, x) == [s[0]] + InsertRanked(s[1..], x);
    WithCountPrepend(s[0], InsertRanked(s[1..], x), c);
    WithCountPrepend(s[0], s[1..], c);
    assert [s[0]] + s[1..] == s;
    ConcatAssoc(head, WithCount(s[1..], c), tail);
  }

  /** An item counted higher than the head goes first, ahead of the items
      of its count, none of which can be in `s`. */
  lemma InsertFrontStable(s: seq<(string, nat)>, x: (string, nat), c: nat)
    requires NonIncreasing(s) && s != [] && x.1 > s[0].1
    ensures WithCount([x] + s, c) == WithCount(s, c) + (if x.1 == c then [x] else [])
  {
    WithCountPrepend(x, s, c);
    if x.1 == c {
      forall i | 0 <= i < |s| ensures s[i].1 != c {
        if i > 0 {
          assert s[i].1 <= s[0].1;
        }
      }
      WithCountNone(s, c);
    }
  }

  /** Stability: for every count, the items with that count appear in the
      ranking in the order they had before it. */
  lemma {:induction false} RankedStable(items: seq<(string, nat)>, c: nat)
    ensures WithCount(Ranked(items), c) == WithCount(items, c)
  {
    if items != [] {
      var init := items[..|items| - 1];
      RankedStable(init, c);
      RankedPermutes(init);
      InsertRankedStable(Ranked(init), items[|items| - 1], c);
    }
  }

  /** `s[:n]` for any integer `n`: a negative `n` drops that many from the
      end. */
  function Take<T>(s: seq<T>, n: int): (r: seq<T>)
    ensures n >= 0 ==> |r| == if n <= |s| then n else |s|
    ensures n < 0 ==> |r| == if -n <= |s| then |s| + n else 0
    ensures r == s[..|r|]
  {
    if n >= 0 then (if n <= |s| then s[..n] else s)
    else (if -n <= |s| then s[..|s| + n] else [])
  }

  function Names(s: seq<(string, nat)>): (r: seq<string>)
    ensures |r| == |s|
    ensures forall i :: 0 <= i < |s| ==> r[i] == s[i].0
  {
    seq(|s|, i requires 0 <= i < |s| => s[i].0)
  }

  /** `extract_keywords(abstract, top_n)` */
  function KeywordsOf(text: Option<string>, topN: int): (r: seq<string>)
    ensures !Truthy(text) ==> r == []
  {
    if !Truthy(text) then []
    else Names(Take(Ranked(Items(Words(text.value))), topN))
  }

  /** Gives the ranked list's first `top_n` names (Python slice); the
      dictionary is built by `CountWords`. */
  method ExtractKeywords(text: Option<string>, topN: int) returns (r: seq<string>)
    ensures r == KeywordsOf(text, topN)
  {
    if !Truthy(text) {
      return [];
    }
    var words := Words(text.value);
    var keys, freq := CountWords(words);
    assert forall i :: 0 <= i < |keys| ==> keys[i] in words;
    var items := seq(|keys|, i requires 0 <= i < |keys| => (keys[i], freq[keys[i]]));
    assert items == Items(words);
    var sortedWords := Ranked(items);
    var top := Take(sortedWords, topN);
    r := seq(|top|, i requires 0 <= i < |top| => top[i].0);
    assert r == Names(top);
  }

  predicate DistinctNames(s: seq<(string, nat)>)
  {
    forall i, j :: 0 <= i < j < |s| ==> s[i].0 != s[j].0
  }

  lemma {:induction false} InsertRankedDistinct(s: seq<(string, nat)>, x: (string, nat))
    requires DistinctNames(s)
    requires forall i :: 0 <= i < |s| ==> s[i].0 != x.0
    ensures DistinctNames(InsertRanked(s, x))
  {
    if s != [] && x.1 <= s[0].1 {
      InsertRankedDistinct(s[1..], x);
      var t := InsertRanked(s[1..], x);
      InsertRankedPermutes(s[1..], x);
      forall j | 0 <= j < |t| ensures t[j].0 != s[0].0 {
        assert t[j] in multiset(t);
      }
      assert InsertRanked(s, x) == [s[0]] + t;
    }
  }

  /** Ranking keeps names distinct. */
  lemma {:induction false} RankedDistinct(items: seq<(string, nat)>)
    requires DistinctNames(items)
    ensures DistinctNames(Ranked(items))
  {
    if items != [] {
      var init := items[..|items| - 1];
      var x := items[|items| - 1];
      RankedDistinct(init);
      RankedPermutes(init);
      forall i | 0 <= i < |Ranked(init)| ensures Ranked(init)[i].0 != x.0 {
        assert Ranked(init)[i] in multiset(init);
      }
      InsertRankedDistinct(Ranked(init), x);
    }
  }

  /** How often `w` occurs among the words of the abstract. */
  function Occurrences(text: string, w: string): nat
  {
    multiset(Words(text))[w]
  }

  /** The full ranking of the abstract's distinct words. */
  function Ranking(text: string): seq<(string, nat)>
  {
    Ranked(Items(Words(text)))
  }

  /** Every ranked item is a word of the abstract with its true count, and
      every word of the abstract is ranked. */
  lemma RankingItems(text: string)
    ensures forall i :: 0 <= i < |Ranking(text)| ==>
      Ranking(text)[i].0 in Words(text) && Ranking(text)[i].1 == Occurrences(text, Ranking(text)[i].0)
    ensures forall w :: w in Words(text) ==> exists i :: 0 <= i < |Ranking(text)| && Ranking(text)[i].0 == w
  {
    var items := Items(Words(text));
    RankedPermutes(items);
    forall i | 0 <= i < |Ranking(text)|
      ensures Ranking(text)[i].0 in Words(text) && Ranking(text)[i].1 == Occurrences(text, Ranking(text)[i].0)
    {
      assert Ranking(text)[i] in multiset(items);
    }
    forall w | w in Words(text) ensures exists i :: 0 <= i < |Ranking(text)| && Ranking(text)[i].0 == w {
      var keys := FirstOccurrences(Words(text));
      var j :| 0 <= j < |keys| && keys[j] == w;
      assert items[j] in multiset(Ranking(text));
      var i :| 0 <= i < |Ranking(text)| && Ranking(text)[i] == items[j];
    }
  }

  /** The keywords of a non-empty abstract are the first names of its
      ranking: at most `top_n` of them and at most one per distinct word,
      and exactly as many as Python's slice `[:top_n]` of the ranking
      gives. */
  lemma KeywordsBounds(text: string, topN: int)
    ensures var r := KeywordsOf(Some(text), topN);
      && (text != "" ==> r == Names(Ranking(text))[..|r|])
      && |r| <= |FirstOccurrences(Words(text))|
      && (topN >= 0 ==> |r| <= topN)
      && var d := |FirstOccurrences(Words(text))|;
         && (topN >= 0 ==> |r| == if topN <= d then topN else d)
         && (topN < 0 ==> |r| == if -topN <= d then d + topN else 0)
  {
    RankedPermutes(Items(Words(text)));
    assert |multiset(Ranking(text))| == |multiset(Items(Words(text)))|;
  }

  /** Keyword `i` is the name of the `i`-th ranked item. */
  lemma KeywordsPrefix(text: string, topN: int)
    requires text != ""
    ensures var r := KeywordsOf(Some(text), topN);
      |r| <= |Ranking(text)| && forall i :: 0 <= i < |r| ==> r[i] == Ranking(text)[i].0
  {
    KeywordsBounds(text, topN);
  }

  /** The keywords are distinct lower-case tokens of the abstract. */
  lemma KeywordsDistinctTokens(text: string, topN: int)
    ensures var r := KeywordsOf(Some(text), topN);
      && Distinct(r)
      && (forall i :: 0 <= i < |r| ==> r[i] in Words(text) && IsToken(r[i]) && NoUpper(r[i]))
  {
    if text != "" {
      KeywordsPrefix(text, topN);
      RankingItems(text);
      WordsLowerTokens(text);
      FirstOccurrencesDistinct(Words(text));
      RankedDistinct(Items(Words(text)));
    }
  }

  /** The keywords come in order of non-increasing count. */
  lemma KeywordsOrdered(text: string, topN: int)
    ensures var r := KeywordsOf(Some(text), topN);
      forall i, j :: 0 <= i < j < |r| ==> Occurrences(text, r[i]) >= Occurrences(text, r[j])
  {
    if text != "" {
      KeywordsPrefix(text, topN);
      RankingItems(text);
      RankedPermutes(Items(Words(text)));
    }
  }

  /** No word left out occurs more often than any keyword. */
  lemma KeywordsDominate(text: string, topN: int)
    ensures var r := KeywordsOf(Some(text), topN);
      forall w, i :: w in Words(text) && w !in r && 0 <= i < |r| ==> Occurrences(text, w) <= Occurrences(text, r[i])
  {
    var r := KeywordsOf(Some(text), topN);
    if text != "" {
      var ranking := Ranking(text);
      KeywordsPrefix(text, topN);
      RankingItems(text);
      RankedPermutes(Items(Words(text)));
      forall w, i | w in Words(text) && w !in r && 0 <= i < |r|
        ensures Occurrences(text, w) <= Occurrences(text, r[i])
      {
        var j :| 0 <= j < |ranking| && ranking[j].0 == w;
        assert j >= |r|;
      }
    }
  }

  /** For each count, the keywords with that count come in the order the
      words first occur in the abstract. */
  lemma KeywordsStable(text: string, c: nat)
    ensures WithCount(Ranking(text), c) == WithCount(Items(Words(text)), c)
    ensures forall i :: 0 <= i < |Items(Words(text))| ==> Items(Words(text))[i].0 == FirstOccurrences(Words(text))[i]
  {
    RankedStable(Items(Words(text)), c);
  }
}
