/**
 * The keyword pipeline of the hybrid trends endpoint: the tokenizer
 * `extractKeywords`, the per-source scorer `processKeywords`, and the
 * aggregation in `POST` that sums the scores per keyword over the news,
 * social, shopping and search lists and keeps the twenty best.
 */
module HybridTrends {
  import opened Text
  import opened Tally
  import opened Ranking

  // ---------------------------------------------------------------------------
  // extractKeywords
  // ---------------------------------------------------------------------------

  /** The characters `/[^\w\s가-힣]/g` does not match: `\w`, `\s` and Hangul syllables. */
  predicate IsKept(c: char) {
    IsWordChar(c) || IsJsSpace(c) || IsHangulSyllable(c)
  }

  /** `text.replace(/[^\w\s가-힣]/g, ' ')`. */
  function Clean(text: string): (r: string)
    ensures |r| == |text|
    ensures forall i :: 0 <= i < |r| ==> IsKept(r[i]) && (IsKept(text[i]) ==> r[i] == text[i])
    ensures forall i :: 0 <= i < |r| && !IsKept(text[i]) ==> r[i] == ' '
  {
    seq(|text|, i requires 0 <= i < |text| => if IsKept(text[i]) then text[i] else ' ')
  }

  /** `words.filter(word => word.length >= 2 && word.length <= 10)`. */
  function LengthFiltered(words: seq<string>): seq<string> {
    if words == [] then []
    else (if 2 <= |words[0]| <= 10 then [words[0]] else []) + LengthFiltered(words[1..])
  }

  /** The filter keeps every word of 2 to 10 characters, as often as it occurs, and nothing else. */
  lemma {:induction false} LengthFilteredCounts(words: seq<string>)
    ensures forall w :: multiset(LengthFiltered(words))[w] == if 2 <= |w| <= 10 then multiset(words)[w] else 0
  {
    if words != [] {
      var head := if 2 <= |words[0]| <= 10 then [words[0]] else [];
      LengthFilteredCounts(words[1..]);
      assert multiset(LengthFiltered(words)) == multiset(head) + multiset(LengthFiltered(words[1..]));
      assert words == [words[0]] + words[1..];
      assert multiset(words) == multiset([words[0]]) + multiset(words[1..]);
    }
  }

  /** Each word the filter keeps is one of its input words and has 2 to 10 characters. */
  lemma {:induction false} LengthFilteredMember(words: seq<string>, i: nat)
    requires i < |LengthFiltered(words)|
    ensures LengthFiltered(words)[i] in words
    ensures 2 <= |LengthFiltered(words)[i]| <= 10
  {
    if 2 <= |words[0]| <= 10 && i == 0 {
    } else {
      var head := if 2 <= |words[0]| <= 10 then [words[0]] else [];
      assert LengthFiltered(words) == head + LengthFiltered(words[1..]);
      LengthFilteredMember(words[1..], i - |head|);
      var w := LengthFiltered(words[1..])[i - |head|];
      assert w in words[1..];
      assert words == [words[0]] + words[1..];
    }
  }

  /** Filtering works word by word, so it keeps the order of the words. */
  lemma {:induction false} LengthFilteredAppend(a: seq<string>, b: seq<string>)
    ensures LengthFiltered(a + b) == LengthFiltered(a) + LengthFiltered(b)
  {
    if a == [] {
      assert a + b == b;
    } else {
      assert (a + b)[1..] == a[1..] + b;
      LengthFilteredAppend(a[1..], b);
    }
  }

  /** Empty pieces never pass the length filter. */
  lemma {:induction false} LengthFilteredNonEmpty(words: seq<string>)
    ensures LengthFiltered(NonEmpty(words)) == LengthFiltered(words)
  {
    if words != [] {
      LengthFilteredNonEmpty(words[1..]);
      if words[0] != [] {
        assert NonEmpty(words) == [words[0]] + NonEmpty(words[1..]);
        LengthFilteredAppend([words[0]], NonEmpty(words[1..]));
        assert LengthFiltered([words[0]]) == (if 2 <= |words[0]| <= 10 then [words[0]] else []);
      } else {
        assert NonEmpty(words) == NonEmpty(words[1..]);
        assert LengthFiltered(words) == LengthFiltered(words[1..]);
      }
    }
  }

  /** The sixteen stop words (`일` is listed twice). */
  const StopWords: seq<string> := ["이", "그", "저", "것", "수", "등", "때", "곳", "말", "일", "년", "월", "일", "시", "분", "초"]

  /** `keywords.filter(word => !stopwords.includes(word))`. */
  function WithoutStopWords(words: seq<string>): seq<string> {
    if words == [] then []
    else (if words[0] in StopWords then [] else [words[0]]) + WithoutStopWords(words[1..])
  }

  /** Every stop word is one character long, so words of two or more characters all survive. */
  lemma {:induction false} StopWordsRemoveNothing(words: seq<string>)
    requires forall i :: 0 <= i < |words| ==> |words[i]| >= 2
    ensures WithoutStopWords(words) == words
  {
    if words != [] {
      assert forall i :: 0 <= i < |StopWords| ==> |StopWords[i]| == 1;
      assert words[0] !in StopWords;
      StopWordsRemoveNothing(words[1..]);
    }
  }

  /** `extractKeywords(text)`. */
  function ExtractKeywords(text: string): seq<string> {
    WithoutStopWords(LengthFiltered(SplitOnSpaceRuns(Clean(text))))
  }

  /**
   * The stop-word step never removes anything: the keywords are exactly the
   * pieces of 2 to 10 characters, in order, each as often as it occurs.
   */
  lemma ExtractKeywordsIsLengthFilter(text: string)
    ensures ExtractKeywords(text) == LengthFiltered(SplitOnSpaceRuns(Clean(text)))
    ensures forall w :: multiset(ExtractKeywords(text))[w] ==
                        (if 2 <= |w| <= 10 then multiset(SplitOnSpaceRuns(Clean(text)))[w] else 0)
  {
    var r := LengthFiltered(SplitOnSpaceRuns(Clean(text)));
    LengthFilteredCounts(SplitOnSpaceRuns(Clean(text)));
    forall i | 0 <= i < |r| ensures |r[i]| >= 2 {
      assert r[i] in multiset(r);
    }
    StopWordsRemoveNothing(r);
  }

  /**
   * Every keyword has 2 to 10 characters, and each character is an ASCII
   * letter, digit or underscore or a Hangul syllable (so never `\s`).
   */
  lemma ExtractKeywordsTokens(text: string)
    ensures forall i :: 0 <= i < |ExtractKeywords(text)| ==> 2 <= |ExtractKeywords(text)[i]| <= 10
    ensures forall i, j :: 0 <= i < |ExtractKeywords(text)| && 0 <= j < |ExtractKeywords(text)[i]| ==>
      IsWordChar(ExtractKeywords(text)[i][j]) || IsHangulSyllable(ExtractKeywords(text)[i][j])
  {
    var c := Clean(text);
    var ps := SplitOnSpaceRuns(c);
    var r := ExtractKeywords(text);
    ExtractKeywordsIsLengthFilter(text);
    SplitOnSpaceRunsChars(c);
    forall i | 0 <= i < |r| ensures 2 <= |r[i]| <= 10 && forall j :: 0 <= j < |r[i]| ==> IsWordChar(r[i][j]) || IsHangulSyllable(r[i][j]) {
      LengthFilteredMember(ps, i);
      var k :| 0 <= k < |ps| && ps[k] == r[i];
      forall j | 0 <= j < |r[i]| ensures IsWordChar(r[i][j]) || IsHangulSyllable(r[i][j]) {
        assert ps[k][j] in c;
      }
    }
  }

  /**
   * The keywords of `a + ' ' + b` are those of `a` followed by those of `b`,
   * which is what the social collector relies on when it tokenizes
   * `${title} ${description}`.
   */
  lemma ExtractKeywordsAppend(a: string, b: string)
    ensures ExtractKeywords(a + " " + b) == ExtractKeywords(a) + ExtractKeywords(b)
  {
    var ca, cb := Clean(a), Clean(b);
    assert Clean(a + " " + b) == ca + [' '] + cb;
    SplitOnSpaceRunsAppend(ca, ' ', cb);
    var pa, pb := SplitOnSpaceRuns(ca), SplitOnSpaceRuns(cb);
    ExtractKeywordsIsLengthFilter(a + " " + b);
    ExtractKeywordsIsLengthFilter(a);
    ExtractKeywordsIsLengthFilter(b);
    LengthFilteredNonEmpty(SplitOnSpaceRuns(ca + [' '] + cb));
    LengthFilteredNonEmpty(pa);
    LengthFilteredNonEmpty(pb);
    LengthFilteredAppend(NonEmpty(pa), NonEmpty(pb));
  }

  // ---------------------------------------------------------------------------
  // processKeywords
  // ---------------------------------------------------------------------------

  /** One entry of a per-source list. */
  datatype KeywordScore = KeywordScore(keyword: string, count: real, score: real, source: string)

  /** `weights[source] || 1`. */
  function Weight(source: string): (w: real)
    ensures w >= 1.0
    ensures w == 3.0 || w == 2.0 || w == 1.5 || w == 1.0
  {
    if source == "news" then 3.0
    else if source == "social" then 2.0
    else if source == "shopping" then 1.5
    else 1.0
  }

  /** The `map` at the end of `processKeywords`. */
  function Scored(top: seq<Entry>, source: string): seq<KeywordScore> {
    seq(|top|, i requires 0 <= i < |top| => KeywordScore(top[i].key, top[i].value, top[i].value * Weight(source), source))
  }

  /** Entry `i` of the weighted list comes from entry `i` of the ranking. */
  lemma ScoredAt(top: seq<Entry>, source: string, i: nat)
    requires i < |top|
    ensures |Scored(top, source)| == |top|
    ensures Scored(top, source)[i] == KeywordScore(top[i].key, top[i].value, top[i].value * Weight(source), source)
  {
  }

  /** What `processKeywords(keywords, source)` returns. */
  function PerSourceRanking(keywords: seq<string>, source: string): seq<KeywordScore> {
    if keywords == [] then [] else Scored(TopCounts(keywords, 10), source)
  }

  function KeywordsOf(l: seq<KeywordScore>): seq<string> {
    seq(|l|, i requires 0 <= i < |l| => l[i].keyword)
  }

  /** `processKeywords(keywords, source)`: count the keywords, then rank and weight them. */
  method ProcessKeywords(keywords: seq<string>, source: string) returns (r: seq<KeywordScore>)
    ensures r == PerSourceRanking(keywords, source)
  {
    if |keywords| == 0 {
      return [];
    }
    var counter := new Tally();
    var i := 0;
    while i < |keywords|
      invariant 0 <= i <= |keywords|
      invariant counter.Valid() && counter.Contents == Ones(keywords[..i])
    {
      counter.Add(keywords[i], 1.0);
      assert Ones(keywords[..i + 1]) == Ones(keywords[..i]) + [Entry(keywords[i], 1.0)];
      i := i + 1;
    }
    assert keywords[..i] == keywords;
    var weight := Weight(source);
    var top := TopK(counter.Entries(), 10);
    assert top == TopCounts(keywords, 10);
    r := seq(|top|, j requires 0 <= j < |top| => KeywordScore(top[j].key, top[j].value, top[j].value * weight, source));
  }

  /**
   * `min(10, distinct keywords)` entries, so none exactly when there are no
   * keywords.
   */
  lemma PerSourceSize(keywords: seq<string>, source: string)
    ensures |PerSourceRanking(keywords, source)| == Min(10, |Distinct(keywords)|)
    ensures PerSourceRanking(keywords, source) == [] <==> keywords == []
  {
    if keywords != [] {
      TopCountsSelects(keywords, 10);
      DistinctMembers(keywords);
      assert keywords[0] in Distinct(keywords);
      assert |Distinct(keywords)| >= 1;
      assert |PerSourceRanking(keywords, source)| == |TopCounts(keywords, 10)|;
    }
  }

  /**
   * One entry per keyword, each counting the occurrences of its keyword and
   * scored as that count times the source's weight.
   */
  lemma PerSourceSelects(keywords: seq<string>, source: string)
    ensures forall i :: 0 <= i < |PerSourceRanking(keywords, source)| ==>
      var e := PerSourceRanking(keywords, source)[i];
      && e.keyword in keywords
      && e.count == multiset(keywords)[e.keyword] as real
      && e.score == e.count * Weight(source)
      && e.source == source
  {
    if keywords != [] {
      var t := TopCounts(keywords, 10);
      var r := PerSourceRanking(keywords, source);
      assert r == Scored(t, source);
      forall i | 0 <= i < |r|
        ensures r[i].keyword in keywords && r[i].count == multiset(keywords)[r[i].keyword] as real
        ensures r[i].score == r[i].count * Weight(source) && r[i].source == source
      {
        ScoredAt(t, source, i);
        TopCountsEntry(keywords, 10, i);
      }
    }
  }

  /** No keyword appears twice in the list. */
  lemma PerSourceDistinct(keywords: seq<string>, source: string)
    ensures NoDuplicates(KeywordsOf(PerSourceRanking(keywords, source)))
  {
    if keywords != [] {
      var t := TopCounts(keywords, 10);
      var r := PerSourceRanking(keywords, source);
      assert r == Scored(t, source);
      forall i | 0 <= i < |t| ensures r[i].keyword == t[i].key {
        ScoredAt(t, source, i);
      }
      TopCountsSelects(keywords, 10);
      assert KeywordsOf(r) == KeysOf(t);
    }
  }

  /** Counts, and so scores, never increase along the list. */
  lemma PerSourceSorted(keywords: seq<string>, source: string)
    ensures forall i, j :: 0 <= i < j < |PerSourceRanking(keywords, source)| ==>
      PerSourceRanking(keywords, source)[i].count >= PerSourceRanking(keywords, source)[j].count &&
      PerSourceRanking(keywords, source)[i].score >= PerSourceRanking(keywords, source)[j].score
  {
    if keywords != [] {
      var t, r := TopCounts(keywords, 10), PerSourceRanking(keywords, source);
      TopCountsSelects(keywords, 10);
      forall i, j | 0 <= i < j < |r| ensures r[i].count >= r[j].count && r[i].score >= r[j].score {
        assert t[i].value >= t[j].value;
        ScaleMonotone(t[i].value, t[j].value, Weight(source));
      }
    }
  }

  lemma ScaleMonotone(a: real, b: real, w: real)
    requires a >= b && w >= 0.0
    ensures a * w >= b * w
  {
  }

  /** No keyword left out occurs more often than a keyword kept. */
  lemma PerSourceOmitted(keywords: seq<string>, source: string)
    ensures forall w, i :: w in keywords && w !in KeywordsOf(PerSourceRanking(keywords, source)) && 0 <= i < |PerSourceRanking(keywords, source)| ==>
      multiset(keywords)[w] as real <= PerSourceRanking(keywords, source)[i].count
  {
    if keywords != [] {
      TopCountsOmitted(keywords, 10);
      assert KeywordsOf(PerSourceRanking(keywords, source)) == KeysOf(TopCounts(keywords, 10));
    }
  }

  /** Keywords with equal counts keep the order in which they first occur in the input. */
  lemma PerSourceTies(keywords: seq<string>, source: string)
    ensures forall i :: 0 <= i < |PerSourceRanking(keywords, source)| ==> PerSourceRanking(keywords, source)[i].keyword in keywords
    ensures forall i, j ::
      (0 <= i < j < |PerSourceRanking(keywords, source)| &&
       PerSourceRanking(keywords, source)[i].count == PerSourceRanking(keywords, source)[j].count) ==>
      FirstIndex(keywords, PerSourceRanking(keywords, source)[i].keyword) < FirstIndex(keywords, PerSourceRanking(keywords, source)[j].keyword)
  {
    if keywords != [] {
      TopCountsTies(keywords, 10);
    }
  }

  // ---------------------------------------------------------------------------
  // The cross-source aggregation in POST
  // ---------------------------------------------------------------------------

  /** One entry of the combined list. */
  datatype CombinedScore = CombinedScore(keyword: string, score: real, source: string)

  /** The `(keyword, score)` pairs of one list, in order. */
  function Pairs(l: seq<KeywordScore>): seq<Entry> {
    seq(|l|, i requires 0 <= i < |l| => Entry(l[i].keyword, l[i].score))
  }

  /** The pairs of every list, list after list: what the nested `forEach` adds to `allKeywords`. */
  function AllPairs(lists: seq<seq<KeywordScore>>): seq<Entry> {
    if lists == [] then [] else AllPairs(lists[..|lists| - 1]) + Pairs(lists[|lists| - 1])
  }

  /** The combined list for the per-source lists `lists`: the twenty best totals, tagged `combined`. */
  function CombinedRanking(lists: seq<seq<KeywordScore>>): seq<CombinedScore> {
    var top := TopTotals(AllPairs(lists), 20);
    seq(|top|, i requires 0 <= i < |top| => CombinedScore(top[i].key, top[i].value, "combined"))
  }

  /** Sum of the scores of the entries of `l` for `keyword`. */
  function ScoreSum(l: seq<KeywordScore>, keyword: string): real {
    if l == [] then 0.0
    else (if l[0].keyword == keyword then l[0].score else 0.0) + ScoreSum(l[1..], keyword)
  }

  /** Sum over the lists of the scores for `keyword`. */
  function TotalScore(lists: seq<seq<KeywordScore>>, keyword: string): real {
    if lists == [] then 0.0 else ScoreSum(lists[0], keyword) + TotalScore(lists[1..], keyword)
  }

  /** Every keyword of the lists, list after list. */
  function AllKeywords(lists: seq<seq<KeywordScore>>): seq<string> {
    if lists == [] then [] else KeywordsOf(lists[0]) + AllKeywords(lists[1..])
  }

  function CombinedKeywords(l: seq<CombinedScore>): seq<string> {
    seq(|l|, i requires 0 <= i < |l| => l[i].keyword)
  }

  /** The aggregation and top-20 selection of `POST`, over the four per-source lists. */
  method Combine(news: seq<KeywordScore>, social: seq<KeywordScore>, shopping: seq<KeywordScore>, search: seq<KeywordScore>)
    returns (combined: seq<CombinedScore>)
    ensures combined == CombinedRanking([news, social, shopping, search])
  {
    var lists := [news, social, shopping, search];
    var allKeywords := new Tally();
    var i := 0;
    while i < |lists|
      invariant 0 <= i <= |lists|
      invariant allKeywords.Valid() && allKeywords.Contents == AllPairs(lists[..i])
    {
      AddScores(allKeywords, lists[i]);
      AllPairsStep(lists, i);
      i := i + 1;
    }
    assert lists[..i] == lists;
    var top := TopK(allKeywords.Entries(), 20);
    combined := seq(|top|, k requires 0 <= k < |top| => CombinedScore(top[k].key, top[k].value, "combined"));
  }

  /** The inner `forEach` of `POST`: add every keyword's score of one list to `allKeywords`. */
  method AddScores(allKeywords: Tally, trendList: seq<KeywordScore>)
    requires allKeywords.Valid()
    modifies allKeywords
    ensures allKeywords.Valid() && allKeywords.Contents == old(allKeywords.Contents) + Pairs(trendList)
  {
    var j := 0;
    while j < |trendList|
      invariant 0 <= j <= |trendList|
      invariant allKeywords.Valid() && allKeywords.Contents == old(allKeywords.Contents) + Pairs(trendList[..j])
    {
      allKeywords.Add(trendList[j].keyword, trendList[j].score);
      PairsStep(trendList, j);
      j := j + 1;
    }
    assert trendList[..j] == trendList;
  }

  /** One more entry adds its keyword and score. */
  lemma PairsStep(l: seq<KeywordScore>, j: nat)
    requires j < |l|
    ensures Pairs(l[..j + 1]) == Pairs(l[..j]) + [Entry(l[j].keyword, l[j].score)]
  {
  }

  /** One more list adds its pairs. */
  lemma AllPairsStep(lists: seq<seq<KeywordScore>>, i: nat)
    requires i < |lists|
    ensures AllPairs(lists[..i + 1]) == AllPairs(lists[..i]) + Pairs(lists[i])
  {
    assert lists[..i + 1][..i] == lists[..i];
  }

  lemma {:induction false} SumForPairs(l: seq<KeywordScore>, keyword: string)
    ensures SumFor(Pairs(l), keyword) == ScoreSum(l, keyword)
  {
    if l != [] {
      var e := Entry(l[0].keyword, l[0].score);
      assert Pairs(l) == [e] + Pairs(l[1..]);
      SumForAppend([e], Pairs(l[1..]), keyword);
      assert [e][..0] == [];
      SumForPairs(l[1..], keyword);
    }
  }

  lemma {:induction false} AllPairsCons(lists: seq<seq<KeywordScore>>)
    requires lists != []
    ensures AllPairs(lists) == Pairs(lists[0]) + AllPairs(lists[1..])
  {
    var n := |lists|;
    if n > 1 {
      assert lists[..n - 1][0] == lists[0];
      assert lists[..n - 1][1..] == lists[1..][..n - 2];
      AllPairsCons(lists[..n - 1]);
    } else {
      assert lists[..n - 1] == [] && lists[1..] == [];
    }
  }

  /** The total of a keyword over the pairs is the sum of its scores over the lists. */
  lemma {:induction false} AllPairsSums(lists: seq<seq<KeywordScore>>, keyword: string)
    ensures SumFor(AllPairs(lists), keyword) == TotalScore(lists, keyword)
  {
    if lists != [] {
      AllPairsCons(lists);
      AllPairsSums(lists[1..], keyword);
      SumForAppend(Pairs(lists[0]), AllPairs(lists[1..]), keyword);
      SumForPairs(lists[0], keyword);
    }
  }

  /** The keys of the pairs are the keywords of the lists, list after list. */
  lemma {:induction false} AllPairsKeys(lists: seq<seq<KeywordScore>>)
    ensures KeysOf(AllPairs(lists)) == AllKeywords(lists)
  {
    if lists != [] {
      AllPairsCons(lists);
      AllPairsKeys(lists[1..]);
      assert KeysOf(Pairs(lists[0])) == KeywordsOf(lists[0]);
      assert KeysOf(AllPairs(lists)) == KeysOf(Pairs(lists[0])) + KeysOf(AllPairs(lists[1..]));
    }
  }

  /**
   * `min(20, distinct keywords of all lists)` entries, one per keyword, each
   * tagged `combined` and carrying the sum of that keyword's scores over all
   * the lists.
   */
  lemma CombinedSelects(lists: seq<seq<KeywordScore>>)
    ensures |CombinedRanking(lists)| == Min(20, |Distinct(AllKeywords(lists))|)
    ensures NoDuplicates(CombinedKeywords(CombinedRanking(lists)))
    ensures forall i :: 0 <= i < |CombinedRanking(lists)| ==>
      var e := CombinedRanking(lists)[i];
      && e.keyword in AllKeywords(lists)
      && e.score == TotalScore(lists, e.keyword)
      && e.source == "combined"
  {
    var ps := AllPairs(lists);
    var t, r := TopTotals(ps, 20), CombinedRanking(lists);
    AllPairsKeys(lists);
    TopTotalsSelects(ps, 20);
    assert CombinedKeywords(r) == KeysOf(t);
    forall i | 0 <= i < |r| ensures r[i].score == TotalScore(lists, r[i].keyword) {
      AllPairsSums(lists, t[i].key);
    }
  }

  /** Entry `i` of the combined list is entry `i` of the ranking, tagged `combined`. */
  lemma CombinedAt(lists: seq<seq<KeywordScore>>, i: nat)
    requires i < |TopTotals(AllPairs(lists), 20)|
    ensures |CombinedRanking(lists)| == |TopTotals(AllPairs(lists), 20)|
    ensures CombinedRanking(lists)[i] == CombinedScore(TopTotals(AllPairs(lists), 20)[i].key, TopTotals(AllPairs(lists), 20)[i].value, "combined")
  {
  }

  /** Scores never increase along the combined list. */
  lemma CombinedSorted(lists: seq<seq<KeywordScore>>)
    ensures forall i, j :: 0 <= i < j < |CombinedRanking(lists)| ==> CombinedRanking(lists)[i].score >= CombinedRanking(lists)[j].score
  {
    var t, r := TopTotals(AllPairs(lists), 20), CombinedRanking(lists);
    TopTotalsSelects(AllPairs(lists), 20);
    forall i | 0 <= i < |t| ensures r[i].score == t[i].value {
      CombinedAt(lists, i);
    }
  }

  /** No keyword left out has a larger total than a keyword kept. */
  lemma CombinedOmitted(lists: seq<seq<KeywordScore>>)
    ensures forall w, i :: w in AllKeywords(lists) && w !in CombinedKeywords(CombinedRanking(lists)) && 0 <= i < |CombinedRanking(lists)| ==>
      TotalScore(lists, w) <= CombinedRanking(lists)[i].score
  {
    var ps := AllPairs(lists);
    var t, r := TopTotals(ps, 20), CombinedRanking(lists);
    AllPairsKeys(lists);
    TopTotalsOmitted(ps, 20);
    forall i | 0 <= i < |t| ensures r[i].keyword == t[i].key && r[i].score == t[i].value {
      CombinedAt(lists, i);
    }
    assert CombinedKeywords(r) == KeysOf(t);
    forall w | w in AllKeywords(lists) ensures SumFor(ps, w) == TotalScore(lists, w) {
      AllPairsSums(lists, w);
    }
  }

  /**
   * Keywords with equal totals come in the order they first appear in news,
   * then social, shopping and search.
   */
  lemma CombinedTies(lists: seq<seq<KeywordScore>>)
    ensures forall i :: 0 <= i < |CombinedRanking(lists)| ==> CombinedRanking(lists)[i].keyword in AllKeywords(lists)
    ensures forall i, j ::
      (0 <= i < j < |CombinedRanking(lists)| && CombinedRanking(lists)[i].score == CombinedRanking(lists)[j].score) ==>
      FirstIndex(AllKeywords(lists), CombinedRanking(lists)[i].keyword) < FirstIndex(AllKeywords(lists), CombinedRanking(lists)[j].keyword)
  {
    var ps := AllPairs(lists);
    var t, r := TopTotals(ps, 20), CombinedRanking(lists);
    AllPairsKeys(lists);
    TopTotalsTies(ps, 20);
    forall i | 0 <= i < |t| ensures r[i].keyword == t[i].key && r[i].score == t[i].value {
      CombinedAt(lists, i);
    }
  }
}
