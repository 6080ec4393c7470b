/**
 * The title word counter of the Google News RSS endpoint: every feed item's
 * title is stripped down to Hangul syllables, ASCII letters, digits and
 * spaces, split on single spaces, every piece of two or more characters is
 * counted, and the twenty most frequent words are kept with their counts as
 * scores.
 */
module CollectNews {
  import opened Text
  import opened Tally
  import opened Ranking

  datatype Option<T> = None | Some(value: T)

  /** A feed item as the RSS parser returns it; the title may be missing. */
  datatype FeedItem = FeedItem(title: Option<string>)

  /** One entry of the output list. */
  datatype NewsKeyword = NewsKeyword(keyword: string, score: real, source: string)

  /** The characters of the class `[가-힣a-zA-Z0-9 ]`. */
  predicate IsTitleChar(c: char) {
    IsHangulSyllable(c) || IsAsciiLetter(c) || IsAsciiDigit(c) || c == ' '
  }

  /** `title.replace(/[^가-힣a-zA-Z0-9 ]/g, '')`: other characters are deleted, not replaced. */
  function StripTitle(title: string): string {
    if title == [] then []
    else (if IsTitleChar(title[0]) then [title[0]] else []) + StripTitle(title[1..])
  }

  /**
   * Stripping keeps each character of the class as often as it occurs, in
   * order, and no other character.
   */
  lemma {:induction false} StripTitleCounts(title: string)
    ensures forall c :: multiset(StripTitle(title))[c] == if IsTitleChar(c) then multiset(title)[c] else 0
    ensures forall i :: 0 <= i < |StripTitle(title)| ==> IsTitleChar(StripTitle(title)[i])
  {
    if title != [] {
      StripTitleCounts(title[1..]);
      assert title == [title[0]] + title[1..];
      var r := StripTitle(title);
      forall i | 0 <= i < |r| ensures IsTitleChar(r[i]) {
        assert r[i] in multiset(r);
      }
    }
  }

  /** Stripping works character by character. */
  lemma {:induction false} StripTitleAppend(a: string, b: string)
    ensures StripTitle(a + b) == StripTitle(a) + StripTitle(b)
  {
    if a == [] {
      assert a + b == b;
    } else {
      var head := if IsTitleChar(a[0]) then [a[0]] else [];
      assert (a + b)[0] == a[0] && (a + b)[1..] == a[1..] + b;
      assert StripTitle(a + b) == head + StripTitle(a[1..] + b);
      assert StripTitle(a) == head + StripTitle(a[1..]);
      StripTitleAppend(a[1..], b);
    }
  }

  /** A title made only of characters of the class is left as it is. */
  lemma {:induction false} StripTitleKeeps(title: string)
    requires forall i :: 0 <= i < |title| ==> IsTitleChar(title[i])
    ensures StripTitle(title) == title
  {
    if title != [] {
      StripTitleKeeps(title[1..]);
    }
  }

  /** A hyphen is deleted, so the two halves of `a-b` run together. */
  lemma StripTitleJoins()
    ensures StripTitle("a-b") == "ab"
  {
    assert "a-b"[1..] == "-b" && "-b"[1..] == "b" && "b"[1..] == [];
  }

  /** `item.title || ''`. */
  function TitleText(item: FeedItem): string {
    match item.title
    case Some(t) => t
    case None => ""
  }

  /** The pieces `split(' ')` makes of one stripped title. */
  function TitleWords(item: FeedItem): seq<string> {
    SplitOn(StripTitle(TitleText(item)), ' ')
  }

  /** The pieces of every title, item after item. */
  function Words(items: seq<FeedItem>): seq<string> {
    if items == [] then [] else Words(items[..|items| - 1]) + TitleWords(items[|items| - 1])
  }

  /** The pieces that are counted: those of two or more characters, in order. */
  function LongWords(ws: seq<string>): seq<string> {
    if ws == [] then []
    else LongWords(ws[..|ws| - 1]) + (if |ws[|ws| - 1]| >= 2 then [ws[|ws| - 1]] else [])
  }

  /** `wordCount` after the loops: each counted word once, in first-occurrence order, with its count. */
  function WordCount(items: seq<FeedItem>): seq<Entry> {
    Accumulated(Ones(LongWords(Words(items))))
  }

  /** The twenty most frequent counted words among the pieces `ws`, scored by their counts. */
  function Ranked(ws: seq<string>): seq<NewsKeyword> {
    var top := TopCounts(LongWords(ws), 20);
    seq(|top|, i requires 0 <= i < |top| => NewsKeyword(top[i].key, top[i].value, "google_rss"))
  }

  /** The output of the endpoint for the feed items `items`. */
  function NewsKeywords(items: seq<FeedItem>): seq<NewsKeyword> {
    Ranked(Words(items))
  }

  function NewsKeywordsOf(l: seq<NewsKeyword>): seq<string> {
    seq(|l|, i requires 0 <= i < |l| => l[i].keyword)
  }

  /** The word count and top-20 selection of `POST`. */
  method CollectNewsKeywords(items: seq<FeedItem>) returns (keywords: seq<NewsKeyword>)
    ensures keywords == NewsKeywords(items)
  {
    var wordCount := new Tally();
    var i := 0;
    while i < |items|
      invariant 0 <= i <= |items|
      invariant wordCount.Valid() && wordCount.Contents == Ones(LongWords(Words(items[..i])))
    {
      var words := SplitOn(StripTitle(TitleText(items[i])), ' ');
      CountWords(wordCount, words);
      CountedTitle(items, i);
      i := i + 1;
    }
    assert items[..i] == items;
    var top := TopK(wordCount.Entries(), 20);
    assert top == TopCounts(LongWords(Words(items)), 20);
    keywords := seq(|top|, k requires 0 <= k < |top| => NewsKeyword(top[k].key, top[k].value, "google_rss"));
  }

  /** The inner `forEach` of `POST`: count every piece of two or more characters of one title. */
  method CountWords(wordCount: Tally, words: seq<string>)
    requires wordCount.Valid()
    modifies wordCount
    ensures wordCount.Valid() && wordCount.Contents == old(wordCount.Contents) + Ones(LongWords(words))
  {
    var j := 0;
    while j < |words|
      invariant 0 <= j <= |words|
      invariant wordCount.Valid() && wordCount.Contents == old(wordCount.Contents) + Ones(LongWords(words[..j]))
    {
      var word := words[j];
      LongWordsStep(words, j);
      if |word| >= 2 {
        wordCount.Add(word, 1.0);
      }
      j := j + 1;
    }
    assert words[..j] == words;
  }

  /** One more piece adds one `1` for it to the count when it has two or more characters. */
  lemma LongWordsStep(words: seq<string>, j: nat)
    requires j < |words|
    ensures Ones(LongWords(words[..j + 1])) ==
            Ones(LongWords(words[..j])) + (if |words[j]| >= 2 then [Entry(words[j], 1.0)] else [])
  {
    assert words[..j + 1][..j] == words[..j];
    OnesAppend(LongWords(words[..j]), if |words[j]| >= 2 then [words[j]] else []);
  }

  /** Counting the title of item `i` extends the count of the items before it to the items up to it. */
  lemma CountedTitle(items: seq<FeedItem>, i: nat)
    requires i < |items|
    ensures Ones(LongWords(Words(items[..i]))) + Ones(LongWords(TitleWords(items[i]))) == Ones(LongWords(Words(items[..i + 1])))
  {
    assert items[..i + 1][..i] == items[..i];
    LongWordsAppend(Words(items[..i]), TitleWords(items[i]));
    OnesAppend(LongWords(Words(items[..i])), LongWords(TitleWords(items[i])));
  }

  /** The counted words are the pieces of two or more characters, each as often as it occurs. */
  lemma {:induction false} LongWordsCounts(ws: seq<string>)
    ensures forall w :: multiset(LongWords(ws))[w] == if |w| >= 2 then multiset(ws)[w] else 0
  {
    if ws != [] {
      var n := |ws|;
      LongWordsCounts(ws[..n - 1]);
      assert ws == ws[..n - 1] + [ws[n - 1]];
    }
  }

  /** A counted word is a piece of two or more characters, counted as often as it occurs. */
  lemma LongWordCounted(ws: seq<string>, w: string)
    requires w in LongWords(ws)
    ensures w in ws && |w| >= 2 && multiset(LongWords(ws))[w] == multiset(ws)[w]
  {
    LongWordsCounts(ws);
    assert w in multiset(LongWords(ws));
  }

  lemma LongWordsCount(ws: seq<string>, w: string)
    requires |w| >= 2
    ensures multiset(LongWords(ws))[w] == multiset(ws)[w]
  {
    LongWordsCounts(ws);
  }

  lemma {:induction false} LongWordsAppend(a: seq<string>, b: seq<string>)
    ensures LongWords(a + b) == LongWords(a) + LongWords(b)
  {
    if b == [] {
      assert a + b == a;
    } else {
      var init, last := b[..|b| - 1], b[|b| - 1];
      assert (a + b)[..|a + b| - 1] == a + init && (a + b)[|a + b| - 1] == last;
      var tail := if |last| >= 2 then [last] else [];
      assert LongWords(a + b) == LongWords(a + init) + tail;
      assert LongWords(b) == LongWords(init) + tail;
      LongWordsAppend(a, init);
      AppendAssoc(LongWords(a), LongWords(init), tail);
    }
  }

  lemma {:induction false} WordsAppend(a: seq<FeedItem>, b: seq<FeedItem>)
    ensures Words(a + b) == Words(a) + Words(b)
  {
    if b == [] {
      assert a + b == a;
    } else {
      var init, last := b[..|b| - 1], b[|b| - 1];
      assert (a + b)[..|a + b| - 1] == a + init && (a + b)[|a + b| - 1] == last;
      assert Words(a + b) == Words(a + init) + TitleWords(last);
      assert Words(b) == Words(init) + TitleWords(last);
      WordsAppend(a, init);
      AppendAssoc(Words(a), Words(init), TitleWords(last));
    }
  }

  /** A piece of one title holds no space and only characters of the class. */
  lemma TitleWordsChars(item: FeedItem)
    ensures forall i, j :: 0 <= i < |TitleWords(item)| && 0 <= j < |TitleWords(item)[i]| ==>
      IsTitleChar(TitleWords(item)[i][j]) && TitleWords(item)[i][j] != ' '
  {
    var stripped := StripTitle(TitleText(item));
    StripTitleCounts(TitleText(item));
    SplitOnChars(stripped, ' ');
    SplitOnPieces(stripped, ' ');
    forall i, j | 0 <= i < |TitleWords(item)| && 0 <= j < |TitleWords(item)[i]| ensures IsTitleChar(TitleWords(item)[i][j]) {
      var c := TitleWords(item)[i][j];
      assert c in multiset(stripped);
    }
  }

  /** A piece of any title holds no space and only characters of the class. */
  lemma {:induction false} WordsChars(items: seq<FeedItem>)
    ensures forall i, j :: 0 <= i < |Words(items)| && 0 <= j < |Words(items)[i]| ==>
      IsTitleChar(Words(items)[i][j]) && Words(items)[i][j] != ' '
  {
    if items != [] {
      var n := |items|;
      var init, last := Words(items[..n - 1]), TitleWords(items[n - 1]);
      WordsChars(items[..n - 1]);
      TitleWordsChars(items[n - 1]);
      var ws := Words(items);
      assert ws == init + last;
      forall i, j | 0 <= i < |ws| && 0 <= j < |ws[i]| ensures IsTitleChar(ws[i][j]) && ws[i][j] != ' ' {
        if i < |init| {
          assert ws[i] == init[i];
        } else {
          assert ws[i] == last[i - |init|];
        }
      }
    }
  }

  /**
   * At most twenty entries, `min(20, distinct counted words)`, one per word;
   * each word is a piece of two or more characters, and its score is its
   * number of occurrences among the pieces.
   */
  lemma RankedSelects(ws: seq<string>)
    ensures |Ranked(ws)| == Min(20, |Distinct(LongWords(ws))|) <= 20
    ensures NoDuplicates(NewsKeywordsOf(Ranked(ws)))
    ensures forall i :: 0 <= i < |Ranked(ws)| ==>
      var e := Ranked(ws)[i];
      && e.keyword in ws
      && |e.keyword| >= 2
      && e.score == multiset(ws)[e.keyword] as real
      && e.source == "google_rss"
  {
    var lw := LongWords(ws);
    var t, r := TopCounts(lw, 20), Ranked(ws);
    TopCountsSelects(lw, 20);
    assert NewsKeywordsOf(r) == KeysOf(t);
    forall i | 0 <= i < |r| ensures r[i].keyword in ws && |r[i].keyword| >= 2 && r[i].score == multiset(ws)[r[i].keyword] as real {
      LongWordCounted(ws, t[i].key);
    }
  }

  /**
   * Scores never increase along the list, and no counted word left out
   * occurs more often than a word kept.
   */
  lemma RankedOrder(ws: seq<string>)
    ensures forall i, j :: 0 <= i < j < |Ranked(ws)| ==> Ranked(ws)[i].score >= Ranked(ws)[j].score
    ensures forall w, i :: w in ws && |w| >= 2 && w !in NewsKeywordsOf(Ranked(ws)) && 0 <= i < |Ranked(ws)| ==>
      multiset(ws)[w] as real <= Ranked(ws)[i].score
  {
    var lw := LongWords(ws);
    var t, r := TopCounts(lw, 20), Ranked(ws);
    TopCountsSelects(lw, 20);
    TopCountsOmitted(lw, 20);
    assert NewsKeywordsOf(r) == KeysOf(t);
    forall w | w in ws && |w| >= 2 ensures w in lw && multiset(lw)[w] == multiset(ws)[w] {
      LongWordsCount(ws, w);
    }
  }

  /** Words with equal counts keep the order in which they are first counted. */
  lemma RankedTies(ws: seq<string>)
    ensures forall i :: 0 <= i < |Ranked(ws)| ==> Ranked(ws)[i].keyword in LongWords(ws)
    ensures forall i, j ::
      (0 <= i < j < |Ranked(ws)| && Ranked(ws)[i].score == Ranked(ws)[j].score) ==>
      FirstIndex(LongWords(ws), Ranked(ws)[i].keyword) < FirstIndex(LongWords(ws), Ranked(ws)[j].keyword)
  {
    TopCountsTies(LongWords(ws), 20);
  }

  /**
   * Every output word is made of Hangul syllables, ASCII letters and digits,
   * with no upper bound on its length.
   */
  lemma NewsKeywordsChars(items: seq<FeedItem>)
    ensures forall i, j :: 0 <= i < |NewsKeywords(items)| && 0 <= j < |NewsKeywords(items)[i].keyword| ==>
      var c := NewsKeywords(items)[i].keyword[j];
      IsHangulSyllable(c) || IsAsciiLetter(c) || IsAsciiDigit(c)
  {
    var ws := Words(items);
    var r := Ranked(ws);
    RankedSelects(ws);
    WordsChars(items);
    forall i, j | 0 <= i < |r| && 0 <= j < |r[i].keyword|
      ensures IsHangulSyllable(r[i].keyword[j]) || IsAsciiLetter(r[i].keyword[j]) || IsAsciiDigit(r[i].keyword[j])
    {
      var k :| 0 <= k < |ws| && ws[k] == r[i].keyword;
      assert IsTitleChar(ws[k][j]) && ws[k][j] != ' ';
    }
  }

  /** The counts add up to the number of pieces of two or more characters. */
  lemma WordCountTotal(items: seq<FeedItem>)
    ensures SumAll(WordCount(items)) == |LongWords(Words(items))| as real
  {
    AccumulatedTotal(Ones(LongWords(Words(items))));
    SumAllOnes(LongWords(Words(items)));
  }

  /** An item without a title adds one empty piece. */
  lemma WordsMissingTitle(a: seq<FeedItem>, b: seq<FeedItem>)
    ensures Words(a + [FeedItem(None)] + b) == Words(a) + [""] + Words(b)
  {
    var none := [FeedItem(None)];
    WordsAppend(a + none, b);
    WordsAppend(a, none);
    assert none[..0] == [];
    assert Words(none) == Words([]) + TitleWords(FeedItem(None));
  }

  /** An empty piece is never counted. */
  lemma LongWordsEmptyPiece(x: seq<string>, y: seq<string>)
    ensures LongWords(x + [""] + y) == LongWords(x + y)
  {
    LongWordsAppend(x + [""], y);
    LongWordsAppend(x, [""]);
    LongWordsAppend(x, y);
    assert [""][..0] == [];
  }

  /** An item without a title contributes nothing, wherever it sits in the feed. */
  lemma MissingTitle(a: seq<FeedItem>, b: seq<FeedItem>)
    ensures WordCount(a + [FeedItem(None)] + b) == WordCount(a + b)
    ensures NewsKeywords(a + [FeedItem(None)] + b) == NewsKeywords(a + b)
  {
    WordsMissingTitle(a, b);
    WordsAppend(a, b);
    LongWordsEmptyPiece(Words(a), Words(b));
  }
}
