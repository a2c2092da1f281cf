/** Building per-comic term counts and handing them to storage (src/index.rs). */
module Index {
  import opened Comics
  import opened Terms

  /** The text a comic is indexed by: its title and transcript joined by one space. */
  function SearchableText(title: string, transcript: string): string
  {
    title + " " + transcript
  }

  /** The term map of a comic with this title and transcript, as a histogram of the stems
      its tokens contribute. */
  function TermCounts(stem: string -> string, title: string, transcript: string): map<string, int>
  {
    Histogram(CountedTerms(Normaliser(stem), Split(SearchableText(title, transcript))))
  }

  /** `comic_to_terms`: splits the title and transcript joined by a space and counts, token
      by token, the cleaned and stemmed words that are neither empty nor stop words. The
      result depends on the title and transcript only. */
  method ComicToTerms(comic: XkcdComic, stem: string -> string) returns (searchableTerms: map<string, int>)
    ensures searchableTerms == TermCounts(stem, comic.title, comic.transcript)
    ensures forall k :: k in searchableTerms ==> k != "" && !IsStopWord(k) && searchableTerms[k] >= 1
  {
    var words := Split(SearchableText(comic.title, comic.transcript));
    searchableTerms := CountTokens(words, stem);
  }

  /** The loop of `comic_to_terms` over the split pieces: a piece whose stem is empty is
      skipped (the source logs a warning), a stop word is skipped, and any other stem has its
      count raised by one, entering the map at 1. */
  method CountTokens(words: seq<string>, stem: string -> string) returns (searchableTerms: map<string, int>)
    ensures searchableTerms == Histogram(CountedTerms(Normaliser(stem), words))
    ensures forall k :: k in searchableTerms ==> k != "" && !IsStopWord(k) && searchableTerms[k] >= 1
  {
    ghost var norm := Normaliser(stem);
    searchableTerms := map[];
    var i := 0;
    assert Histogram([]) == map[];
    while i < |words|
      invariant 0 <= i <= |words|
      invariant searchableTerms == Histogram(CountedPrefix(norm, words, i))
    {
      var word := words[i];
      var cleaned := Clean(word);
      var stemmed := stem(cleaned);
      var count := if stemmed in searchableTerms then searchableTerms[stemmed] else 0;
      assert norm(words[i]) == stemmed;
      HistogramStep(norm, words, i, searchableTerms, count);
      if stemmed == "" {
        // logged as a warning in the source; the token contributes nothing
        i := i + 1;
        continue;
      }
      if !IsStopWord(stemmed) {
        searchableTerms := searchableTerms[stemmed := count + 1];
      }
      i := i + 1;
    }
    CountedPrefixKept(norm, words, |words|);
    HistogramCounts(CountedPrefix(norm, words, |words|));
  }

  /** Every key of a term map is a non-empty, non-stop-word stem with a positive count, and
      a term's count is the number of tokens that normalise to it. */
  lemma TermCountsMeaning(stem: string -> string, title: string, transcript: string)
    ensures forall k :: k in TermCounts(stem, title, transcript) ==>
      k != "" && !IsStopWord(k) && TermCounts(stem, title, transcript)[k] >= 1
    ensures forall k ::
      (if k in TermCounts(stem, title, transcript) then TermCounts(stem, title, transcript)[k] else 0)
        == TokenCount(Normaliser(stem), Split(SearchableText(title, transcript)), |Split(SearchableText(title, transcript))|, k)
  {
    var words := Split(SearchableText(title, transcript));
    CountedPrefixKept(Normaliser(stem), words, |words|);
    HistogramCounts(CountedTerms(Normaliser(stem), words));
    forall k ensures (if k in TermCounts(stem, title, transcript) then TermCounts(stem, title, transcript)[k] else 0)
                       == TokenCount(Normaliser(stem), words, |words|, k)
    {
      CountedPrefixCount(Normaliser(stem), words, |words|, k);
    }
  }

  /** The counts add up to at most the number of tokens of the split. */
  lemma TermCountsTotal(stem: string -> string, title: string, transcript: string)
    ensures MapSum(TermCounts(stem, title, transcript)) <= |Split(SearchableText(title, transcript))|
  {
    HistogramSum(CountedTerms(Normaliser(stem), Split(SearchableText(title, transcript))));
  }

  /** What `load_comics_with_no_terms` returns. */
  datatype LoadResult = Loaded(comics: seq<XkcdComic>) | LoadFailed(reason: string)

  /** What `save_entries` returns. */
  datatype SaveResult = Saved | SaveFailed(reason: string)

  datatype IndexOutcome = Finished | Panicked(reason: string)

  /** `update_index`: a load failure panics; otherwise every loaded comic, in load order, has
      its terms computed and passed to `save_entries` exactly once, and a failed save is only
      logged (`results`) before the loop moves on. `saves` lists the calls of `save_entries`. */
  method UpdateIndex(loaded: LoadResult, stem: string -> string,
                     saveEntries: (U32, map<string, int>) -> SaveResult)
    returns (outcome: IndexOutcome, saves: seq<(U32, map<string, int>)>, results: seq<SaveResult>)
    ensures loaded.LoadFailed? ==> outcome == Panicked(loaded.reason) && saves == [] && results == []
    ensures loaded.Loaded? ==> outcome == Finished
    ensures loaded.Loaded? ==> |saves| == |results| == |loaded.comics|
    ensures loaded.Loaded? ==> forall k :: 0 <= k < |saves| ==>
      saves[k] == (loaded.comics[k].num, TermCounts(stem, loaded.comics[k].title, loaded.comics[k].transcript))
      && results[k] == saveEntries(saves[k].0, saves[k].1)
  {
    saves, results := [], [];
    if loaded.LoadFailed? {
      return Panicked(loaded.reason), saves, results;
    }
    var comics := loaded.comics;
    for i := 0 to |comics|
      invariant |saves| == |results| == i
      invariant forall k :: 0 <= k < i ==>
        saves[k] == (comics[k].num, TermCounts(stem, comics[k].title, comics[k].transcript))
        && results[k] == saveEntries(saves[k].0, saves[k].1)
    {
      var comic := comics[i];
      var terms := ComicToTerms(comic, stem);
      var result := saveEntries(comic.num, terms);
      saves := saves + [(comic.num, terms)];
      results := results + [result];
    }
    outcome := Finished;
  }
}
