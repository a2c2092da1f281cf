/** The expression-level steps of turning a comic's text into search terms (src/index.rs):
    splitting, cleaning a token, the stop-word list, and the term histogram. */
module Terms {

  // ---------------------------------------------------------------------------
  // Splitting on runs of spaces and newlines (the pattern `[ \n]+`)

  predicate IsSeparator(c: char) { c == ' ' || c == '\n' }

  /** The rest of `s` after its leading run of separators. */
  function DropSeparators(s: string): (r: string)
    ensures |r| <= |s| && r == s[|s| - |r|..]
    ensures r == [] || !IsSeparator(r[0])
    ensures forall i :: 0 <= i < |s| - |r| ==> IsSeparator(s[i])
  {
    if s != [] && IsSeparator(s[0]) then DropSeparators(s[1..]) else s
  }

  /** The pieces between maximal runs of separators, as a regex split yields them:
      a leading or trailing run gives an empty first or last piece. */
  function Split(s: string): (pieces: seq<string>)
    ensures |pieces| >= 1
    decreases |s|
  {
    if s == [] then [""]
    else if IsSeparator(s[0]) then [""] + Split(DropSeparators(s))
    else
      var rest := Split(s[1..]);
      [[s[0]] + rest[0]] + rest[1..]
  }

  function Concat(pieces: seq<string>): string
  {
    if pieces == [] then [] else pieces[0] + Concat(pieces[1..])
  }

  function RemoveSeparators(s: string): (r: string)
  {
    if s == [] then [] else (if IsSeparator(s[0]) then [] else [s[0]]) + RemoveSeparators(s[1..])
  }

  /** No piece of a split contains a separator. */
  lemma {:induction false} SplitPiecesHaveNoSeparator(s: string)
    ensures forall p, c :: p in Split(s) && c in p ==> !IsSeparator(c)
    decreases |s|
  {
    if s == [] {
    } else if IsSeparator(s[0]) {
      SplitPiecesHaveNoSeparator(DropSeparators(s));
    } else {
      var rest := Split(s[1..]);
      SplitPiecesHaveNoSeparator(s[1..]);
      var head := [s[0]] + rest[0];
      forall p, c | p in Split(s) && c in p ensures !IsSeparator(c) {
        if p == head {
          assert c == s[0] || c in rest[0];
        } else {
          assert p in rest;
        }
      }
    }
  }

  /** The pieces of a split, put back together, hold every non-separator character of the
      input, in order: splitting loses only separators. */
  lemma {:induction false} SplitKeepsText(s: string)
    ensures Concat(Split(s)) == RemoveSeparators(s)
    decreases |s|
  {
    if s == [] {
    } else if IsSeparator(s[0]) {
      var d := DropSeparators(s);
      SplitKeepsText(d);
      RemoveLeadingSeparators(s);
      ConcatCons("", Split(d));
    } else {
      var rest := Split(s[1..]);
      SplitKeepsText(s[1..]);
      ConcatCons(rest[0], rest[1..]);
      assert rest == [rest[0]] + rest[1..];
      ConcatCons([s[0]] + rest[0], rest[1..]);
    }
  }

  /** The pieces joined by single spaces. */
  function Join(pieces: seq<string>): string
  {
    if pieces == [] then []
    else if |pieces| == 1 then pieces[0]
    else pieces[0] + " " + Join(pieces[1..])
  }

  /** `s` with each maximal run of spaces and newlines replaced by one space. */
  function Collapse(s: string): string
    decreases |s|
  {
    if s == [] then []
    else if IsSeparator(s[0]) then " " + Collapse(DropSeparators(s))
    else [s[0]] + Collapse(s[1..])
  }

  /** The split breaks the text exactly at its runs of separators: joining the pieces with
      one space gives the text with every run made one space. Together with
      SplitPiecesHaveNoSeparator this fixes the pieces. */
  lemma {:induction false} SplitJoin(s: string)
    ensures Join(Split(s)) == Collapse(s)
    decreases |s|
  {
    if s == [] {
    } else if IsSeparator(s[0]) {
      var d := DropSeparators(s);
      SplitJoin(d);
      JoinCons("", Split(d));
    } else {
      var rest := Split(s[1..]);
      SplitJoin(s[1..]);
      assert rest == [rest[0]] + rest[1..];
      JoinCons(rest[0], rest[1..]);
      JoinCons([s[0]] + rest[0], rest[1..]);
    }
  }

  /** Only one sequence of separator-free pieces joins to `Collapse(s)`, and it is the split
      of `s`: the pieces are exactly the maximal separator-free stretches. */
  lemma SplitUnique(s: string, pieces: seq<string>)
    requires |pieces| >= 1
    requires forall p, c :: p in pieces && c in p ==> !IsSeparator(c)
    requires Join(pieces) == Collapse(s)
    ensures pieces == Split(s)
  {
    SplitJoin(s);
    SplitPiecesHaveNoSeparator(s);
    JoinInjective(pieces, Split(s));
  }

  /** Joining separator-free pieces loses nothing: the pieces can be read back. */
  lemma {:induction false} JoinInjective(ps: seq<string>, qs: seq<string>)
    requires |ps| >= 1 && |qs| >= 1
    requires forall p, c :: p in ps && c in p ==> !IsSeparator(c)
    requires forall q, c :: q in qs && c in q ==> !IsSeparator(c)
    requires Join(ps) == Join(qs)
    ensures ps == qs
    decreases |ps|
  {
    var j := Join(ps);
    var a, b := ps[0], qs[0];
    assert ps == [a] + ps[1..] && qs == [b] + qs[1..];
    JoinCons(a, ps[1..]);
    JoinCons(b, qs[1..]);
    assert a in ps && b in qs;
    FirstPieceLength(a, b, j, ps[1..], qs[1..]);
    assert a == j[..|a|] == b;
    if |ps| > 1 && |qs| > 1 {
      assert Join(ps[1..]) == j[|a| + 1..] == Join(qs[1..]);
      forall p, c | p in ps[1..] && c in p ensures !IsSeparator(c) {
        assert p in ps;
      }
      forall q, c | q in qs[1..] && c in q ensures !IsSeparator(c) {
        assert q in qs;
      }
      JoinInjective(ps[1..], qs[1..]);
    }
  }

  lemma FirstPieceLength(a: string, b: string, j: string, ps: seq<string>, qs: seq<string>)
    requires forall c :: c in a ==> !IsSeparator(c)
    requires forall c :: c in b ==> !IsSeparator(c)
    requires j == a + (if ps == [] then [] else " " + Join(ps))
    requires j == b + (if qs == [] then [] else " " + Join(qs))
    ensures |a| == |b|
  {
    PieceNotShorter(a, b, j, ps, qs);
    PieceNotShorter(b, a, j, qs, ps);
  }

  /** A separator-free piece of `j` that `j` starts with cannot stop before another such piece. */
  lemma PieceNotShorter(a: string, b: string, j: string, ps: seq<string>, qs: seq<string>)
    requires forall c :: c in b ==> !IsSeparator(c)
    requires j == a + (if ps == [] then [] else " " + Join(ps))
    requires j == b + (if qs == [] then [] else " " + Join(qs))
    ensures |b| <= |a|
  {
    assert forall k :: 0 <= k < |b| ==> j[k] == b[k] && b[k] in b;
    assert |a| < |j| ==> j[|a|] == ' ';
  }

  lemma JoinCons(p: string, ps: seq<string>)
    ensures Join([p] + ps) == p + (if ps == [] then [] else " " + Join(ps))
  {
    assert ([p] + ps)[1..] == ps;
  }

  lemma ConcatCons(p: string, ps: seq<string>)
    ensures Concat([p] + ps) == p + Concat(ps)
  {
    assert ([p] + ps)[1..] == ps;
  }

  lemma {:induction false} RemoveLeadingSeparators(s: string)
    ensures RemoveSeparators(s) == RemoveSeparators(DropSeparators(s))
    decreases |s|
  {
    if s != [] && IsSeparator(s[0]) {
      RemoveLeadingSeparators(s[1..]);
    }
  }

  // ---------------------------------------------------------------------------
  // Cleaning one token: keep the alphanumeric characters, trim, lowercase (ASCII)

  predicate IsUpper(c: char) { 'A' <= c <= 'Z' }

  predicate IsAlphanumeric(c: char) { 'a' <= c <= 'z' || IsUpper(c) || '0' <= c <= '9' }

  predicate IsWhitespace(c: char)
  {
    c == ' ' || c == '\t' || c == '\n' || c == '\r' || c == '\U{B}' || c == '\U{C}'
  }

  function ToLower(c: char): (d: char)
    ensures !IsUpper(d) && (IsAlphanumeric(c) <==> IsAlphanumeric(d))
  {
    if IsUpper(c) then (c as int + 32) as char else c
  }

  /** The characters of `s` that are alphanumeric, in order. */
  function KeepAlphanumeric(s: string): string
  {
    if s == [] then []
    else (if IsAlphanumeric(s[0]) then [s[0]] else []) + KeepAlphanumeric(s[1..])
  }

  /** The filter keeps only alphanumeric characters, keeps every one of them, and never
      lengthens the token. */
  lemma {:induction false} KeepAlphanumericShape(s: string)
    ensures |KeepAlphanumeric(s)| <= |s|
    ensures forall i :: 0 <= i < |KeepAlphanumeric(s)| ==> IsAlphanumeric(KeepAlphanumeric(s)[i])
    ensures forall c :: c in KeepAlphanumeric(s) <==> c in s && IsAlphanumeric(c)
  {
    if s != [] {
      KeepAlphanumericShape(s[1..]);
    }
  }

  function TrimStart(s: string): string
  {
    if s != [] && IsWhitespace(s[0]) then TrimStart(s[1..]) else s
  }

  function TrimEnd(s: string): string
  {
    if s != [] && IsWhitespace(s[|s| - 1]) then TrimEnd(s[..|s| - 1]) else s
  }

  function Trim(s: string): string { TrimEnd(TrimStart(s)) }

  /** `s` with every character lowercased. */
  function Lowercase(s: string): string
  {
    if s == [] then [] else [ToLower(s[0])] + Lowercase(s[1..])
  }

  /** Lowercasing maps each character in place. */
  lemma {:induction false} LowercaseShape(s: string)
    ensures |Lowercase(s)| == |s|
    ensures forall i :: 0 <= i < |s| ==> Lowercase(s)[i] == ToLower(s[i])
  {
    if s != [] {
      LowercaseShape(s[1..]);
    }
  }

  /** A token reduced to its alphanumeric characters, trimmed and lowercased. */
  function Clean(word: string): (cleaned: string)
    ensures |cleaned| <= |word|
    ensures forall i :: 0 <= i < |cleaned| ==> IsAlphanumeric(cleaned[i]) && !IsUpper(cleaned[i])
  {
    KeepAlphanumericShape(word);
    TrimKeepsAlphanumeric(KeepAlphanumeric(word));
    LowercaseShape(KeepAlphanumeric(word));
    Lowercase(Trim(KeepAlphanumeric(word)))
  }

  /** The trim step never changes anything, and cleaning a cleaned token again changes
      nothing. */
  lemma CleanShape(word: string)
    ensures Clean(word) == Lowercase(KeepAlphanumeric(word))
    ensures Clean(Clean(word)) == Clean(word)
  {
    var kept := KeepAlphanumeric(word);
    KeepAlphanumericShape(word);
    TrimKeepsAlphanumeric(kept);
    var c := Lowercase(kept);
    LowercaseShape(kept);
    KeepAllAlphanumeric(c);
    TrimKeepsAlphanumeric(c);
    LowercaseKeepsLower(c);
  }

  /** Trimming a token of alphanumeric characters changes nothing. */
  lemma TrimKeepsAlphanumeric(s: string)
    requires forall i :: 0 <= i < |s| ==> IsAlphanumeric(s[i])
    ensures Trim(s) == s
  {
    assert TrimStart(s) == s by {
      assert s == [] || !IsWhitespace(s[0]);
    }
    assert TrimEnd(s) == s by {
      assert s == [] || !IsWhitespace(s[|s| - 1]);
    }
  }

  /** Lowercasing a token without uppercase letters changes nothing. */
  lemma {:induction false} LowercaseKeepsLower(s: string)
    requires forall i :: 0 <= i < |s| ==> !IsUpper(s[i])
    ensures Lowercase(s) == s
  {
    if s != [] {
      LowercaseKeepsLower(s[1..]);
    }
  }

  lemma {:induction false} KeepAllAlphanumeric(s: string)
    requires forall i :: 0 <= i < |s| ==> IsAlphanumeric(s[i])
    ensures KeepAlphanumeric(s) == s
  {
    if s != [] {
      KeepAllAlphanumeric(s[1..]);
    }
  }

  // ---------------------------------------------------------------------------
  // Stop words and the terms a token contributes

  /** `stop_words.contains(t)`: `t` is one of the words of the stop-word list. */
  predicate IsStopWord(t: string): (stop: bool)
    ensures stop ==> 1 <= |t| <= 10
  {
    t in {
      "i", "me", "my", "myself", "we", "our", "ours", "ourselves", "you", "your", "yours",
      "yourself", "yourselves", "he", "him", "his", "himself", "she", "her", "hers", "herself",
      "it", "its", "itself", "they", "them", "their", "theirs", "themselves", "what", "which",
      "who", "whom", "this", "that", "these", "those", "am", "is", "are", "was", "were", "be",
      "been", "being", "have", "has", "had", "having", "do", "does", "did", "doing", "a", "an",
      "the", "and", "but", "if", "or", "because", "as", "until", "while", "of", "at", "by",
      "for", "with", "about", "against", "between", "into", "through", "during", "before",
      "after", "above", "below", "to", "from", "up", "down", "in", "out", "on", "off", "over",
      "under", "again", "further", "then", "once", "here", "there", "when", "where", "why",
      "how", "all", "any", "both", "each", "few", "more", "most", "other", "some", "such", "no",
      "nor", "not", "only", "own", "same", "so", "than", "too", "very", "s", "t", "can",
      "will", "just", "don", "should", "now"}
  }

  /** The stem of a token after cleaning. */
  function Stemmed(stem: string -> string, word: string): string
  {
    stem(Clean(word))
  }

  /** Cleaning then stemming, as one function of the token. */
  function Normaliser(stem: string -> string): string -> string
  {
    word => Stemmed(stem, word)
  }

  // The counting below is stated for any normaliser `norm` of tokens; `comic_to_terms`
  // uses `Normaliser(stem)`.

  /** A token is counted when its normal form is non-empty and not a stop word. */
  predicate Counted(norm: string -> string, word: string)
  {
    norm(word) != "" && !IsStopWord(norm(word))
  }

  /** The normal forms the first `n` tokens contribute, in token order. */
  function CountedPrefix(norm: string -> string, words: seq<string>, n: nat): (terms: seq<string>)
    requires n <= |words|
    ensures |terms| <= n
  {
    if n == 0 then []
    else
      CountedPrefix(norm, words, n - 1)
      + (if Counted(norm, words[n - 1]) then [norm(words[n - 1])] else [])
  }

  /** One more token adds its normal form when it is counted and nothing otherwise. */
  lemma CountedPrefixStep(norm: string -> string, words: seq<string>, n: nat)
    requires n < |words|
    ensures Counted(norm, words[n]) ==>
      CountedPrefix(norm, words, n + 1) == CountedPrefix(norm, words, n) + [norm(words[n])]
    ensures !Counted(norm, words[n]) ==> CountedPrefix(norm, words, n + 1) == CountedPrefix(norm, words, n)
  {
    assert CountedPrefix(norm, words, n) + [] == CountedPrefix(norm, words, n);
  }

  /** The histogram of the counted normal forms after one more token: the count of its
      normal form goes up by one when it is counted, and nothing changes otherwise. */
  lemma HistogramStep(norm: string -> string, words: seq<string>, n: nat, h: map<string, int>, count: int)
    requires n < |words|
    requires h == Histogram(CountedPrefix(norm, words, n))
    requires count == if norm(words[n]) in h then h[norm(words[n])] else 0
    ensures Counted(norm, words[n]) ==> Histogram(CountedPrefix(norm, words, n + 1)) == h[norm(words[n]) := count + 1]
    ensures !Counted(norm, words[n]) ==> Histogram(CountedPrefix(norm, words, n + 1)) == h
  {
    CountedPrefixStep(norm, words, n);
    if Counted(norm, words[n]) {
      HistogramAppend(CountedPrefix(norm, words, n), norm(words[n]), h, count);
    }
  }

  /** The normal forms all tokens contribute, in token order. */
  function CountedTerms(norm: string -> string, words: seq<string>): seq<string>
  {
    CountedPrefix(norm, words, |words|)
  }

  /** No counted normal form is empty or a stop word. */
  lemma {:induction false} CountedPrefixKept(norm: string -> string, words: seq<string>, n: nat)
    requires n <= |words|
    ensures forall t :: t in CountedPrefix(norm, words, n) ==> t != "" && !IsStopWord(t)
  {
    if n > 0 {
      CountedPrefixKept(norm, words, n - 1);
      CountedPrefixStep(norm, words, n - 1);
    }
  }

  /** The token normalises to the counted term `k`. */
  predicate NormalisesTo(norm: string -> string, word: string, k: string)
  {
    Counted(norm, word) && norm(word) == k
  }

  /** The positions among the first `n` tokens that normalise to the term `k`. */
  function Positions(norm: string -> string, words: seq<string>, n: nat, k: string): set<int>
    requires n <= |words|
  {
    set j | 0 <= j < n && NormalisesTo(norm, words[j], k)
  }

  /** The number of tokens among the first `n` that normalise to the term `k`. */
  function TokenCount(norm: string -> string, words: seq<string>, n: nat, k: string): nat
    requires n <= |words|
  {
    |Positions(norm, words, n, k)|
  }

  /** The number of times a term occurs among the counted normal forms is the number of tokens
      that normalise to it. */
  lemma {:induction false} CountedPrefixCount(norm: string -> string, words: seq<string>, n: nat, k: string)
    requires n <= |words|
    ensures multiset(CountedPrefix(norm, words, n))[k] == TokenCount(norm, words, n, k)
  {
    if n == 0 {
      TokenCountZero(norm, words, k);
    } else {
      CountedPrefixCount(norm, words, n - 1, k);
      CountMatchesStep(norm, words, n, k);
    }
  }

  /** Token `n - 1` adds one occurrence of `k` on both sides or on neither. */
  lemma CountMatchesStep(norm: string -> string, words: seq<string>, n: nat, k: string)
    requires 0 < n <= |words|
    requires multiset(CountedPrefix(norm, words, n - 1))[k] == TokenCount(norm, words, n - 1, k)
    ensures multiset(CountedPrefix(norm, words, n))[k] == TokenCount(norm, words, n, k)
  {
    var hit := NormalisesTo(norm, words[n - 1], k);
    IndexSetStep(norm, words, n, k, hit);
    CountedPrefixCountStep(norm, words, n, k, hit);
  }

  /** No token precedes the first. */
  lemma TokenCountZero(norm: string -> string, words: seq<string>, k: string)
    ensures TokenCount(norm, words, 0, k) == 0
  {
    CardinalityStep(Positions(norm, words, 0, k), {}, 0, false);
  }

  /** The occurrences of `k` grow by one exactly when the next token normalises to `k`. */
  lemma CountedPrefixCountStep(norm: string -> string, words: seq<string>, n: nat, k: string, hit: bool)
    requires 0 < n <= |words| && hit == NormalisesTo(norm, words[n - 1], k)
    ensures multiset(CountedPrefix(norm, words, n))[k] == multiset(CountedPrefix(norm, words, n - 1))[k] + (if hit then 1 else 0)
  {
    CountedPrefixStep(norm, words, n - 1);
    if Counted(norm, words[n - 1]) {
      MultisetAppend(CountedPrefix(norm, words, n - 1), norm(words[n - 1]), k);
    }
  }

  lemma MultisetAppend(ts: seq<string>, t: string, k: string)
    ensures multiset(ts + [t])[k] == multiset(ts)[k] + (if t == k then 1 else 0)
  {
    assert multiset(ts + [t]) == multiset(ts) + multiset{t};
  }

  lemma IndexSetStep(norm: string -> string, words: seq<string>, n: nat, k: string, hit: bool)
    requires 0 < n <= |words| && hit == NormalisesTo(norm, words[n - 1], k)
    ensures TokenCount(norm, words, n, k) == TokenCount(norm, words, n - 1, k) + (if hit then 1 else 0)
  {
    var before := Positions(norm, words, n - 1, k);
    var after := Positions(norm, words, n, k);
    forall j ensures j in after <==> j in before || (hit && j == n - 1) {
    }
    CardinalityStep(after, before, n - 1, hit);
  }

  /** Adding at most one new element to a set adds at most one to its size. */
  lemma CardinalityStep(after: set<int>, before: set<int>, x: int, hit: bool)
    requires forall j :: j in after <==> j in before || (hit && j == x)
    requires x !in before
    ensures |after| == |before| + (if hit then 1 else 0)
  {
    var grown := if hit then before + {x} else before;
    forall j ensures j in after <==> j in grown {
    }
    assert after == grown;
  }

  // ---------------------------------------------------------------------------
  // Histograms

  /** The counts of `ts`, added up one occurrence at a time: the first occurrence of a term
      enters it with count 1, each later one adds 1. */
  function Histogram(ts: seq<string>): map<string, int>
  {
    if ts == [] then map[]
    else
      var h := Histogram(ts[..|ts| - 1]);
      var t := ts[|ts| - 1];
      h[t := (if t in h then h[t] else 0) + 1]
  }

  lemma HistogramAppend(ts: seq<string>, t: string, h: map<string, int>, count: int)
    requires h == Histogram(ts)
    requires count == if t in h then h[t] else 0
    ensures Histogram(ts + [t]) == h[t := count + 1]
  {
    assert (ts + [t])[..|ts|] == ts;
  }

  /** The keys of a histogram are the distinct terms, each mapped to its number of
      occurrences, which is at least one. */
  lemma {:induction false} HistogramCounts(ts: seq<string>)
    ensures forall k :: k in Histogram(ts) <==> k in ts
    ensures forall k :: k in Histogram(ts) ==> Histogram(ts)[k] == multiset(ts)[k] >= 1
  {
    if ts != [] {
      var n := |ts| - 1;
      var prefix := ts[..n];
      HistogramCounts(prefix);
      assert ts == prefix + [ts[n]];
      assert multiset(ts) == multiset(prefix) + multiset{ts[n]};
      forall k ensures k in ts <==> k in prefix || k == ts[n] {
      }
    }
  }

  /** The sum of the values of a map. */
  ghost function MapSum(m: map<string, int>): int
    decreases |m|
  {
    if m == map[] then 0
    else
      var k :| k in m;
      assert |(m - {k}).Keys| < |m.Keys| by { assert (m - {k}).Keys == m.Keys - {k}; }
      m[k] + MapSum(m - {k})
  }

  /** The sum does not depend on which key is taken first. */
  lemma {:induction false} MapSumRemove(m: map<string, int>, k: string)
    requires k in m
    ensures MapSum(m) == m[k] + MapSum(m - {k})
    decreases |m|
  {
    var j :| j in m && MapSum(m) == m[j] + MapSum(m - {j});
    if j != k {
      assert (m - {j}).Keys == m.Keys - {j};
      assert (m - {k}).Keys == m.Keys - {k};
      MapSumRemove(m - {j}, k);
      MapSumRemove(m - {k}, j);
      assert m - {j} - {k} == m - {k} - {j};
    }
  }

  lemma MapSumUpdate(m: map<string, int>, k: string, v: int)
    ensures MapSum(m[k := v]) == MapSum(m) - (if k in m then m[k] else 0) + v
  {
    MapSumRemove(m[k := v], k);
    assert m[k := v] - {k} == m - {k};
    if k in m {
      MapSumRemove(m, k);
    } else {
      assert m - {k} == m;
    }
  }

  /** The counts of a histogram add up to the number of occurrences. */
  lemma {:induction false} HistogramSum(ts: seq<string>)
    ensures MapSum(Histogram(ts)) == |ts|
  {
    if ts == [] {
      assert Histogram(ts) == map[];
    } else {
      var n := |ts| - 1;
      assert ts == ts[..n] + [ts[n]];
      HistogramSum(ts[..n]);
      var h := Histogram(ts[..n]);
      var count := if ts[n] in h then h[ts[n]] else 0;
      HistogramAppend(ts[..n], ts[n], h, count);
      MapSumUpdate(h, ts[n], count + 1);
    }
  }
}
