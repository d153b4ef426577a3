/**
 Steps 1-4 of vocabulary construction: count every token of every caption
 in one corpus-wide counter, keep the words that reach the frequency
 threshold, order them most frequent first, and cut the list at the
 maximum size.

 Equal counts are ordered by ascending code-point (lexicographic) order of
 the word; with this tie-break the order is total, so the kept list is a
 function of the corpus, the threshold and the cap alone.
 */
module Counting {
  import opened Wrappers
  import opened Tokenizer

  type Counter = map<string, nat>

  /** The count of `w`, zero for a word never seen (as `Counter` answers). */
  function Freq(counts: Counter, w: string): nat
  {
    if w in counts then counts[w] else 0
  }

  /** One more occurrence of `w`. */
  function Bump(counts: Counter, w: string): (r: Counter)
    ensures r.Keys == counts.Keys + {w}
    ensures Freq(r, w) == Freq(counts, w) + 1
    ensures forall v :: v != w ==> Freq(r, v) == Freq(counts, v)
  {
    counts[w := Freq(counts, w) + 1]
  }

  /** The counter after seeing `toks` in order (`Counter.update`). */
  function Tally(counts: Counter, toks: seq<string>): Counter
    decreases |toks|
  {
    if toks == [] then counts else Bump(Tally(counts, toks[..|toks| - 1]), toks[|toks| - 1])
  }

  /** The tokens of every caption, caption after caption. */
  function CorpusTokens(captions: seq<string>): seq<string>
    decreases |captions|
  {
    if captions == [] then []
    else CorpusTokens(captions[..|captions| - 1]) + Tokenize(captions[|captions| - 1])
  }

  /** The corpus holds normalised tokens only. */
  lemma {:induction false} CorpusTokensAreTokens(captions: seq<string>)
    ensures forall t :: t in CorpusTokens(captions) ==> IsToken(t)
    decreases |captions|
  {
    if captions != [] {
      CorpusTokensAreTokens(captions[..|captions| - 1]);
    }
  }

  /** The corpus-wide counter of steps 1 and 2. */
  function Counts(captions: seq<string>): Counter
  {
    Tally(map[], CorpusTokens(captions))
  }

  /** Seeing `a` and then `b` is seeing `a + b`. */
  lemma {:induction false} TallyAppend(counts: Counter, a: seq<string>, b: seq<string>)
    ensures Tally(counts, a + b) == Tally(Tally(counts, a), b)
    decreases |b|
  {
    if b == [] {
      assert a + b == a;
    } else {
      var b' := b[..|b| - 1];
      assert (a + b)[..|a + b| - 1] == a + b';
      assert (a + b)[|a + b| - 1] == b[|b| - 1];
      TallyAppend(counts, a, b');
    }
  }

  /** The counter knows exactly the words seen, each with the number of its
      occurrences added to what it held before. */
  lemma {:induction false} TallyCounts(counts: Counter, toks: seq<string>)
    ensures forall w :: w in Tally(counts, toks) <==> w in counts || w in toks
    ensures forall w :: Freq(Tally(counts, toks), w) == Freq(counts, w) + multiset(toks)[w]
    decreases |toks|
  {
    if toks != [] {
      var init := toks[..|toks| - 1];
      var last := toks[|toks| - 1];
      TallyCounts(counts, init);
      assert toks == init + [last];
      assert multiset(toks) == multiset(init) + multiset{last};
      forall w ensures w in toks <==> w in init || w == last { }
    }
  }

  /** The corpus counter holds exactly the words of the tokenized corpus, each
      with its number of occurrences across all captions. */
  lemma CountsAreOccurrences(captions: seq<string>)
    ensures forall w :: w in Counts(captions) <==> w in CorpusTokens(captions)
    ensures forall w :: Freq(Counts(captions), w) == multiset(CorpusTokens(captions))[w]
  {
    TallyCounts(map[], CorpusTokens(captions));
  }

  /** Every counted word is a normalised token seen at least once. */
  lemma CountedWords(captions: seq<string>)
    ensures forall w :: w in Counts(captions) ==> IsToken(w) && Counts(captions)[w] >= 1
  {
    CountsAreOccurrences(captions);
    CorpusTokensAreTokens(captions);
    var toks := CorpusTokens(captions);
    forall w | w in Counts(captions) ensures IsToken(w) && Counts(captions)[w] >= 1 {
      assert w in toks;
      assert multiset(toks)[w] >= 1;
      assert Freq(Counts(captions), w) == Counts(captions)[w];
    }
  }

  /** Step 2 for one caption: `Counter.update(tokens)` as a loop. */
  method CountTokens(counts: Counter, toks: seq<string>) returns (r: Counter)
    ensures r == Tally(counts, toks)
  {
    r := counts;
    var j := 0;
    while j < |toks|
      invariant 0 <= j <= |toks|
      invariant r == Tally(counts, toks[..j])
    {
      assert toks[..j + 1][..j] == toks[..j];
      r := Bump(r, toks[j]);
      j := j + 1;
    }
    assert toks[..j] == toks;
  }

  /** One more caption adds its tokens at the end of the corpus. */
  lemma CorpusTokensSnoc(captions: seq<string>, i: nat)
    requires i < |captions|
    ensures CorpusTokens(captions[..i + 1]) == CorpusTokens(captions[..i]) + Tokenize(captions[i])
  {
    assert captions[..i + 1][..i] == captions[..i];
  }

  /** Steps 1 and 2: one counter for the whole corpus, caption by caption. */
  /** Counting one more caption continues the counter of the ones before. */
  lemma CountsSnoc(captions: seq<string>, i: nat)
    requires i < |captions|
    ensures Counts(captions[..i + 1]) == Tally(Counts(captions[..i]), Tokenize(captions[i]))
  {
    CorpusTokensSnoc(captions, i);
    TallyAppend(map[], CorpusTokens(captions[..i]), Tokenize(captions[i]));
  }

  method CountWords(captions: seq<string>) returns (counts: Counter)
    ensures counts == Counts(captions)
  {
    counts := map[];
    var i := 0;
    while i < |captions|
      invariant 0 <= i <= |captions|
      invariant counts == Counts(captions[..i])
    {
      var toks := Tokenize(captions[i]);
      counts := CountTokens(counts, toks);
      CountsSnoc(captions, i);
      i := i + 1;
    }
    assert captions[..i] == captions;
  }

  /** Python's string order: code point by code point, a proper prefix first. */
  predicate LexLess(a: string, b: string)
  {
    if a == [] then b != []
    else b != [] && (a[0] < b[0] || (a[0] == b[0] && LexLess(a[1..], b[1..])))
  }

  lemma {:induction false} LexIrreflexive(a: string)
    ensures !LexLess(a, a)
  {
    if a != [] {
      LexIrreflexive(a[1..]);
    }
  }

  lemma {:induction false} LexTransitive(a: string, b: string, c: string)
    requires LexLess(a, b) && LexLess(b, c)
    ensures LexLess(a, c)
  {
    if a != [] && a[0] == b[0] && b[0] == c[0] {
      LexTransitive(a[1..], b[1..], c[1..]);
    }
  }

  lemma {:induction false} LexTotal(a: string, b: string)
    requires a != b
    ensures LexLess(a, b) || LexLess(b, a)
  {
    if a != [] && b != [] && a[0] == b[0] {
      assert a == [a[0]] + a[1..] && b == [b[0]] + b[1..];
      LexTotal(a[1..], b[1..]);
    }
  }

  /** `a` is ranked ahead of `b`: more frequent, or equally frequent and
      lexicographically smaller. */
  predicate Before(counts: Counter, a: string, b: string)
  {
    Freq(counts, a) > Freq(counts, b) || (Freq(counts, a) == Freq(counts, b) && LexLess(a, b))
  }

  /** `Before` is a strict total order on words. */
  lemma BeforeOrder(counts: Counter)
    ensures forall a :: !Before(counts, a, a)
    ensures forall a, b, c :: Before(counts, a, b) && Before(counts, b, c) ==> Before(counts, a, c)
    ensures forall a, b :: a != b ==> Before(counts, a, b) || Before(counts, b, a)
  {
    forall a ensures !Before(counts, a, a) { LexIrreflexive(a); }
    forall a, b, c | Before(counts, a, b) && Before(counts, b, c) ensures Before(counts, a, c) {
      if LexLess(a, b) && LexLess(b, c) { LexTransitive(a, b, c); }
    }
    forall a, b | a != b ensures Before(counts, a, b) || Before(counts, b, a) { LexTotal(a, b); }
  }

  /** Every word is ranked ahead of every later word. */
  ghost predicate Ranked(counts: Counter, s: seq<string>)
  {
    forall i, j :: 0 <= i < j < |s| ==> Before(counts, s[i], s[j])
  }

  /** Insert `w` into a ranked list at its place. */
  function Insert(counts: Counter, w: string, s: seq<string>): (r: seq<string>)
    ensures |r| == |s| + 1
    ensures forall v :: v in r <==> v == w || v in s
  {
    if s == [] then [w]
    else if Before(counts, w, s[0]) then [w] + s
    else [s[0]] + Insert(counts, w, s[1..])
  }

  lemma {:induction false} InsertRanked(counts: Counter, w: string, s: seq<string>)
    requires Ranked(counts, s) && w !in s
    ensures Ranked(counts, Insert(counts, w, s))
    decreases |s|
  {
    BeforeOrder(counts);
    if s != [] && !Before(counts, w, s[0]) {
      assert s[0] in s;
      assert Before(counts, s[0], w);
      InsertRanked(counts, w, s[1..]);
      var r := Insert(counts, w, s);
      var tail := Insert(counts, w, s[1..]);
      assert r == [s[0]] + tail;
      forall j | 0 < j < |r| ensures Before(counts, r[0], r[j]) {
        assert r[j] in tail;
      }
    }
  }

  /** A ranked list never repeats a word. */
  lemma RankedDistinct(counts: Counter, s: seq<string>, i: int, j: int)
    requires Ranked(counts, s) && 0 <= i < j < |s|
    ensures s[i] != s[j]
  {
    BeforeOrder(counts);
  }

  /** The head of a ranked list is ranked ahead of everything else in it. */
  lemma RankedHead(counts: Counter, s: seq<string>, x: string)
    requires Ranked(counts, s) && x in s
    ensures x == s[0] || Before(counts, s[0], x)
  {
  }

  /** The only ranked listing of a set of words: two ranked lists holding the
      same words are equal. */
  lemma {:induction false} RankedUnique(counts: Counter, a: seq<string>, b: seq<string>)
    requires Ranked(counts, a) && Ranked(counts, b)
    requires forall x :: x in a <==> x in b
    ensures a == b
    decreases |a|
  {
    BeforeOrder(counts);
    if a != [] { assert a[0] in a; }
    if b != [] { assert b[0] in b; }
    if a != [] {
      RankedHead(counts, a, b[0]);
      RankedHead(counts, b, a[0]);
      assert a[0] == b[0];
      forall x ensures x in a[1..] <==> x in b[1..] {
        if x in a[1..] {
          var k :| 1 <= k < |a| && a[k] == x;
          RankedDistinct(counts, a, 0, k);
          assert x in b && x != b[0];
        }
        if x in b[1..] {
          var k :| 1 <= k < |b| && b[k] == x;
          RankedDistinct(counts, b, 0, k);
          assert x in a && x != a[0];
        }
      }
      RankedUnique(counts, a[1..], b[1..]);
      assert a == [a[0]] + a[1..] && b == [b[0]] + b[1..];
    }
  }

  /** A ranked listing of the words in `s` (which one is immaterial, since
      there is only one). */
  ghost function RankSet(counts: Counter, s: set<string>): (r: seq<string>)
    ensures Ranked(counts, r)
    ensures forall v :: v in r <==> v in s
    decreases s
  {
    if s == {} then []
    else
      var w :| w in s;
      var rest := RankSet(counts, s - {w});
      InsertRanked(counts, w, rest);
      Insert(counts, w, rest)
  }

  /** The words admitted by the frequency threshold (inclusive). */
  ghost function Candidates(counts: Counter, threshold: int): set<string>
  {
    set w | w in counts && counts[w] >= threshold
  }

  /** Steps 3 and 4 before the cap: the admitted words, most frequent first. */
  ghost function Ranking(counts: Counter, threshold: int): (r: seq<string>)
    ensures Ranked(counts, r)
    ensures forall w :: w in r <==> w in counts && counts[w] >= threshold
  {
    RankSet(counts, Candidates(counts, threshold))
  }

  /** The source's `[:max_size]`: keep the first `max_size` entries, or all
      of them when there is no cap. */
  function Cap(s: seq<string>, maxSize: Option<nat>): (r: seq<string>)
    ensures maxSize.Some? ==> |r| <= maxSize.value
    ensures |r| <= |s| && r == s[..|r|]
    ensures maxSize.None? || |s| <= maxSize.value ==> r == s
    ensures maxSize.Some? && maxSize.value < |s| ==> |r| == maxSize.value
  {
    if maxSize.Some? && maxSize.value < |s| then s[..maxSize.value] else s
  }

  /** The words step 5 enters, in the order it enters them. */
  ghost function Kept(counts: Counter, threshold: int, maxSize: Option<nat>): seq<string>
  {
    Cap(Ranking(counts, threshold), maxSize)
  }

  /** Steps 3 and 4 (before the cap) as a loop over the counter's words, each
      admitted word inserted at its rank. */
  method RankCandidates(counts: Counter, threshold: int) returns (ranked: seq<string>)
    ensures ranked == Ranking(counts, threshold)
  {
    ranked := [];
    var pending := counts.Keys;
    while pending != {}
      invariant pending <= counts.Keys
      invariant Ranked(counts, ranked)
      invariant forall w :: w in ranked <==> w in counts && w !in pending && counts[w] >= threshold
      decreases pending
    {
      var w :| w in pending;
      if counts[w] >= threshold {
        InsertRanked(counts, w, ranked);
        ranked := Insert(counts, w, ranked);
      }
      pending := pending - {w};
    }
    RankedUnique(counts, ranked, Ranking(counts, threshold));
  }
}
