/**
 The `Vocabulary` object: its two mirrored maps and its next free index are
 fields updated in place by `build_vocabulary`; the frequency threshold and
 the size cap are fixed when the object is made.
 */
module Vocab {
  import opened Wrappers
  import opened Tokenizer
  import opened Table
  import opened Counting

  /** What `build_vocabulary` does to the maps: the words kept from the
      corpus, most frequent first, are entered one after another. */
  ghost function Built(t: Table, captions: seq<string>, threshold: int, maxSize: Option<nat>): Table
  {
    AddWords(t, Kept(Counts(captions), threshold, maxSize))
  }

  class Vocabulary {
    var word2idx: map<string, int>
    var idx2word: map<int, string>
    var idx: int
    var freqThreshold: int
    var maxSize: Option<nat>

    /** The maps and the next free index, as one value. */
    function Mappings(): Table
      reads this
    {
      Table(word2idx, idx2word, idx)
    }

    ghost predicate Valid()
      reads this
    {
      Consistent(Mappings())
    }

    /** A fresh vocabulary holds the four specials under ids 0-3 and hands
        out id 4 next. */
    constructor (freqThreshold: int := 5, maxSize: Option<nat> := None)
      ensures Valid()
      ensures Mappings() == Initial()
      ensures idx == FirstWordId && |word2idx| == 4
      ensures this.freqThreshold == freqThreshold && this.maxSize == maxSize
    {
      var t := Initial();
      word2idx := t.word2idx;
      idx2word := t.idx2word;
      idx := t.next;
      this.freqThreshold := freqThreshold;
      this.maxSize := maxSize;
    }

    /** `__len__`: the number of words, which is also the next free index. */
    function Length(): (n: nat)
      reads this
      requires Valid()
      ensures n == idx && n >= FirstWordId
    {
      |word2idx|
    }

    /** `build_vocabulary`: count the corpus, rank the words that reach the
        threshold, keep at most `maxSize` of them, and enter each one not
        yet present under the next free index. */
    method BuildVocabulary(captions: seq<string>)
      requires Valid()
      modifies this
      ensures Valid()
      ensures Mappings() == Built(old(Mappings()), captions, freqThreshold, maxSize)
      ensures freqThreshold == old(freqThreshold) && maxSize == old(maxSize)
    {
      var counts := CountWords(captions);
      var ranked := RankCandidates(counts, freqThreshold);
      var kept := Cap(ranked, maxSize);
      ghost var start := Mappings();
      EnterWords(kept);
      AddWordsConsistent(start, kept);
    }

    /** Step 5 of `build_vocabulary`: each word not yet present takes the
        next free index on both sides; a word already present is skipped. */
    method EnterWords(ws: seq<string>)
      modifies this
      ensures Mappings() == AddWords(old(Mappings()), ws)
      ensures freqThreshold == old(freqThreshold) && maxSize == old(maxSize)
    {
      ghost var start := Mappings();
      var k := 0;
      while k < |ws|
        invariant 0 <= k <= |ws|
        invariant Mappings() == AddWords(start, ws[..k])
        invariant freqThreshold == old(freqThreshold) && maxSize == old(maxSize)
      {
        var w := ws[k];
        assert ws[..k + 1][..k] == ws[..k];
        if w !in word2idx {
          word2idx := word2idx[w := idx];
          idx2word := idx2word[idx := w];
          idx := idx + 1;
        }
        k := k + 1;
      }
      assert ws[..k] == ws;
    }
  }

  /** Building keeps the vocabulary consistent and keeps every word and every
      id it already had, the specials included. */
  lemma BuildPreserves(t: Table, captions: seq<string>, threshold: int, maxSize: Option<nat>)
    requires Consistent(t)
    ensures Consistent(Built(t, captions, threshold, maxSize))
    ensures forall i :: i in t.idx2word ==>
              i in Built(t, captions, threshold, maxSize).idx2word &&
              Built(t, captions, threshold, maxSize).idx2word[i] == t.idx2word[i]
    ensures forall w :: w in t.word2idx ==>
              w in Built(t, captions, threshold, maxSize).word2idx &&
              Built(t, captions, threshold, maxSize).word2idx[w] == t.word2idx[w]
  {
    var kept := Kept(Counts(captions), threshold, maxSize);
    AddWordsConsistent(t, kept);
    AddWordsKeeps(t, kept);
  }

  /** A word that building brings in reached the threshold in the corpus. */
  lemma BuildAdmits(t: Table, captions: seq<string>, threshold: int, maxSize: Option<nat>)
    ensures forall w :: w in Built(t, captions, threshold, maxSize).word2idx ==>
              w in t.word2idx || (w in Counts(captions) && Counts(captions)[w] >= threshold)
  {
    var counts := Counts(captions);
    var ranked := Ranking(counts, threshold);
    var kept := Kept(counts, threshold, maxSize);
    AddWordsKeeps(t, kept);
    assert forall w :: w in kept ==> w in ranked by {
      assert kept == ranked[..|kept|];
    }
  }

  /** Building adds at most `maxSize` words. */
  lemma BuildBound(t: Table, captions: seq<string>, threshold: int, maxSize: Option<nat>)
    requires Consistent(t) && maxSize.Some?
    ensures |Built(t, captions, threshold, maxSize).word2idx| <= |t.word2idx| + maxSize.value
  {
    AddWordsConsistent(t, Kept(Counts(captions), threshold, maxSize));
  }

  /** Without a cap, building brings in exactly the words that reach the
      threshold. */
  lemma BuildUncapped(t: Table, captions: seq<string>, threshold: int)
    ensures forall w :: w in Built(t, captions, threshold, None).word2idx <==>
              w in t.word2idx || (w in Counts(captions) && Counts(captions)[w] >= threshold)
  {
    BuildAdmits(t, captions, threshold, None);
    AddWordsKeeps(t, Kept(Counts(captions), threshold, None));
  }

  /** Under a cap, the words that reach the threshold but are left out rank
      after every word that is kept: fewer occurrences, or as many and later
      in code-point order. */
  lemma BuildTopRanked(captions: seq<string>, threshold: int, maxSize: Option<nat>, w: string, v: string)
    requires w in Counts(captions) && Counts(captions)[w] >= threshold
    requires w !in Kept(Counts(captions), threshold, maxSize)
    requires v in Kept(Counts(captions), threshold, maxSize)
    ensures Before(Counts(captions), v, w)
  {
    var counts := Counts(captions);
    var ranked := Ranking(counts, threshold);
    var kept := Kept(counts, threshold, maxSize);
    assert kept == ranked[..|kept|];
    var i :| 0 <= i < |kept| && kept[i] == v;
    var j :| 0 <= j < |ranked| && ranked[j] == w;
    PrefixHas(ranked, |kept|, j);
    assert ranked[i] == v;
  }

  lemma PrefixHas(s: seq<string>, n: nat, j: nat)
    requires n <= |s| && j < |s|
    ensures j < n ==> s[j] in s[..n]
  {
    if j < n {
      assert s[..n][j] == s[j];
    }
  }

  /** The kept words are all distinct and none of them is a special. */
  lemma KeptAllNew(captions: seq<string>, threshold: int, maxSize: Option<nat>)
    ensures AllNew(Initial().word2idx, Kept(Counts(captions), threshold, maxSize))
  {
    var counts := Counts(captions);
    var ranked := Ranking(counts, threshold);
    var kept := Kept(counts, threshold, maxSize);
    assert kept == ranked[..|kept|];
    forall i, j | 0 <= i < j < |kept| ensures kept[i] != kept[j] {
      RankedDistinct(counts, ranked, i, j);
    }
    CountedWords(captions);
    forall w | w in kept ensures w !in Initial().word2idx {
      assert w in ranked;
      TokenNotSpecial(w);
    }
    AllNewIntro(Initial().word2idx, kept);
  }

  /** On a fresh vocabulary, the kept words take ids 4, 5, ... in rank order,
      and the vocabulary grows by exactly their number. */
  lemma BuildFresh(captions: seq<string>, threshold: int, maxSize: Option<nat>)
    ensures LaidOut(Built(Initial(), captions, threshold, maxSize),
                    Kept(Counts(captions), threshold, maxSize), FirstWordId)
  {
    var kept := Kept(Counts(captions), threshold, maxSize);
    assert Built(Initial(), captions, threshold, maxSize) == AddWords(Initial(), kept);
    KeptAllNew(captions, threshold, maxSize);
    FreshIds(kept);
  }

  /** Distinct non-special words entered into a fresh vocabulary take the
      ids 4, 5, ... in order. */
  lemma FreshIds(kept: seq<string>)
    requires AllNew(Initial().word2idx, kept)
    ensures LaidOut(AddWords(Initial(), kept), kept, FirstWordId)
  {
    AddFreshAll(Initial(), kept);
  }

  /** Entering words that are all present already changes nothing. */
  lemma {:induction false} AddKnownWords(t: Table, ws: seq<string>)
    requires forall w :: w in ws ==> w in t.word2idx
    ensures AddWords(t, ws) == t
    decreases |ws|
  {
    if ws != [] {
      var n := |ws| - 1;
      assert ws[n] in ws;
      assert forall w :: w in ws[..n] ==> w in ws;
      AddKnownWords(t, ws[..n]);
    }
  }

  /** Building again from the same corpus, with the same settings, changes
      nothing. */
  lemma BuildTwice(t: Table, captions: seq<string>, threshold: int, maxSize: Option<nat>)
    ensures Built(Built(t, captions, threshold, maxSize), captions, threshold, maxSize) ==
      Built(t, captions, threshold, maxSize)
  {
    var kept := Kept(Counts(captions), threshold, maxSize);
    AddWordsKeeps(t, kept);
    AddKnownWords(AddWords(t, kept), kept);
  }
}
