/**
 The two mirrored dictionaries of a vocabulary (`word2idx`, `idx2word`) and
 its next free index, as one value, together with the invariant they keep:
 the maps are exact inverses, ids run densely from 0 up to the next free
 index, and ids 0-3 hold the four special tokens.
 */
module Table {
  import opened Tokenizer

  const PadToken: string := "<PAD>"
  const StartToken: string := "<START>"
  const EndToken: string := "<END>"
  const UnkToken: string := "<UNK>"

  const PadId: int := 0
  const StartId: int := 1
  const EndId: int := 2
  const UnkId: int := 3

  /** The first id handed out to a corpus word. */
  const FirstWordId: int := 4

  predicate IsSpecial(w: string)
  {
    w == PadToken || w == StartToken || w == EndToken || w == UnkToken
  }

  datatype Table = Table(word2idx: map<string, int>, idx2word: map<int, string>, next: int)

  /** Each map undoes the other. */
  ghost predicate Inverse(word2idx: map<string, int>, idx2word: map<int, string>)
  {
    && (forall w :: w in word2idx ==> word2idx[w] in idx2word && idx2word[word2idx[w]] == w)
    && (forall i :: i in idx2word ==> idx2word[i] in word2idx && word2idx[idx2word[i]] == i)
  }

  /** The specials hold their fixed ids. */
  ghost predicate SpecialsReserved(idx2word: map<int, string>)
  {
    && PadId in idx2word && idx2word[PadId] == PadToken
    && StartId in idx2word && idx2word[StartId] == StartToken
    && EndId in idx2word && idx2word[EndId] == EndToken
    && UnkId in idx2word && idx2word[UnkId] == UnkToken
  }

  /** The invariant of every vocabulary. */
  ghost predicate Consistent(t: Table)
  {
    && FirstWordId <= t.next
    && Inverse(t.word2idx, t.idx2word)
    && SpecialsReserved(t.idx2word)
    && (forall i :: i in t.idx2word <==> 0 <= i < t.next)
    && |t.word2idx| == t.next
  }

  /** The four special tokens are distinct. */
  lemma SpecialsDistinct()
    ensures PadToken != StartToken && PadToken != EndToken && PadToken != UnkToken
    ensures StartToken != EndToken && StartToken != UnkToken && EndToken != UnkToken
  {
    assert PadToken[1] == 'P' && StartToken[1] == 'S' && EndToken[1] == 'E' && UnkToken[1] == 'U';
  }

  /** A normalised token is never one of the four specials: each special
      contains `<`, which tokenization deletes. */
  lemma TokenNotSpecial(w: string)
    requires IsToken(w)
    ensures !IsSpecial(w)
  {
    assert IsPunct('<');
    assert PadToken[0] == '<' && StartToken[0] == '<' && EndToken[0] == '<' && UnkToken[0] == '<';
    if w != [] {
      assert w[0] in w;
    }
  }

  const InitialWord2Idx: map<string, int> :=
    map[PadToken := PadId, StartToken := StartId, EndToken := EndId, UnkToken := UnkId]
  const InitialIdx2Word: map<int, string> :=
    map[PadId := PadToken, StartId := StartToken, EndId := EndToken, UnkId := UnkToken]

  lemma InitialInverse()
    ensures Inverse(InitialWord2Idx, InitialIdx2Word)
  {
    SpecialsDistinct();
    var w2i, i2w := InitialWord2Idx, InitialIdx2Word;
    assert forall w :: w in w2i ==> w2i[w] in i2w && i2w[w2i[w]] == w;
    assert forall i :: i in i2w ==> i2w[i] in w2i && w2i[i2w[i]] == i;
  }

  lemma InitialDomains()
    ensures forall i :: i in InitialIdx2Word <==> 0 <= i < FirstWordId
    ensures forall w :: w in InitialWord2Idx <==> IsSpecial(w)
    ensures SpecialsReserved(InitialIdx2Word)
  {
  }

  lemma InitialSize()
    ensures |InitialWord2Idx| == FirstWordId
  {
    SpecialsDistinct();
  }

  /** The state of a freshly initialised vocabulary. */
  function Initial(): (t: Table)
    ensures Consistent(t)
    ensures forall w :: w in t.word2idx <==> IsSpecial(w)
    ensures PadToken in t.word2idx && t.word2idx[PadToken] == PadId
    ensures StartToken in t.word2idx && t.word2idx[StartToken] == StartId
    ensures EndToken in t.word2idx && t.word2idx[EndToken] == EndId
    ensures UnkToken in t.word2idx && t.word2idx[UnkToken] == UnkId
    ensures t.next == FirstWordId
  {
    InitialInverse();
    InitialDomains();
    InitialSize();
    Table(InitialWord2Idx, InitialIdx2Word, FirstWordId)
  }

  /** Entering one word: a word already present is left alone, a new word
      takes the next free id on both sides. */
  function AddWord(t: Table, w: string): (r: Table)
    ensures w in r.word2idx && r.next >= t.next
    ensures w in t.word2idx ==> r == t
    ensures forall i :: i in t.idx2word ==> i in r.idx2word
    ensures w !in t.word2idx ==>
              r.next == t.next + 1 && r.word2idx[w] == t.next && t.next in r.idx2word && r.idx2word[t.next] == w
    ensures forall v :: v in t.word2idx ==> v in r.word2idx && r.word2idx[v] == t.word2idx[v]
    ensures forall v :: v in r.word2idx ==> v in t.word2idx || v == w
  {
    if w in t.word2idx then t
    else Table(t.word2idx[w := t.next], t.idx2word[t.next := w], t.next + 1)
  }

  /** Entering words one after another, in the order given. */
  function AddWords(t: Table, ws: seq<string>): (r: Table)
    ensures t.next <= r.next <= t.next + |ws|
    decreases |ws|
  {
    if ws == [] then t
    else AddWord(AddWords(t, ws[..|ws| - 1]), ws[|ws| - 1])
  }

  /** Entering words keeps every word already present with its id, makes every
      entered word present, and brings in no other word. */
  lemma {:induction false} AddWordsKeeps(t: Table, ws: seq<string>)
    ensures forall w :: w in ws ==> w in AddWords(t, ws).word2idx
    ensures forall v :: v in t.word2idx ==> v in AddWords(t, ws).word2idx && AddWords(t, ws).word2idx[v] == t.word2idx[v]
    ensures forall v :: v in AddWords(t, ws).word2idx ==> v in t.word2idx || v in ws
    ensures forall i :: (i in t.idx2word || t.next <= i < AddWords(t, ws).next) ==> i in AddWords(t, ws).idx2word
    decreases |ws|
  {
    if ws != [] {
      var n := |ws| - 1;
      AddWordsKeeps(t, ws[..n]);
      assert forall w :: w in ws <==> w in ws[..n] || w == ws[n] by {
        assert ws == ws[..n] + [ws[n]];
      }
    }
  }

  /** Entering a word keeps the table consistent, and keeps every id that was
      already assigned. */
  lemma AddWordConsistent(t: Table, w: string)
    requires Consistent(t)
    ensures Consistent(AddWord(t, w))
    ensures forall i :: i in t.idx2word ==> i in AddWord(t, w).idx2word && AddWord(t, w).idx2word[i] == t.idx2word[i]
  {
  }

  /** Growing the table word by word keeps it consistent: the maps stay
      inverse, the ids stay dense, and the special ids keep their tokens. */
  lemma {:induction false} AddWordsConsistent(t: Table, ws: seq<string>)
    requires Consistent(t)
    ensures Consistent(AddWords(t, ws))
    ensures forall i :: i in t.idx2word ==> i in AddWords(t, ws).idx2word && AddWords(t, ws).idx2word[i] == t.idx2word[i]
    decreases |ws|
  {
    if ws != [] {
      AddWordsConsistent(t, ws[..|ws| - 1]);
      AddWordConsistent(AddWords(t, ws[..|ws| - 1]), ws[|ws| - 1]);
    }
  }

  /** No word occurs twice in `ws`. */
  predicate Distinct(ws: seq<string>)
  {
    forall i, j :: 0 <= i < j < |ws| ==> ws[i] != ws[j]
  }

  /** Each word of `ws` is missing from `known` and from the words before
      it: entering them one by one adds a new word every time. */
  predicate AllNew(known: map<string, int>, ws: seq<string>)
    decreases |ws|
  {
    ws == [] ||
    (var n := |ws| - 1; ws[n] !in known && ws[n] !in ws[..n] && AllNew(known, ws[..n]))
  }

  lemma {:induction false} AllNewIntro(known: map<string, int>, ws: seq<string>)
    requires Distinct(ws)
    requires forall w :: w in ws ==> w !in known
    ensures AllNew(known, ws)
    decreases |ws|
  {
    if ws != [] {
      var n := |ws| - 1;
      var init := ws[..n];
      assert ws[n] in ws;
      forall j | 0 <= j < n ensures init[j] != ws[n] { }
      assert forall w :: w in init ==> w in ws;
      AllNewIntro(known, init);
    }
  }

  /** Each new word takes one new id. */
  lemma {:induction false} AddFreshNext(t: Table, ws: seq<string>)
    requires AllNew(t.word2idx, ws)
    ensures AddWords(t, ws).next == t.next + |ws|
    decreases |ws|
  {
    if ws != [] {
      var n := |ws| - 1;
      AddFreshNext(t, ws[..n]);
      AddWordsKeeps(t, ws[..n]);
    }
  }

  /** New words receive consecutive ids from the next free index, in the
      order given: the word at position k gets id `next + k`. */
  lemma {:induction false} AddFreshWordId(t: Table, ws: seq<string>, k: nat)
    requires AllNew(t.word2idx, ws)
    requires k < |ws|
    ensures ws[k] in AddWords(t, ws).word2idx && AddWords(t, ws).word2idx[ws[k]] == t.next + k
    decreases |ws|
  {
    var n := |ws| - 1;
    var init := ws[..n];
    AddFreshNext(t, init);
    AddWordsKeeps(t, init);
    if k < n {
      AddFreshWordId(t, init, k);
      assert init[k] == ws[k];
    }
  }

  /** The id `next + k` names the word at position k of the new words. */
  lemma {:induction false} AddFreshIdWord(t: Table, ws: seq<string>, k: nat)
    requires AllNew(t.word2idx, ws)
    requires k < |ws|
    ensures t.next + k in AddWords(t, ws).idx2word
    ensures AddWords(t, ws).idx2word[t.next + k] == ws[k]
    decreases |ws|
  {
    var n := |ws| - 1;
    var init := ws[..n];
    var p := AddWords(t, init);
    AddFreshNext(t, init);
    AddWordsKeeps(t, init);
    assert AddWords(t, ws).idx2word == p.idx2word[p.next := ws[n]];
    if k < n {
      AddFreshIdWord(t, init, k);
      assert init[k] == ws[k];
    }
  }

  /** `ws` sits at the ids `from`, `from + 1`, ... of `r` in order, on both
      sides, and `r` hands out the id after the last of them next. */
  ghost predicate LaidOut(r: Table, ws: seq<string>, from: int)
  {
    && r.next == from + |ws|
    && forall k :: 0 <= k < |ws| ==>
         && ws[k] in r.word2idx && r.word2idx[ws[k]] == from + k
         && from + k in r.idx2word && r.idx2word[from + k] == ws[k]
  }

  /** Entering distinct new words lays them out from the next free index. */
  lemma AddFreshAll(t: Table, ws: seq<string>)
    requires AllNew(t.word2idx, ws)
    ensures LaidOut(AddWords(t, ws), ws, t.next)
  {
    AddFreshNext(t, ws);
    forall k | 0 <= k < |ws|
      ensures ws[k] in AddWords(t, ws).word2idx && AddWords(t, ws).word2idx[ws[k]] == t.next + k
      ensures t.next + k in AddWords(t, ws).idx2word && AddWords(t, ws).idx2word[t.next + k] == ws[k]
    {
      AddFreshWordId(t, ws, k);
      AddFreshIdWord(t, ws, k);
    }
  }
}
