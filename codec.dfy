/**
 Turning a caption into ids (`numericalize`) and ids back into words
 (`decode`). Both only read the vocabulary's maps, so they are functions of
 those maps; neither can change the vocabulary.
 */
module Codec {
  import opened Tokenizer
  import opened Table

  /** The id of a token, the UNK id when the token is unknown. */
  function Lookup(word2idx: map<string, int>, w: string): int
  {
    if w in word2idx then word2idx[w] else UnkId
  }

  /** The word of an id, the UNK token when the id is unknown. */
  function WordOf(idx2word: map<int, string>, id: int): string
  {
    if id in idx2word then idx2word[id] else UnkToken
  }

  /** Each token replaced by its id. */
  function Encode(word2idx: map<string, int>, toks: seq<string>): (ids: seq<int>)
    ensures |ids| == |toks|
    ensures forall k :: 0 <= k < |toks| ==> ids[k] == Lookup(word2idx, toks[k])
  {
    seq(|toks|, k requires 0 <= k < |toks| => Lookup(word2idx, toks[k]))
  }

  /** Steps 2 and 3 of `numericalize` on an already tokenized caption: each token
      becomes its id (UNK for an unknown one), wrapped in START ... END when asked. */
  function EncodeTokens(word2idx: map<string, int>, toks: seq<string>, addSpecialTokens: bool): (ids: seq<int>)
    ensures |ids| == |toks| + (if addSpecialTokens then 2 else 0)
    ensures addSpecialTokens ==> ids[0] == StartId && ids[|ids| - 1] == EndId
    ensures var off := if addSpecialTokens then 1 else 0;
      forall k :: 0 <= k < |toks| ==>
        ids[k + off] == (if toks[k] in word2idx then word2idx[toks[k]] else UnkId)
  {
    var body := Encode(word2idx, toks);
    if addSpecialTokens then [StartId] + body + [EndId] else body
  }

  /** `numericalize`, following its documented steps: tokenize the caption,
      then encode its tokens. */
  function Numericalize(word2idx: map<string, int>, text: string, addSpecialTokens: bool := true): (ids: seq<int>)
    ensures var toks := Tokenize(text);
      && |ids| == |toks| + (if addSpecialTokens then 2 else 0)
      && (addSpecialTokens ==> ids[0] == StartId && ids[|ids| - 1] == EndId)
      && (addSpecialTokens ==> forall k :: 0 <= k < |toks| ==>
           ids[k + 1] == (if toks[k] in word2idx then word2idx[toks[k]] else UnkId))
      && (!addSpecialTokens ==> forall k :: 0 <= k < |toks| ==>
           ids[k] == (if toks[k] in word2idx then word2idx[toks[k]] else UnkId))
  {
    EncodeTokens(word2idx, Tokenize(text), addSpecialTokens)
  }

  /** The markers `decode` can strip: PAD, START and END, but not UNK. */
  predicate IsMarker(w: string)
  {
    w == PadToken || w == StartToken || w == EndToken
  }

  /** Drop every marker, keep everything else in order. */
  function DropMarkers(ws: seq<string>): (r: seq<string>)
    ensures |r| <= |ws|
    ensures forall w :: w in r <==> w in ws && !IsMarker(w)
  {
    if ws == [] then []
    else if IsMarker(ws[0]) then DropMarkers(ws[1..])
    else [ws[0]] + DropMarkers(ws[1..])
  }

  /** The words of a list of ids. */
  function Words(idx2word: map<int, string>, ids: seq<int>): seq<string>
  {
    seq(|ids|, k requires 0 <= k < |ids| => WordOf(idx2word, ids[k]))
  }

  /** What `decode` returns: a space-joined string, or the list of tokens. */
  datatype Decoded = Text(text: string) | Tokens(tokens: seq<string>)

  /** `decode`: every id becomes its word (UNK for an unknown id), markers are
      dropped when asked, and the words are joined with spaces when asked. */
  function Decode(idx2word: map<int, string>, ids: seq<int>, join: bool := true, removeSpecial: bool := true): (d: Decoded)
    ensures d.Text? <==> join
    ensures !join && !removeSpecial ==>
              |d.tokens| == |ids| &&
              forall k :: 0 <= k < |ids| ==>
                d.tokens[k] == (if ids[k] in idx2word then idx2word[ids[k]] else UnkToken)
    ensures !join && removeSpecial ==>
              forall w :: w in d.tokens <==>
                !IsMarker(w) && exists k :: 0 <= k < |ids| && w == WordOf(idx2word, ids[k])
  {
    var ws := Words(idx2word, ids);
    var kept := if removeSpecial then DropMarkers(ws) else ws;
    assert forall w :: w in ws <==> exists k :: 0 <= k < |ids| && w == WordOf(idx2word, ids[k]) by {
      forall w | w in ws ensures exists k :: 0 <= k < |ids| && w == WordOf(idx2word, ids[k]) {
        var k :| 0 <= k < |ws| && ws[k] == w;
      }
      forall k | 0 <= k < |ids| ensures WordOf(idx2word, ids[k]) in ws {
        assert ws[k] == WordOf(idx2word, ids[k]);
      }
    }
    if join then Text(JoinSpaces(kept)) else Tokens(kept)
  }

  /** The decoded words of a tokenized caption: every token the vocabulary
      does not know becomes the UNK token. */
  function MaskUnknown(word2idx: map<string, int>, toks: seq<string>): (ws: seq<string>)
    ensures |ws| == |toks|
    ensures forall k :: 0 <= k < |toks| ==> ws[k] == (if toks[k] in word2idx then toks[k] else UnkToken)
  {
    seq(|toks|, k requires 0 <= k < |toks| => if toks[k] in word2idx then toks[k] else UnkToken)
  }

  /** Dropping markers works on each part of a list independently, so the
      words that remain keep their order. */
  lemma {:induction false} DropMarkersConcat(a: seq<string>, b: seq<string>)
    ensures DropMarkers(a + b) == DropMarkers(a) + DropMarkers(b)
  {
    if a != [] {
      assert (a + b)[0] == a[0];
      assert (a + b)[1..] == a[1..] + b;
      DropMarkersConcat(a[1..], b);
    } else {
      assert a + b == b;
    }
  }

  /** Dropping markers removes every occurrence of PAD, START and END and
      keeps every other word as often as it occurs (UNK included). */
  lemma {:induction false} DropMarkersCount(ws: seq<string>, w: string)
    ensures multiset(DropMarkers(ws))[w] == if IsMarker(w) then 0 else multiset(ws)[w]
  {
    if ws != [] {
      DropMarkersCount(ws[1..], w);
      assert ws == [ws[0]] + ws[1..];
      assert multiset(ws) == multiset{ws[0]} + multiset(ws[1..]);
    }
  }

  /** A list without markers is left unchanged. */
  lemma {:induction false} DropMarkersFixed(ws: seq<string>)
    requires forall w :: w in ws ==> !IsMarker(w)
    ensures DropMarkers(ws) == ws
  {
    if ws != [] {
      assert ws[0] in ws;
      assert forall w :: w in ws[1..] ==> w in ws;
      DropMarkersFixed(ws[1..]);
      assert ws == [ws[0]] + ws[1..];
    }
  }

  /** In a consistent vocabulary the words `decode` strips are exactly the
      words of ids 0, 1 and 2; every other id, known or not, survives. */
  lemma MarkerIds(t: Table, id: int)
    requires Consistent(t)
    ensures IsMarker(WordOf(t.idx2word, id)) <==> PadId <= id <= EndId
  {
    SpecialsDistinct();
    var w2i := t.word2idx;
    assert w2i[PadToken] == PadId && w2i[StartToken] == StartId && w2i[EndToken] == EndId;
    if id in t.idx2word {
      assert w2i[t.idx2word[id]] == id;
    }
  }

  /** The joined form of `decode` is the space-joined list form. */
  lemma DecodeJoined(idx2word: map<int, string>, ids: seq<int>, removeSpecial: bool)
    ensures Decode(idx2word, ids, true, removeSpecial).text == JoinSpaces(Decode(idx2word, ids, false, removeSpecial).tokens)
  {
  }

  /** Every id `numericalize` produces against a consistent vocabulary is one
      the vocabulary can decode. */
  lemma EncodedIdsKnown(t: Table, toks: seq<string>, addSpecialTokens: bool)
    requires Consistent(t)
    ensures forall id :: id in EncodeTokens(t.word2idx, toks, addSpecialTokens) ==> id in t.idx2word
  {
    var ids := EncodeTokens(t.word2idx, toks, addSpecialTokens);
    var body := Encode(t.word2idx, toks);
    forall k | 0 <= k < |body| ensures body[k] in t.idx2word {
      assert body[k] == Lookup(t.word2idx, toks[k]);
    }
    if addSpecialTokens {
      assert ids == [StartId] + body + [EndId];
    }
  }

  lemma NumericalizeIdsKnown(t: Table, text: string, addSpecialTokens: bool)
    requires Consistent(t)
    ensures forall id :: id in Numericalize(t.word2idx, text, addSpecialTokens) ==> id in t.idx2word
  {
    EncodedIdsKnown(t, Tokenize(text), addSpecialTokens);
  }

  /** The words of encoded tokens: the tokens themselves with unknown ones
      masked, between START and END when those were added. */
  lemma WordsOfEncoded(t: Table, toks: seq<string>, addSpecialTokens: bool)
    requires Consistent(t)
    ensures Words(t.idx2word, EncodeTokens(t.word2idx, toks, addSpecialTokens)) ==
      (if addSpecialTokens then [StartToken] + MaskUnknown(t.word2idx, toks) + [EndToken]
       else MaskUnknown(t.word2idx, toks))
  {
    var body := Encode(t.word2idx, toks);
    var m := MaskUnknown(t.word2idx, toks);
    var wb := Words(t.idx2word, body);
    forall k | 0 <= k < |toks| ensures wb[k] == m[k] {
      assert body[k] == Lookup(t.word2idx, toks[k]);
      assert wb[k] == WordOf(t.idx2word, body[k]);
    }
    assert wb == m;
    if addSpecialTokens {
      var ids := [StartId] + body + [EndId];
      assert EncodeTokens(t.word2idx, toks, true) == ids;
      WordsConcat(t.idx2word, [StartId] + body, [EndId]);
      WordsConcat(t.idx2word, [StartId], body);
    }
  }

  /** Words are looked up id by id. */
  lemma WordsConcat(idx2word: map<int, string>, a: seq<int>, b: seq<int>)
    ensures Words(idx2word, a + b) == Words(idx2word, a) + Words(idx2word, b)
  {
  }

  /** Decoding what was encoded, with markers removed, gives the tokens back,
      except that tokens the vocabulary does not know come back as UNK. */
  lemma DecodeEncode(t: Table, toks: seq<string>, addSpecialTokens: bool)
    requires Consistent(t)
    requires forall w :: w in toks ==> IsToken(w)
    ensures Decode(t.idx2word, EncodeTokens(t.word2idx, toks, addSpecialTokens), false, true) ==
      Tokens(MaskUnknown(t.word2idx, toks))
  {
    var ids := EncodeTokens(t.word2idx, toks, addSpecialTokens);
    var m := MaskUnknown(t.word2idx, toks);
    MaskedNoMarkers(t.word2idx, toks);
    DropMarkersFixed(m);
    WordsOfEncoded(t, toks, addSpecialTokens);
    if addSpecialTokens {
      StripEnds(m);
    }
    assert DropMarkers(Words(t.idx2word, ids)) == m;
  }

  /** Masked tokens hold no marker. */
  lemma MaskedNoMarkers(word2idx: map<string, int>, toks: seq<string>)
    requires forall w :: w in toks ==> IsToken(w)
    ensures forall w :: w in MaskUnknown(word2idx, toks) ==> !IsMarker(w)
  {
    var m := MaskUnknown(word2idx, toks);
    SpecialsDistinct();
    forall w | w in m ensures !IsMarker(w) {
      var k :| 0 <= k < |m| && m[k] == w;
      assert toks[k] in toks;
      TokenNotSpecial(toks[k]);
    }
  }

  /** Dropping markers strips the START and END around a marker-free list. */
  lemma StripEnds(m: seq<string>)
    requires DropMarkers(m) == m
    ensures DropMarkers([StartToken] + m + [EndToken]) == m
  {
    DropMarkersConcat([StartToken] + m, [EndToken]);
    DropMarkersConcat([StartToken], m);
  }

  /** The round trip of a caption through `numericalize` and `decode` (list
      form, markers removed): its tokens, with unknown words as UNK. */
  lemma DecodeNumericalize(t: Table, text: string, addSpecialTokens: bool)
    requires Consistent(t)
    ensures Decode(t.idx2word, Numericalize(t.word2idx, text, addSpecialTokens), false, true) ==
      Tokens(MaskUnknown(t.word2idx, Tokenize(text)))
  {
    DecodeEncode(t, Tokenize(text), addSpecialTokens);
  }

  /** When the vocabulary knows every token of a caption, decoding its ids
      (joined, markers removed) gives text that tokenizes to the same tokens. */
  lemma TextRoundTrip(t: Table, text: string, addSpecialTokens: bool)
    requires Consistent(t)
    requires forall w :: w in Tokenize(text) ==> w in t.word2idx
    ensures Decode(t.idx2word, Numericalize(t.word2idx, text, addSpecialTokens)) == Text(JoinSpaces(Tokenize(text)))
    ensures Tokenize(Decode(t.idx2word, Numericalize(t.word2idx, text, addSpecialTokens)).text) == Tokenize(text)
  {
    var toks := Tokenize(text);
    DecodeNumericalize(t, text, addSpecialTokens);
    DecodeJoined(t.idx2word, Numericalize(t.word2idx, text, addSpecialTokens), true);
    forall k | 0 <= k < |toks| ensures MaskUnknown(t.word2idx, toks)[k] == toks[k] {
      assert toks[k] in toks;
    }
    assert MaskUnknown(t.word2idx, toks) == toks;
    TokenizeJoin(toks);
  }
}
