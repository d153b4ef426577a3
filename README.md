# Caption vocabulary, modelled in Dafny

This project models the `Vocabulary` class of an image-captioning code base
(`utils/vocabulary.py`). A vocabulary holds two mirrored dictionaries,
`word2idx` and `idx2word`, plus the next free index `idx`. Ids 0-3 are
reserved for the special tokens `<PAD>`, `<START>`, `<END>` and `<UNK>`.
The class offers five operations:

- `tokenize` normalises a caption: it lower-cases it, deletes punctuation,
  splits it into words and drops words of one character.
- `build_vocabulary` counts the words of a corpus of captions, keeps those
  at or above the frequency threshold, most frequent first, and at most
  `max_size` of them. It then gives them ids from 4 upwards.
- `numericalize` turns a caption into ids, with UNK for an unknown word.
  It can wrap the result in START and END.
- `decode` turns ids back into words, with UNK for an unknown id. It can
  drop PAD, START and END, and it can join the words with spaces.
- `__len__` gives the size of the vocabulary.

In the source, `build_vocabulary` (`utils/vocabulary.py:103-110`) and
`numericalize` (`utils/vocabulary.py:123-130`) are unfinished. Their bodies
are numbered TODO comments: the first returns the object unchanged and the
second returns an empty list. The model implements the documented steps,
not the stubs.

Layout, one module per concern:

- `tokenizer.dfy` (`Tokenizer`): the `tokenize` pipeline plus `" ".join`, all
  pure functions. It proves that every token is normalised, and that joined
  tokens tokenize back to themselves.
- `table.dfy` (`Table`): the two maps and the next index as one value.
  - The invariant `Consistent`: the maps are inverse, ids run densely from 0,
    ids 0-3 hold the specials, and the size equals the next index.
  - The initial state.
  - Entering words (`AddWord`, `AddWords`), with the proofs that entering
    keeps the invariant and hands out consecutive ids.
- `ranking.dfy` (`Counting`): steps 1-4 of `build_vocabulary`.
  - Counting the corpus: the `CountWords` loop, proved against `Counts`.
  - The frequency order and the threshold: the `RankCandidates` loop, proved
    against `Ranking`.
  - The cap: `Cap`.
- `codec.dfy` (`Codec`): `numericalize` and `decode` as functions of the maps.
  It proves what each returns and the round trip between them.
- `vocabulary.dfy` (`Vocab`): the `Vocabulary` class.
  - Fields for the maps, the index, the threshold and the cap.
  - The constructor and `__len__`.
  - `BuildVocabulary`, which updates the fields in place.
  - Lemmas about the specification function `Built` of a build.
- `wrappers.dfy` (`Wrappers`): `Option`, used for `max_size`, where `None`
  means no cap.

Modelling decisions:

- Equal counts are ordered by ascending code-point order of the word (the
  order of Python string comparison). The source leaves this tie-break open.
- `max_size` counts only corpus words. The four specials come on top, as
  the docstring at `utils/vocabulary.py:30` says.
- When building, a word that is already present is skipped, so the maps
  stay inverse even on a vocabulary that was built before. On a fresh
  vocabulary this never happens: no token can equal a special, because
  each special contains `<`, which tokenization deletes (`TokenNotSpecial`).
- The word splitter is a split on ASCII whitespace.
- Punctuation is the 32 characters of Python's `string.punctuation`. The
  model tests them as four ASCII ranges, proved equal to the character
  list (`PunctuationRanges`).

## Model

| member | source | states |
|---|---|---|
| Table.Initial | utils/vocabulary.py:39-53 | the initial maps are mutual inverses, hold exactly the four specials under ids 0-3 (in both directions), and the next index is 4 |
| Table.TokenNotSpecial | utils/vocabulary.py:33-36 | no normalised token equals one of the four specials |
| Vocab.Vocabulary.constructor | utils/vocabulary.py:24-57 | a new vocabulary is consistent, its maps are the initial ones, `idx` is 4, it holds 4 words, and it stores the threshold and the cap it was given |
| Vocab.Vocabulary.Length | utils/vocabulary.py:65-67 | the size of a consistent vocabulary equals its next free index, and is at least 4 |
| Tokenizer.Lower | utils/vocabulary.py:80 | lower-casing keeps the length, maps each ASCII capital to its small letter and leaves every other character alone |
| Tokenizer.StripPunct | utils/vocabulary.py:83 | the result holds exactly the non-punctuation characters of the input, and is no longer |
| Tokenizer.PunctuationRanges | utils/vocabulary.py:83 | the four ASCII ranges that `IsPunct` tests hold exactly the 32 characters of Python's `string.punctuation` |
| Tokenizer.PunctuationInRanges | utils/vocabulary.py:83 | every character of `string.punctuation` lies in one of the four ranges |
| Tokenizer.StripPunctConcat | utils/vocabulary.py:83 | punctuation is deleted from each part of a text independently, so the remaining characters keep their order |
| Tokenizer.Split | utils/vocabulary.py:86 | every word is non-empty, holds no whitespace, and is made of characters of the input |
| Tokenizer.SplitWord | utils/vocabulary.py:86 | a lone non-empty word without whitespace splits into itself |
| Tokenizer.SplitAtSpace | utils/vocabulary.py:86 | splitting at any whitespace character gives the words before it followed by the words after it, so tabs, newlines and runs of whitespace (leading and trailing included) lose and merge no word; with `SplitWord` this fixes the split of every text |
| Tokenizer.SplitFirstWord | utils/vocabulary.py:86 | text appended after a whitespace character leaves the first word of a text unchanged |
| Tokenizer.LongTokens | utils/vocabulary.py:89 | exactly the tokens longer than one character are kept |
| Tokenizer.LongTokensConcat | utils/vocabulary.py:89 | the filter works on each part of a list independently, so the kept tokens keep their order |
| Tokenizer.LongTokensCount | utils/vocabulary.py:89 | every occurrence of a token longer than one character is kept, and none of a shorter one |
| Tokenizer.Tokenize | utils/vocabulary.py:69-91 | every token is longer than one character and holds no capital, no punctuation and no whitespace |
| Tokenizer.JoinSpaces | utils/vocabulary.py:157-158 | every character of the joined text is a space or comes from one of the words |
| Tokenizer.SplitJoin | utils/vocabulary.py:86 | splitting space-joined words that are non-empty and space-free gives the words back |
| Tokenizer.TokenizeJoin | utils/vocabulary.py:69-91 | tokenizing the space-joined text of normalised tokens gives exactly those tokens, in order |
| Tokenizer.TokenizeIdempotent | utils/vocabulary.py:69-91 | tokenizing the joined output of `tokenize` gives the same tokens again |
| Counting.Bump | utils/vocabulary.py:105 | counting one token raises its count by one and leaves every other count unchanged |
| Counting.TallyAppend | utils/vocabulary.py:104-105 | counting two lists of tokens one after the other equals counting their concatenation |
| Counting.TallyCounts | utils/vocabulary.py:104-105 | after counting, the counted words are the old ones plus the new tokens, and each count grows by the token's number of occurrences |
| Counting.CountsAreOccurrences | utils/vocabulary.py:104-105 | the corpus counter holds exactly the corpus tokens, each with its number of occurrences across all captions |
| Counting.CountedWords | utils/vocabulary.py:104-105 | every counted word is a normalised token counted at least once |
| Counting.CountsSnoc | utils/vocabulary.py:104-105 | counting the captions up to and including one more caption continues the counter of the captions before it with that caption's tokens |
| Counting.CountTokens | utils/vocabulary.py:105 | the loop over one caption's tokens computes `Tally` of them |
| Counting.CountWords | utils/vocabulary.py:104-105 | the loop over all captions computes the corpus counter `Counts` |
| Counting.BeforeOrder | utils/vocabulary.py:106 | "more frequent, or as frequent and smaller in code-point order" is a strict total order |
| Counting.InsertRanked | utils/vocabulary.py:106 | inserting a new word at its rank keeps a list ordered |
| Counting.RankedDistinct | utils/vocabulary.py:106 | an ordered list holds no word twice |
| Counting.RankedUnique | utils/vocabulary.py:106 | two ordered lists with the same words are equal, so the ranking is unique |
| Counting.Ranking | utils/vocabulary.py:106-107 | the ranking is ordered and holds exactly the counted words whose count is at least the threshold |
| Counting.RankCandidates | utils/vocabulary.py:106-107 | the ranking loop over the counter computes `Ranking` |
| Counting.Cap | utils/vocabulary.py:107 | the capped list is a prefix of the ranking; it has exactly `max_size` words when the ranking is longer, and is the whole ranking when there is no cap or the ranking is short enough |
| Table.AddWord | utils/vocabulary.py:108 | a new word takes the next index on both sides and the index advances by one; a present word changes nothing; old words keep their ids |
| Table.AddWordsKeeps | utils/vocabulary.py:108 | entering words makes each of them present, keeps every old word with its id, and brings in no other word |
| Table.AddWordsConsistent | utils/vocabulary.py:108 | entering words keeps the maps inverse, the ids dense and the specials at 0-3, and keeps every assigned id |
| Table.AddFreshNext | utils/vocabulary.py:108 | entering distinct new words advances the next index by their number |
| Table.AddFreshWordId | utils/vocabulary.py:108 | the k-th of distinct new words gets id `next + k` |
| Table.AddFreshIdWord | utils/vocabulary.py:108 | id `next + k` names the k-th of the distinct new words |
| Table.AddFreshAll | utils/vocabulary.py:108 | entering distinct new words advances the next index by their number, and the k-th word and id `next + k` name each other |
| Vocab.Vocabulary.EnterWords | utils/vocabulary.py:108 | the loop that enters words updates the fields exactly as `AddWords` does, and leaves the threshold and the cap alone |
| Vocab.Vocabulary.BuildVocabulary | utils/vocabulary.py:93-110 | building keeps the vocabulary consistent, yields the maps of `Built` applied to the old maps, and leaves the threshold and the cap alone |
| Vocab.BuildPreserves | utils/vocabulary.py:103-108 | building keeps the vocabulary consistent and keeps every word and every id it had, the specials included |
| Vocab.BuildAdmits | utils/vocabulary.py:107 | every word a build brings in occurs at least `freq_threshold` times in the corpus |
| Vocab.BuildBound | utils/vocabulary.py:107 | a build adds at most `max_size` words |
| Vocab.BuildUncapped | utils/vocabulary.py:107 | without a cap, a build brings in exactly the words that occur at least `freq_threshold` times |
| Vocab.BuildTopRanked | utils/vocabulary.py:106-107 | under a cap, a qualifying word that is left out ranks after every kept word |
| Vocab.KeptAllNew | utils/vocabulary.py:106-108 | the kept words are distinct and none of them is a special |
| Vocab.FreshIds | utils/vocabulary.py:108 | distinct non-special words entered into a fresh vocabulary take ids 4, 5, ... in order, in both maps |
| Vocab.BuildFresh | utils/vocabulary.py:108 | on a fresh vocabulary the k-th kept word gets id 4 + k in both maps, and the next index becomes 4 plus the number of kept words |
| Vocab.AddKnownWords | utils/vocabulary.py:108 | entering words that are all present already changes nothing |
| Vocab.BuildTwice | utils/vocabulary.py:103-108 | building again from the same corpus with the same settings changes nothing |
| Codec.EncodeTokens | utils/vocabulary.py:126-127 | one id per token, the token's id or 3 when it is unknown, between ids 1 and 2 when they are asked for |
| Codec.Numericalize | utils/vocabulary.py:124-128 | the result has as many ids as the caption has tokens, plus 2 with START/END; it starts with 1 and ends with 2 when they are asked for; each token becomes its id, or 3 when it is unknown |
| Codec.EncodedIdsKnown | utils/vocabulary.py:126 | every id of an encoded caption names a word of a consistent vocabulary |
| Codec.NumericalizeIdsKnown | utils/vocabulary.py:124-128 | every id `numericalize` produces names a word of a consistent vocabulary |
| Codec.Decode | utils/vocabulary.py:132-160 | a string is returned exactly when joining is asked for; without removal, there is one word per id in order, UNK for an id that is not in `idx2word`; with removal, the words are those of the ids minus PAD, START and END |
| Codec.DropMarkers | utils/vocabulary.py:152-154 | the result holds exactly the words that are not PAD, START or END |
| Codec.DropMarkersConcat | utils/vocabulary.py:152-154 | markers are dropped from each part of a list independently, so the remaining words keep their order |
| Codec.DropMarkersCount | utils/vocabulary.py:152-154 | every PAD, START and END is removed, and every other word, UNK included, keeps its number of occurrences |
| Codec.DropMarkersFixed | utils/vocabulary.py:152-154 | a list without markers is left unchanged |
| Codec.MarkerIds | utils/vocabulary.py:149-154 | in a consistent vocabulary, the words removed are exactly those of ids 0, 1 and 2; an unknown id decodes to UNK and is kept |
| Codec.DecodeJoined | utils/vocabulary.py:157-158 | the joined result is the space-joined list result |
| Codec.WordsOfEncoded | utils/vocabulary.py:149 | the words of encoded tokens are the tokens, with unknown ones as UNK, between START and END when those were added |
| Codec.DecodeEncode | utils/vocabulary.py:112-160 | decoding encoded tokens with markers removed gives the tokens back, with unknown ones as UNK |
| Codec.DecodeNumericalize | utils/vocabulary.py:112-160 | decoding the ids of a caption (list form, markers removed) gives its tokens, with unknown ones as UNK |
| Codec.TextRoundTrip | utils/vocabulary.py:112-160 | when every token is known, the decoded text is the space-joined tokens, and it tokenizes back to the same tokens |

## Left out

- `save` and `load` (`utils/vocabulary.py:162-184`): file I/O and pickling, outside the model.
- `build_vocab_from_captions`: CSV reading, directory creation and printing, all I/O around the modelled operations.
- The NLTK resource check and download in `__init__`: setup I/O.
- `nltk.word_tokenize`: its rules (contractions, quotes, periods) are not part of this model. ASCII whitespace splitting stands in for it. After punctuation is deleted the two mostly agree, but not always.
- Tokenizer.Lower: does not model Unicode case mapping, because only ASCII `A`-`Z` are lower-cased.
- The tensor-to-list conversion in `decode`: the model takes a sequence of ids.
- `max_size` holding a negative integer: Python's slice would then count from the end. The model takes `max_size` as an optional natural number.
- `build_vocabulary` returning `self`: the method updates the object in place and returns nothing.
- `numericalize` and `decode` are functions of the vocabulary's maps rather than methods of the class. They only read the object.
- `models/encoder.py`: not part of this model.
