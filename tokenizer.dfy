/**
 Caption normalisation: the `tokenize` pipeline of the vocabulary.

 The text is lower-cased (ASCII letters only), every ASCII punctuation
 character is deleted (not replaced by a space), the rest is split into
 words on whitespace, and words of length at most one are dropped.
 */
module Tokenizer {

  /** The 32 characters of Python's `string.punctuation`. */
  const Punctuation: string := "!\"#$%&'()*+,-./:;<=>?@[\\]^_`{|}~"

  /** The same 32 characters as four ASCII ranges (see `PunctuationRanges`). */
  predicate IsPunct(c: char)
  {
    ('!' <= c <= '/') || (':' <= c <= '@') || ('[' <= c <= '`') || ('{' <= c <= '~')
  }

  /** The ranges of `IsPunct` hold exactly the characters of `Punctuation`. */
  lemma PunctuationRanges(c: char)
    ensures IsPunct(c) <==> c in Punctuation
  {
    PunctuationInRanges();
    if IsPunct(c) {
      var k := if c <= '/' then c as int - '!' as int
        else if c <= '@' then c as int - ':' as int + 15
        else if c <= '`' then c as int - '[' as int + 22
        else c as int - '{' as int + 28;
      assert Punctuation[k] == c;
    }
  }

  /** Each character of `Punctuation` passes `IsPunct`. */
  lemma PunctuationInRanges()
    ensures forall k :: 0 <= k < |Punctuation| ==> IsPunct(Punctuation[k])
  {
  }

  predicate IsUpper(c: char) { 'A' <= c <= 'Z' }

  /** The ASCII whitespace characters on which words are separated. */
  predicate IsSpace(c: char)
  {
    c == ' ' || c == '\t' || c == '\n' || c == '\r' || c == '\U{000B}' || c == '\U{000C}'
  }

  /** A non-empty run of non-space characters. */
  predicate IsWord(w: string)
  {
    w != [] && forall c :: c in w ==> !IsSpace(c)
  }

  /** A normalised token: longer than one character, and free of upper-case
      letters, punctuation and whitespace. */
  ghost predicate IsToken(t: string)
  {
    |t| > 1 && forall c :: c in t ==> !IsPunct(c) && !IsUpper(c) && !IsSpace(c)
  }

  function ToLowerChar(c: char): (d: char)
    ensures !IsUpper(d)
    ensures IsUpper(c) ==> d as int == c as int + 32
    ensures !IsUpper(c) ==> d == c
  {
    if IsUpper(c) then (c as int + 32) as char else c
  }

  /** Lower-casing, of ASCII letters only, character by character. */
  function Lower(s: string): (r: string)
    ensures |r| == |s|
    ensures forall k :: 0 <= k < |s| ==> r[k] == ToLowerChar(s[k])
  {
    seq(|s|, k requires 0 <= k < |s| => ToLowerChar(s[k]))
  }

  /** Removing punctuation: every punctuation character is deleted. */
  function StripPunct(s: string): (r: string)
    ensures |r| <= |s|
    ensures forall c :: c in r <==> c in s && !IsPunct(c)
  {
    if s == [] then []
    else if IsPunct(s[0]) then StripPunct(s[1..])
    else [s[0]] + StripPunct(s[1..])
  }

  /** The suffix of `s` that starts at its first non-space character. */
  function DropSpaces(s: string): (r: string)
    ensures |r| <= |s|
    ensures r == [] || !IsSpace(r[0])
    ensures forall c :: c in r ==> c in s
  {
    if s != [] && IsSpace(s[0]) then DropSpaces(s[1..]) else s
  }

  /** The length of the longest prefix of `s` that holds no space. */
  function WordLength(s: string): (n: nat)
    ensures n <= |s|
    ensures forall k :: 0 <= k < n ==> !IsSpace(s[k])
    ensures n < |s| ==> IsSpace(s[n])
  {
    if s == [] || IsSpace(s[0]) then 0 else 1 + WordLength(s[1..])
  }

  /** Splitting into tokens: `s` is cut at runs of whitespace. */
  function Split(s: string): (ws: seq<string>)
    ensures forall w :: w in ws ==> IsWord(w) && forall c :: c in w ==> c in s
    decreases |s|
  {
    var rest := DropSpaces(s);
    if rest == [] then []
    else
      var n := WordLength(rest);
      assert rest[0] in rest[..n];
      [rest[..n]] + Split(rest[n..])
  }

  /** Filtering: only the tokens longer than one character are kept. */
  function LongTokens(ts: seq<string>): (r: seq<string>)
    ensures |r| <= |ts|
    ensures forall t :: t in r <==> t in ts && |t| > 1
  {
    if ts == [] then []
    else if |ts[0]| > 1 then [ts[0]] + LongTokens(ts[1..])
    else LongTokens(ts[1..])
  }

  /** The whole normalisation pipeline: lower-case, remove punctuation,
      split into tokens, filter out short tokens, in that order. */
  function Tokenize(text: string): (ts: seq<string>)
    ensures forall t :: t in ts ==> IsToken(t)
  {
    LongTokens(Split(StripPunct(Lower(text))))
  }

  /** The words of `ts` separated by single spaces (Python's `" ".join`). */
  function JoinSpaces(ts: seq<string>): (s: string)
    ensures forall c :: c in s ==> c == ' ' || exists t :: t in ts && c in t
  {
    if ts == [] then ""
    else if |ts| == 1 then ts[0]
    else ts[0] + " " + JoinSpaces(ts[1..])
  }

  /** Lower-casing leaves text without upper-case letters unchanged. */
  lemma LowerFixed(s: string)
    requires forall c :: c in s ==> !IsUpper(c)
    ensures Lower(s) == s
  {
  }

  /** Deleting punctuation leaves punctuation-free text unchanged. */
  lemma {:induction false} StripPunctFixed(s: string)
    requires forall c :: c in s ==> !IsPunct(c)
    ensures StripPunct(s) == s
  {
    if s != [] {
      assert s[0] in s;
      assert forall c :: c in s[1..] ==> c in s;
      StripPunctFixed(s[1..]);
      assert s == [s[0]] + s[1..];
    }
  }

  /** Punctuation is deleted from each part of a text independently:
      the character order of what remains is kept. */
  lemma {:induction false} StripPunctConcat(a: string, b: string)
    ensures StripPunct(a + b) == StripPunct(a) + StripPunct(b)
  {
    if a == [] {
      assert a + b == b;
    } else {
      var ab := a + b;
      assert ab[0] == a[0] && ab[1..] == a[1..] + b;
      StripPunctConcat(a[1..], b);
      if IsPunct(a[0]) {
        assert StripPunct(ab) == StripPunct(a[1..] + b);
      } else {
        assert StripPunct(ab) == [a[0]] + StripPunct(a[1..] + b);
        assert StripPunct(a) == [a[0]] + StripPunct(a[1..]);
      }
    }
  }

  /** A word without spaces followed by a space (or nothing) is read whole. */
  lemma {:induction false} WordLengthOf(a: string, b: string)
    requires forall c :: c in a ==> !IsSpace(c)
    requires b == [] || IsSpace(b[0])
    ensures WordLength(a + b) == |a|
  {
    if a == [] {
      assert a + b == b;
    } else {
      assert a[0] in a;
      assert (a + b)[0] == a[0];
      assert (a + b)[1..] == a[1..] + b;
      assert forall c :: c in a[1..] ==> c in a;
      WordLengthOf(a[1..], b);
    }
  }

  /** A lone word without spaces splits into itself. */
  lemma SplitWord(t: string)
    requires IsWord(t)
    ensures Split(t) == [t]
  {
    assert t[0] in t;
    WordLengthOf(t, []);
    assert t + [] == t;
    assert t[|t|..] == [];
  }

  /** A word, a space and a text that does not start with a space split into
      the word followed by the split of the text. */
  lemma SplitCons(t: string, rest: string)
    requires IsWord(t)
    requires rest == [] || !IsSpace(rest[0])
    ensures Split(t + " " + rest) == [t] + Split(rest)
  {
    var tail := " " + rest;
    var j := t + tail;
    assert t + " " + rest == j;
    assert t[0] in t;
    assert j[0] == t[0];
    assert DropSpaces(j) == j;
    WordLengthOf(t, tail);
    assert j[..|t|] == t;
    assert j[|t|..] == tail;
    assert tail[1..] == rest;
    assert DropSpaces(tail) == DropSpaces(rest);
    assert DropSpaces(rest) == rest;
    assert Split(tail) == Split(rest);
  }

  /** The joined text starts with the first word's first character. */
  lemma JoinHead(ts: seq<string>)
    requires ts != [] && ts[0] != []
    ensures JoinSpaces(ts) != [] && JoinSpaces(ts)[0] == ts[0][0]
  {
    if |ts| > 1 {
      assert JoinSpaces(ts) == ts[0] + " " + JoinSpaces(ts[1..]);
    }
  }

  /** Splitting the space-joined words gives the words back, provided none is
      empty or contains a space. */
  lemma {:induction false} SplitJoin(ts: seq<string>)
    requires forall t :: t in ts ==> IsWord(t)
    ensures Split(JoinSpaces(ts)) == ts
  {
    if ts == [] {
    } else if |ts| == 1 {
      assert ts[0] in ts;
      SplitWord(ts[0]);
    } else {
      var rest := JoinSpaces(ts[1..]);
      assert JoinSpaces(ts) == ts[0] + " " + rest;
      assert ts[0] in ts && ts[1] in ts;
      assert ts[1..][0] == ts[1];
      JoinHead(ts[1..]);
      assert ts[1][0] in ts[1];
      SplitCons(ts[0], rest);
      assert forall u :: u in ts[1..] ==> u in ts;
      SplitJoin(ts[1..]);
      assert ts == [ts[0]] + ts[1..];
    }
  }

  /** Dropping short tokens changes nothing when every token is long. */
  lemma {:induction false} LongTokensFixed(ts: seq<string>)
    requires forall t :: t in ts ==> |t| > 1
    ensures LongTokens(ts) == ts
  {
    if ts != [] {
      assert ts[0] in ts;
      assert forall t :: t in ts[1..] ==> t in ts;
      LongTokensFixed(ts[1..]);
      assert ts == [ts[0]] + ts[1..];
    }
  }

  /** Normalised tokens survive a second pass: tokenizing their space-joined
      text yields exactly the same tokens, in the same order. */
  lemma TokenizeJoin(ts: seq<string>)
    requires forall t :: t in ts ==> IsToken(t)
    ensures Tokenize(JoinSpaces(ts)) == ts
  {
    var j := JoinSpaces(ts);
    forall c | c in j
      ensures !IsUpper(c) && !IsPunct(c)
    {
      if c != ' ' {
        var t :| t in ts && c in t;
        assert IsToken(t);
      }
    }
    LowerFixed(j);
    StripPunctFixed(j);
    SplitJoin(ts);
    LongTokensFixed(ts);
  }

  /** Tokenization is idempotent on its own joined output. */
  lemma TokenizeIdempotent(text: string)
    ensures Tokenize(JoinSpaces(Tokenize(text))) == Tokenize(text)
  {
    TokenizeJoin(Tokenize(text));
  }
  /** Skipping leading spaces of a concatenation: the spaces of `a` are
      skipped, and when `a` is all spaces, those of `t` too. */
  lemma {:induction false} DropSpacesConcat(a: string, t: string)
    ensures DropSpaces(a + t) == if DropSpaces(a) == [] then DropSpaces(t) else DropSpaces(a) + t
  {
    if a == [] {
      assert a + t == t;
    } else {
      assert (a + t)[0] == a[0];
      assert (a + t)[1..] == a[1..] + t;
      DropSpacesConcat(a[1..], t);
    }
  }

  /** A word is not extended past a following space. */
  lemma {:induction false} WordLengthConcat(r: string, x: string)
    requires x == [] || IsSpace(x[0])
    ensures WordLength(r + x) == WordLength(r)
  {
    if r == [] {
      assert r + x == x;
    } else {
      assert (r + x)[0] == r[0];
      assert (r + x)[1..] == r[1..] + x;
      WordLengthConcat(r[1..], x);
    }
  }

  /** Two texts whose first non-space characters start at the same suffix
      split alike. */
  lemma SplitSameRest(s: string, t: string)
    requires DropSpaces(s) == DropSpaces(t)
    ensures Split(s) == Split(t)
  {
  }

  /** When `a` holds a word, a text appended after a space does not change
      the first word of `a`. */
  lemma {:induction false} SplitFirstWord(a: string, x: string)
    requires DropSpaces(a) != []
    requires x == [] || IsSpace(x[0])
    ensures var r := DropSpaces(a);
      Split(a + x) == [r[..WordLength(r)]] + Split(r[WordLength(r)..] + x)
  {
    var j := a + x;
    assert j[0] == a[0];
    if IsSpace(a[0]) {
      assert j[1..] == a[1..] + x;
      SplitSameRest(j, j[1..]);
      SplitFirstWord(a[1..], x);
    } else {
      var n := WordLength(a);
      WordLengthConcat(a, x);
      assert j[..n] == a[..n];
      assert j[n..] == a[n..] + x;
    }
  }

  /** Splitting at any whitespace character: the words of `a`, then those of
      `b`. Whatever the whitespace (tab, newline, a run of several, leading
      or trailing), no word is lost and no word is merged; together with
      `SplitWord` and `Split([]) == []` this fixes `Split` on every text. */
  lemma {:induction false} SplitAtSpace(a: string, c: char, b: string)
    requires IsSpace(c)
    ensures Split(a + [c] + b) == Split(a) + Split(b)
    decreases |a|
  {
    var x := [c] + b;
    assert a + [c] + b == a + x;
    var r := DropSpaces(a);
    if r == [] {
      DropSpacesConcat(a, x);
      assert DropSpaces(x) == DropSpaces(b);
      SplitSameRest(a + x, b);
    } else {
      var n := WordLength(r);
      var rest := r[n..];
      SplitFirstWord(a, x);
      assert rest + x == rest + [c] + b;
      SplitAtSpace(rest, c, b);
    }
  }

  /** Filtering works on each part of a list independently, so the kept
      tokens keep their order. */
  lemma {:induction false} LongTokensConcat(a: seq<string>, b: seq<string>)
    ensures LongTokens(a + b) == LongTokens(a) + LongTokens(b)
  {
    if a != [] {
      assert (a + b)[0] == a[0];
      assert (a + b)[1..] == a[1..] + b;
      LongTokensConcat(a[1..], b);
    } else {
      assert a + b == b;
    }
  }

  /** Filtering keeps every occurrence of a long token and none of a short one. */
  lemma {:induction false} LongTokensCount(ts: seq<string>, t: string)
    ensures multiset(LongTokens(ts))[t] == if |t| > 1 then multiset(ts)[t] else 0
  {
    if ts != [] {
      LongTokensCount(ts[1..], t);
      assert ts == [ts[0]] + ts[1..];
      assert multiset(ts) == multiset{ts[0]} + multiset(ts[1..]);
    }
  }
}
