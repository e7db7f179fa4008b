/** The word-coverage check that `_write_story` runs before publishing
    (StoriesService/views/stories.py, lines 150-163): the text is stripped of
    punctuation, lower-cased and split on whitespace, and every token that is
    still among the outstanding figures removes one occurrence of it. */
module Validation {

  /** Python's `string.punctuation`: the 32 ASCII characters
      !"#$%&'()*+,-./ :;<=>?@ [\]^_` {|}~ */
  predicate IsPunctuation(c: char)
  {
    ('!' <= c <= '/') || (':' <= c <= '@') || ('[' <= c <= '`') || ('{' <= c <= '~')
  }

  /** The ASCII characters for which Python's `str.isspace` holds. */
  predicate IsWhitespace(c: char)
  {
    c == ' ' || ('\t' <= c <= '\r') || ('\U{1C}' <= c <= '\U{1F}')
  }

  predicate IsUpper(c: char)
  {
    'A' <= c <= 'Z'
  }

  function ToLower(c: char): (r: char)
    ensures !IsUpper(r)
    ensures IsUpper(c) ==> r as int == c as int + 32
    ensures !IsUpper(c) ==> r == c
  {
    if IsUpper(c) then (c as int + 32) as char else c
  }

  /** One character of `text.translate(trans).lower()`. */
  function NormalizeChar(c: char): (r: char)
    ensures !IsPunctuation(r) && !IsUpper(r)
    ensures IsPunctuation(c) ==> r == ' '
  {
    if IsPunctuation(c) then ' ' else ToLower(c)
  }

  function Normalize(text: string): (r: string)
    ensures |r| == |text|
    ensures forall c :: c in r ==> !IsPunctuation(c) && !IsUpper(c)
    ensures forall i :: 0 <= i < |text| ==>
      r[i] == (if IsPunctuation(text[i]) then ' ' else ToLower(text[i]))
  {
    seq(|text|, i requires 0 <= i < |text| => NormalizeChar(text[i]))
  }

  /** Python's `str.split()` with no separator: the maximal runs of
      non-whitespace characters, in order. */
  function SplitWords(s: string): (words: seq<string>)
    ensures forall w :: w in words ==> w != [] && forall c :: c in w ==> c in s && !IsWhitespace(c)
    ensures Concat(words) == NonSpace(s)
  {
    WordsFrom(s, [])
  }

  /** The words of `cur + s`, where `cur` is the word read so far. */
  function WordsFrom(s: string, cur: string): (words: seq<string>)
    requires forall c :: c in cur ==> !IsWhitespace(c)
    ensures forall w :: w in words ==> w != [] && forall c :: c in w ==> (c in s || c in cur) && !IsWhitespace(c)
    ensures Concat(words) == cur + NonSpace(s)
    decreases |s|
  {
    if s == [] then
      (if cur == [] then [] else [cur])
    else if IsWhitespace(s[0]) then
      var rest := WordsFrom(s[1..], []);
      ConcatCons(cur, rest);
      (if cur == [] then [] else [cur]) + rest
    else
      WordsFrom(s[1..], cur + [s[0]])
  }

  /** The words run together. */
  function Concat(words: seq<string>): string
  {
    if words == [] then [] else words[0] + Concat(words[1..])
  }

  lemma ConcatCons(w: string, words: seq<string>)
    ensures Concat((if w == [] then [] else [w]) + words) == w + Concat(words)
  {
    if w != [] {
      assert ([w] + words)[1..] == words;
    } else {
      assert [] + words == words;
    }
  }

  /** The characters of `s` that are not whitespace, in order. */
  function NonSpace(s: string): string
  {
    if s == [] then []
    else if IsWhitespace(s[0]) then NonSpace(s[1..])
    else [s[0]] + NonSpace(s[1..])
  }

  /** The tokens the validator compares with the figures. */
  function Tokens(text: string): (words: seq<string>)
    ensures forall w :: w in words ==> w != [] && IsNormalWord(w)
  {
    SplitWords(Normalize(text))
  }

  /** A word that can appear among the tokens of some text. */
  predicate IsNormalWord(w: string)
  {
    forall c :: c in w ==> !IsWhitespace(c) && !IsPunctuation(c) && !IsUpper(c)
  }

  /** Python's `list.remove(w)`: drop the first occurrence of `w`
      (the source calls it only when `w` occurs). */
  function RemoveFirst(s: seq<string>, w: string): seq<string>
  {
    if s == [] then []
    else if s[0] == w then s[1..]
    else [s[0]] + RemoveFirst(s[1..], w)
  }

  /** `remove` takes out exactly one copy when there is one, and nothing otherwise. */
  lemma {:induction false} RemoveFirstMultiset(s: seq<string>, w: string)
    ensures w in s ==> |RemoveFirst(s, w)| == |s| - 1
    ensures w !in s ==> RemoveFirst(s, w) == s
    ensures multiset(RemoveFirst(s, w)) == multiset(s) - multiset{w}
    decreases |s|
  {
    if s != [] {
      assert s == [s[0]] + s[1..];
      if s[0] != w {
        RemoveFirstMultiset(s[1..], w);
      }
    }
  }

  /** Reference definition of what the validator reports missing: walking the
      figures in order, each figure claims one copy of itself from the bag of
      tokens if one is left, and the figures that find none are missing. */
  function Cover(figures: seq<string>, tokens: multiset<string>): seq<string>
  {
    if figures == [] then []
    else if figures[0] in tokens then Cover(figures[1..], tokens - multiset{figures[0]})
    else [figures[0]] + Cover(figures[1..], tokens)
  }

  /** Adding one token to the bag is the same as one `list.remove` on what was
      missing before: this is the step of the source's loop. */
  lemma {:induction false} CoverAddToken(figures: seq<string>, tokens: multiset<string>, w: string)
    ensures Cover(figures, tokens + multiset{w}) == RemoveFirst(Cover(figures, tokens), w)
    decreases |figures|
  {
    if figures != [] {
      var f, rest := figures[0], figures[1..];
      if f == w {
        if w in tokens {
          assert (tokens - multiset{w}) + multiset{w} == tokens;
          assert (tokens + multiset{w}) - multiset{w} == tokens;
          CoverAddToken(rest, tokens - multiset{w}, w);
        } else {
          assert (tokens + multiset{w}) - multiset{w} == tokens;
          assert Cover(figures, tokens) == [w] + Cover(rest, tokens);
        }
      } else if f in tokens {
        assert (tokens + multiset{w}) - multiset{f} == (tokens - multiset{f}) + multiset{w};
        CoverAddToken(rest, tokens - multiset{f}, w);
      } else {
        CoverAddToken(rest, tokens, w);
      }
    }
  }

  /** What is missing is exactly the multiset difference: each token removes
      at most one occurrence, and duplicated figures need as many tokens. */
  lemma {:induction false} CoverMultiset(figures: seq<string>, tokens: multiset<string>)
    ensures multiset(Cover(figures, tokens)) == multiset(figures) - tokens
    decreases |figures|
  {
    if figures != [] {
      var f, rest := figures[0], figures[1..];
      assert figures == [f] + rest;
      if f in tokens {
        CoverMultiset(rest, tokens - multiset{f});
      } else {
        CoverMultiset(rest, tokens);
      }
    }
  }

  /** The text is accepted exactly when the figures, counted with
      multiplicity, are contained in its tokens. */
  lemma CoverEmptyIffContained(figures: seq<string>, tokens: multiset<string>)
    ensures Cover(figures, tokens) == [] <==> multiset(figures) <= tokens
  {
    CoverMultiset(figures, tokens);
    var m := multiset(figures);
    if m <= tokens {
      assert m - tokens == multiset{};
    } else {
      var x :| m[x] > tokens[x];
      assert (m - tokens)[x] > 0;
    }
  }

  /** Every missing word is one of the figures, and the missing words keep
      the figures' relative order. */
  lemma {:induction false} CoverIsSubsequence(figures: seq<string>, tokens: multiset<string>)
    ensures IsSubsequence(Cover(figures, tokens), figures)
    decreases |figures|
  {
    if figures != [] {
      if figures[0] in tokens {
        CoverIsSubsequence(figures[1..], tokens - multiset{figures[0]});
      } else {
        CoverIsSubsequence(figures[1..], tokens);
        assert Cover(figures, tokens)[1..] == Cover(figures[1..], tokens);
      }
    }
  }

  /** `a` can be obtained from `b` by deleting elements. */
  predicate IsSubsequence(a: seq<string>, b: seq<string>)
    decreases |b|
  {
    a == [] || (b != [] && ((a[0] == b[0] && IsSubsequence(a[1..], b[1..])) || IsSubsequence(a, b[1..])))
  }

  lemma {:induction false} CoverNothing(figures: seq<string>)
    ensures Cover(figures, multiset{}) == figures
    decreases |figures|
  {
    if figures != [] {
      CoverNothing(figures[1..]);
    }
  }

  /** The validator loop of `_write_story`: a copy of the figures shrinks by
      one `remove` per matching token and the scan stops once it is empty. */
  method MissingFigures(figures: seq<string>, tokens: seq<string>) returns (missing: seq<string>)
    ensures missing == Cover(figures, multiset(tokens))
  {
    missing := figures;
    var i := 0;
    CoverNothing(figures);
    assert tokens[..0] == [];
    while i < |tokens|
      invariant 0 <= i <= |tokens|
      invariant missing == Cover(figures, multiset(tokens[..i]))
    {
      var w := tokens[i];
      CoverNextToken(figures, tokens, i);
      RemoveFirstMultiset(missing, w);
      if w in missing {
        missing := RemoveFirst(missing, w);
        if missing == [] {
          CoverStaysEmpty(figures, tokens, i + 1);
          break;
        }
      }
      i := i + 1;
    }
    if i == |tokens| {
      assert tokens[..i] == tokens;
    }
  }

  lemma CoverNextToken(figures: seq<string>, tokens: seq<string>, i: nat)
    requires i < |tokens|
    ensures Cover(figures, multiset(tokens[..i + 1])) == RemoveFirst(Cover(figures, multiset(tokens[..i])), tokens[i])
  {
    assert tokens[..i + 1] == tokens[..i] + [tokens[i]];
    CoverAddToken(figures, multiset(tokens[..i]), tokens[i]);
  }

  /** Once every figure is matched, later tokens change nothing: the early
      `break` of the source's loop is sound. */
  lemma CoverStaysEmpty(figures: seq<string>, tokens: seq<string>, i: nat)
    requires i <= |tokens|
    requires Cover(figures, multiset(tokens[..i])) == []
    ensures Cover(figures, multiset(tokens)) == []
  {
    CoverEmptyIffContained(figures, multiset(tokens[..i]));
    assert tokens == tokens[..i] + tokens[i..];
    CoverEmptyIffContained(figures, multiset(tokens));
  }

  /** A figure that is empty or holds a space, a punctuation mark or an
      upper-case letter never equals a token, so it is reported missing
      whatever the text. */
  lemma UnreachableFigureAlwaysMissing(figures: seq<string>, text: string, f: string)
    requires f in figures
    requires f == [] || !IsNormalWord(f)
    ensures f in Cover(figures, multiset(Tokens(text)))
  {
    var tokens := Tokens(text);
    assert f !in tokens;
    assert multiset(tokens)[f] == 0;
    CoverMultiset(figures, multiset(tokens));
    assert multiset(Cover(figures, multiset(tokens)))[f] == multiset(figures)[f];
  }

  /** `w1 + ' ' + w2 + ' ' + ...`: how the 422 message lists what is missing. */
  function Unwords(words: seq<string>): string
  {
    if words == [] then [] else words[0] + " " + Unwords(words[1..])
  }

  lemma {:induction false} UnwordsSnoc(words: seq<string>, w: string)
    ensures Unwords(words + [w]) == Unwords(words) + w + " "
    decreases |words|
  {
    if words != [] {
      assert (words + [w])[1..] == words[1..] + [w];
      UnwordsSnoc(words[1..], w);
    }
  }

  const MissingPrefix: string := "Your story doesn't contain all the words. Missing: "

  /** The listing in the message can be read back: splitting it on
      whitespace gives the missing words again, when they are words a text
      could contain. */
  lemma {:induction false} SplitUnwords(words: seq<string>)
    requires forall w :: w in words ==> w != [] && forall c :: c in w ==> !IsWhitespace(c)
    ensures SplitWords(Unwords(words)) == words
    decreases |words|
  {
    if words != [] {
      var w, rest := words[0], words[1..];
      assert w in words;
      assert forall v :: v in rest ==> v in words;
      assert Unwords(words) == w + (" " + Unwords(rest));
      WordsFromWord(w, " " + Unwords(rest), []);
      assert [] + w == w;
      assert (" " + Unwords(rest))[1..] == Unwords(rest);
      SplitUnwords(rest);
    }
  }

  lemma {:induction false} WordsFromWord(w: string, s: string, cur: string)
    requires forall c :: c in cur ==> !IsWhitespace(c)
    requires forall c :: c in w ==> !IsWhitespace(c)
    ensures WordsFrom(w + s, cur) == WordsFrom(s, cur + w)
    decreases |w|
  {
    if w == [] {
      assert w + s == s && cur + w == cur;
    } else {
      assert w[0] in w;
      assert forall c :: c in w[1..] ==> c in w;
      assert (w + s)[0] == w[0];
      assert (w + s)[1..] == w[1..] + s;
      assert cur + w == (cur + [w[0]]) + w[1..];
      WordsFromWord(w[1..], s, cur + [w[0]]);
    }
  }

  /** A text already in normal form is left unchanged by `Normalize`. */
  lemma NormalizeFixed(text: string)
    requires forall c :: c in text ==> !IsPunctuation(c) && !IsUpper(c)
    ensures Normalize(text) == text
  {
    forall i | 0 <= i < |text| ensures Normalize(text)[i] == text[i] {
      assert text[i] in text;
    }
  }

  lemma {:induction false} UnwordsChars(words: seq<string>)
    requires forall w :: w in words ==> IsNormalWord(w)
    ensures forall c :: c in Unwords(words) ==> !IsPunctuation(c) && !IsUpper(c)
    decreases |words|
  {
    if words != [] {
      assert words[0] in words;
      assert forall w :: w in words[1..] ==> w in words;
      UnwordsChars(words[1..]);
    }
  }

  /** The validator reads exactly the words of a text: words in normal form,
      separated by spaces, are the tokens of that text, in order. */
  lemma TokensUnwords(words: seq<string>)
    requires forall w :: w in words ==> w != [] && IsNormalWord(w)
    ensures Tokens(Unwords(words)) == words
  {
    UnwordsChars(words);
    NormalizeFixed(Unwords(words));
    SplitUnwords(words);
  }

  /** A whitespace character ends the word being read and starts a new one. */
  lemma {:induction false} WordsFromSep(a: string, c: char, b: string, cur: string)
    requires forall x :: x in cur ==> !IsWhitespace(x)
    requires IsWhitespace(c)
    ensures WordsFrom(a + [c] + b, cur) == WordsFrom(a, cur) + WordsFrom(b, [])
    decreases |a|
  {
    var pre := if cur == [] then [] else [cur];
    if a == [] {
      assert a + [c] + b == [c] + b;
      assert ([c] + b)[1..] == b;
    } else {
      assert (a + [c] + b)[0] == a[0];
      assert (a + [c] + b)[1..] == a[1..] + [c] + b;
      if IsWhitespace(a[0]) {
        WordsFromSep(a[1..], c, b, []);
        assert pre + (WordsFrom(a[1..], []) + WordsFrom(b, [])) == (pre + WordsFrom(a[1..], [])) + WordsFrom(b, []);
      } else {
        WordsFromSep(a[1..], c, b, cur + [a[0]]);
      }
    }
  }

  /** `str.split()` breaks the text at every whitespace character: the words
      on either side of one are read independently. */
  lemma SplitWordsSep(a: string, c: char, b: string)
    requires IsWhitespace(c)
    ensures SplitWords(a + [c] + b) == SplitWords(a) + SplitWords(b)
  {
    WordsFromSep(a, c, b, []);
  }

  /** A non-empty run without whitespace is one word. Together with
      `SplitWordsSep` and `SplitWords("") == []` this fixes the words of every
      text. */
  lemma SplitWordsWord(w: string)
    requires w != [] && forall x :: x in w ==> !IsWhitespace(x)
    ensures SplitWords(w) == [w]
  {
    WordsFromWord(w, [], []);
    assert w + [] == w && [] + w == w;
  }
}
