/** How a story stores its required words ("figures"): the words joined
    with '#' and framed by one '#' on each side (`'#' + '#'.join(ws) + '#'`),
    and read back with `split('#')[1:-1]`. */
module Figures {

  const Delimiter: char := '#'

  /** Python's `sep.join(words)`. */
  function Join(words: seq<string>, sep: char): string
  {
    if words == [] then []
    else if |words| == 1 then words[0]
    else words[0] + [sep] + Join(words[1..], sep)
  }

  /** Python's `s.split(sep)`: the pieces between separators, always at
      least one, none holding the separator. */
  function SplitOn(s: string, sep: char): (parts: seq<string>)
    ensures |parts| >= 1
    ensures forall p :: p in parts ==> sep !in p
    decreases |s|
  {
    if s == [] then [[]]
    else
      var rest := SplitOn(s[1..], sep);
      if s[0] == sep then [[]] + rest
      else
        assert forall c :: c in [s[0]] + rest[0] ==> c == s[0] || c in rest[0];
        [[s[0]] + rest[0]] + rest[1..]
  }

  /** Writing a story's figures (stories.py lines 140 and 179). */
  function Encode(words: seq<string>): (r: string)
    ensures |r| >= 2 && r[0] == Delimiter && r[|r| - 1] == Delimiter
  {
    [Delimiter] + Join(words, Delimiter) + [Delimiter]
  }

  /** Reading a story's figures (stories.py lines 110-111 and 201-202);
      `[1:-1]` of a one-piece list is empty. */
  function Decode(s: string): (r: seq<string>)
    ensures forall w :: w in r ==> Delimiter !in w
  {
    var parts := SplitOn(s, Delimiter);
    if |parts| < 2 then [] else parts[1..|parts| - 1]
  }

  /** A separator splits the text into what lies on either side of it. */
  lemma {:induction false} SplitConcat(a: string, b: string, sep: char)
    ensures SplitOn(a + [sep] + b, sep) == SplitOn(a, sep) + SplitOn(b, sep)
    decreases |a|
  {
    if a == [] {
      assert a + [sep] + b == [sep] + b;
      assert ([sep] + b)[1..] == b;
    } else {
      var s := a + [sep] + b;
      assert s[0] == a[0];
      assert s[1..] == a[1..] + [sep] + b;
      SplitConcat(a[1..], b, sep);
    }
  }

  lemma {:induction false} SplitWord(w: string, sep: char)
    requires sep !in w
    ensures SplitOn(w, sep) == [w]
    decreases |w|
  {
    if w != [] {
      assert forall c :: c in w[1..] ==> c in w;
      SplitWord(w[1..], sep);
      assert w == [w[0]] + w[1..];
    }
  }

  /** Splitting undoes joining when no word holds the separator and there is
      at least one word. */
  lemma {:induction false} SplitJoin(words: seq<string>, sep: char)
    requires |words| >= 1
    requires forall w :: w in words ==> sep !in w
    ensures SplitOn(Join(words, sep), sep) == words
    decreases |words|
  {
    SplitWord(words[0], sep);
    if |words| > 1 {
      assert forall w :: w in words[1..] ==> w in words;
      SplitConcat(words[0], Join(words[1..], sep), sep);
      SplitJoin(words[1..], sep);
      assert words == [words[0]] + words[1..];
    }
  }

  /** Joining undoes splitting, for every text. */
  lemma {:induction false} JoinSplit(s: string, sep: char)
    ensures Join(SplitOn(s, sep), sep) == s
    decreases |s|
  {
    if s != [] {
      var rest := SplitOn(s[1..], sep);
      JoinSplit(s[1..], sep);
      assert s == [s[0]] + s[1..];
      if s[0] != sep {
        if |rest| > 1 {
          assert Join(rest, sep) == rest[0] + [sep] + Join(rest[1..], sep);
          assert ([[s[0]] + rest[0]] + rest[1..])[1..] == rest[1..];
        }
      } else {
        assert ([[]] + rest)[1..] == rest;
      }
    }
  }

  /** Round trip of the stored figures: a non-empty list of words without
      '#' is read back unchanged. */
  lemma DecodeEncode(words: seq<string>)
    requires |words| >= 1
    requires forall w :: w in words ==> Delimiter !in w
    ensures Decode(Encode(words)) == words
  {
    var j := Join(words, Delimiter);
    assert Encode(words) == [] + [Delimiter] + (j + [Delimiter] + []);
    SplitConcat([], j + [Delimiter] + [], Delimiter);
    SplitConcat(j, [], Delimiter);
    SplitJoin(words, Delimiter);
    var parts := SplitOn(Encode(words), Delimiter);
    assert parts == [[]] + (words + [[]]);
  }

  /** The other round trip: a field framed by '#' on both sides is written
      back exactly as it was read. */
  lemma EncodeDecode(s: string)
    requires |s| >= 2 && s[0] == Delimiter && s[|s| - 1] == Delimiter
    ensures Encode(Decode(s)) == s
  {
    var m := s[1..|s| - 1];
    assert s == [] + [Delimiter] + (m + [Delimiter] + []);
    SplitConcat([], m + [Delimiter] + [], Delimiter);
    SplitConcat(m, [], Delimiter);
    var parts := SplitOn(s, Delimiter);
    assert parts == [[]] + (SplitOn(m, Delimiter) + [[]]);
    assert Decode(s) == SplitOn(m, Delimiter);
    JoinSplit(m, Delimiter);
  }

  /** The empty list does not survive the round trip: it is written as "##",
      which reads back as one empty word (and so counts as one figure). */
  lemma EncodeEmptyDecodesToBlank()
    ensures Encode([]) == "##"
    ensures Decode(Encode([])) == [""]
    ensures Encode([]) == Encode([""])
  {
    SplitConcat([], [Delimiter], Delimiter);
    SplitConcat([], [], Delimiter);
    assert [Delimiter] == [] + [Delimiter] + [];
  }
}
