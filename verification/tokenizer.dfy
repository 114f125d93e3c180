/**
 The whitespace tokenizer every other component consumes.

 A line of text is split at the space character ' ' only; every other
 character, tabs and control characters included, stays inside a token.
 `Words` is the reference definition (the maximal space-free runs of the
 text, left to right); the method `SplitIntoWords` is the source's
 single-pass loop with a word accumulator, proved to compute `Words`.
 */
module Tokenizer {

  /** A token: non-empty and free of spaces. */
  predicate IsWord(w: string) {
    w != [] && ' ' !in w
  }

  /** Length of the leading run of non-space characters of `s`. */
  function RunLength(s: string): (n: nat)
    ensures n <= |s|
    ensures forall i :: 0 <= i < n ==> s[i] != ' '
    ensures n == |s| || s[n] == ' '
  {
    if s == [] || s[0] == ' ' then 0 else 1 + RunLength(s[1..])
  }

  /** The maximal runs of non-space characters of `s`, in order. */
  function Words(s: string): (r: seq<string>)
    ensures forall i :: 0 <= i < |r| ==> IsWord(r[i])
    decreases |s|
  {
    if s == [] then []
    else if s[0] == ' ' then Words(s[1..])
    else
      var n := RunLength(s);
      [s[..n]] + Words(s[n..])
  }

  /** The characters of `s` that are not spaces, in order. */
  function NonSpace(s: string): string {
    if s == [] then []
    else (if s[0] == ' ' then [] else [s[0]]) + NonSpace(s[1..])
  }

  /** The tokens glued back together with nothing in between. */
  function Concat(ws: seq<string>): string {
    if ws == [] then [] else ws[0] + Concat(ws[1..])
  }

  /** The tokens joined by single spaces. */
  function JoinWithSpaces(ws: seq<string>): string {
    if ws == [] then []
    else if |ws| == 1 then ws[0]
    else ws[0] + " " + JoinWithSpaces(ws[1..])
  }

  /** The source's loop: one pass over the characters, flushing the
      accumulated word at each space and once more at the end. */
  method SplitIntoWords(text: string) returns (words: seq<string>)
    ensures words == Words(text)
  {
    words := [];
    var word: string := [];
    assert word + text[0..] == text;
    for i := 0 to |text|
      invariant ' ' !in word
      invariant words + Words(word + text[i..]) == Words(text)
    {
      var c := text[i];
      assert text[i..] == [c] + text[i + 1..];
      ScanKeepsTokens(words, word, c, text[i + 1..], Words(text));
      if c == ' ' {
        if word != [] {
          words := words + [word];
          word := [];
        }
      } else {
        word := word + [c];
      }
    }
    assert word + text[|text|..] == word;
    if word != [] {
      WordsOfWord(word);
      words := words + [word];
    }
  }

  /** One character of the loop keeps its invariant: the tokens found so
      far followed by those still to come are all the tokens `whole`. */
  lemma ScanKeepsTokens(words: seq<string>, word: string, c: char, rest: string, whole: seq<string>)
    requires ' ' !in word
    requires words + Words(word + ([c] + rest)) == whole
    ensures c == ' ' && word != [] ==> (words + [word]) + Words([] + rest) == whole
    ensures c == ' ' && word == [] ==> words + Words(word + rest) == whole
    ensures c != ' ' ==> words + Words((word + [c]) + rest) == whole
  {
    ScanStep(word, c, rest);
    if c == ' ' && word != [] {
      assert (words + [word]) + Words([] + rest) == words + ([word] + Words([] + rest));
    }
  }

  /** What one character does to the tokens still to come: a space after
      a pending word flushes it, a space with no pending word is
      skipped, any other character extends the pending word. */
  lemma ScanStep(word: string, c: char, rest: string)
    requires ' ' !in word
    ensures c == ' ' && word != [] ==> Words(word + ([c] + rest)) == [word] + Words([] + rest)
    ensures c == ' ' && word == [] ==> Words(word + ([c] + rest)) == Words(word + rest)
    ensures c != ' ' ==> Words(word + ([c] + rest)) == Words((word + [c]) + rest)
  {
    assert [] + rest == rest;
    if c == ' ' {
      if word != [] {
        WordsOfSplit(word, rest);
        assert word + ([c] + rest) == word + " " + rest;
        WordsOfWord(word);
      } else {
        assert word + ([c] + rest) == [c] + rest;
        assert ([c] + rest)[1..] == rest;
        assert word + rest == rest;
      }
    } else {
      assert (word + [c]) + rest == word + ([c] + rest);
    }
  }

  /** A space in the middle splits the tokens of the two sides apart. */
  lemma {:induction false} WordsOfSplit(a: string, b: string)
    ensures Words(a + " " + b) == Words(a) + Words(b)
    decreases |a|
  {
    var s := a + " " + b;
    if a == [] {
      assert s[1..] == b;
    } else if a[0] == ' ' {
      assert s[1..] == a[1..] + " " + b;
      WordsOfSplit(a[1..], b);
    } else {
      var n := RunLength(a);
      RunLengthOfPrefix(a, " " + b);
      assert s == a + (" " + b);
      assert s[..n] == a[..n];
      assert s[n..] == a[n..] + " " + b;
      WordsOfSplit(a[n..], b);
    }
  }

  /** Appending text after a space-terminated (or complete) run leaves the run unchanged. */
  lemma {:induction false} RunLengthOfPrefix(a: string, b: string)
    requires b == [] || b[0] == ' '
    ensures RunLength(a + b) == RunLength(a)
    decreases |a|
  {
    if a == [] {
      assert a + b == b;
    } else {
      assert (a + b)[1..] == a[1..] + b;
      if a[0] != ' ' {
        RunLengthOfPrefix(a[1..], b);
      }
    }
  }

  /** A non-empty text with no space is a single token. */
  lemma WordsOfWord(w: string)
    requires IsWord(w)
    ensures Words(w) == [w]
  {
    RunLengthOfSpaceFree(w);
    assert w[..|w|] == w;
    assert Words(w[|w|..]) == [];
  }

  lemma {:induction false} RunLengthOfSpaceFree(w: string)
    requires ' ' !in w
    ensures RunLength(w) == |w|
    decreases |w|
  {
    if w != [] {
      assert ' ' !in w[1..] by {
        forall i | 0 <= i < |w[1..]| ensures w[1..][i] != ' ' {
          assert w[1..][i] == w[i + 1];
        }
      }
      RunLengthOfSpaceFree(w[1..]);
    }
  }

  /** Empty or all-space text, and only that, yields no tokens. */
  lemma {:induction false} WordsEmptyIffAllSpaces(s: string)
    ensures Words(s) == [] <==> forall i :: 0 <= i < |s| ==> s[i] == ' '
    decreases |s|
  {
    if s != [] && s[0] == ' ' {
      WordsEmptyIffAllSpaces(s[1..]);
      assert forall i :: 1 <= i < |s| ==> s[i] == s[1..][i - 1];
    }
  }

  lemma {:induction false} NonSpaceAppend(a: string, b: string)
    ensures NonSpace(a + b) == NonSpace(a) + NonSpace(b)
    decreases |a|
  {
    if a == [] {
      assert a + b == b;
    } else {
      assert (a + b)[1..] == a[1..] + b;
      NonSpaceAppend(a[1..], b);
    }
  }

  lemma {:induction false} NonSpaceOfSpaceFree(a: string)
    requires ' ' !in a
    ensures NonSpace(a) == a
    decreases |a|
  {
    if a != [] {
      assert ' ' !in a[1..] by {
        forall i | 0 <= i < |a[1..]| ensures a[1..][i] != ' ' {
          assert a[1..][i] == a[i + 1];
        }
      }
      NonSpaceOfSpaceFree(a[1..]);
      assert a == [a[0]] + a[1..];
    }
  }

  /** The tokens, glued together, are exactly the non-space characters of
      the text; in particular their total length is the number of
      non-space characters. */
  lemma {:induction false} WordsCoverNonSpace(s: string)
    ensures Concat(Words(s)) == NonSpace(s)
    ensures |Concat(Words(s))| == |NonSpace(s)|
    decreases |s|
  {
    if s == [] {
    } else if s[0] == ' ' {
      WordsCoverNonSpace(s[1..]);
    } else {
      var n := RunLength(s);
      WordsCoverNonSpace(s[n..]);
      assert s == s[..n] + s[n..];
      NonSpaceAppend(s[..n], s[n..]);
      NonSpaceOfSpaceFree(s[..n]);
      assert Words(s)[1..] == Words(s[n..]);
    }
  }

  /** Tokens joined by single spaces split back into the same tokens. */
  lemma {:induction false} SplitJoinRoundTrip(ws: seq<string>)
    requires forall i :: 0 <= i < |ws| ==> IsWord(ws[i])
    ensures Words(JoinWithSpaces(ws)) == ws
    decreases |ws|
  {
    if ws == [] {
    } else if |ws| == 1 {
      WordsOfWord(ws[0]);
    } else {
      SplitJoinRoundTrip(ws[1..]);
      WordsOfSplit(ws[0], JoinWithSpaces(ws[1..]));
      WordsOfWord(ws[0]);
      assert ws == [ws[0]] + ws[1..];
    }
  }
}
