/** Splitting an input line into tokens the way `strtok(line, " ")` followed by
    repeated `strtok(NULL, " ")` does: the only delimiter is the space
    character, runs of spaces separate tokens, and no token is empty. */
module Tokenizer {

  const Delimiter: char := ' '

  /** What `strtok` can return: a non-empty string without the delimiter. */
  predicate IsToken(t: string) {
    |t| > 0 && Delimiter !in t
  }

  /** A line that holds nothing but spaces (or nothing at all). */
  predicate IsBlank(s: string) {
    forall i :: 0 <= i < |s| ==> s[i] == Delimiter
  }

  /** Length of the token at the start of `s`: up to the first delimiter. */
  function WordLength(s: string): (n: nat)
    ensures n <= |s|
    ensures forall i :: 0 <= i < n ==> s[i] != Delimiter
    ensures n == |s| || s[n] == Delimiter
  {
    if |s| == 0 || s[0] == Delimiter then 0 else 1 + WordLength(s[1..])
  }

  /** The tokens of `s`, in order. */
  function Split(s: string): (tokens: seq<string>)
    ensures forall i :: 0 <= i < |tokens| ==> IsToken(tokens[i])
    ensures tokens == [] <==> IsBlank(s)
    decreases |s|
  {
    if |s| == 0 then []
    else if s[0] == Delimiter then
      assert IsBlank(s) <==> IsBlank(s[1..]) by {
        if IsBlank(s[1..]) {
          forall i | 0 <= i < |s| ensures s[i] == Delimiter {
            if i > 0 { assert s[i] == s[1..][i - 1]; }
          }
        }
      }
      Split(s[1..])
    else
      var n := WordLength(s);
      [s[..n]] + Split(s[n..])
  }

  /** The tokens separated by single spaces. */
  function Join(tokens: seq<string>): string
  {
    if |tokens| == 0 then ""
    else if |tokens| == 1 then tokens[0]
    else tokens[0] + [Delimiter] + Join(tokens[1..])
  }

  /** All tokens run together. */
  function Concat(tokens: seq<string>): string
  {
    if |tokens| == 0 then "" else tokens[0] + Concat(tokens[1..])
  }

  /** The line with every delimiter removed. */
  function Squeeze(s: string): string
  {
    if |s| == 0 then ""
    else if s[0] == Delimiter then Squeeze(s[1..])
    else [s[0]] + Squeeze(s[1..])
  }

  /** A token followed by a delimiter (or nothing) is one whole token. */
  lemma {:induction false} WordLengthOfToken(t: string, rest: string)
    requires IsToken(t)
    requires |rest| == 0 || rest[0] == Delimiter
    ensures WordLength(t + rest) == |t|
    decreases |t|
  {
    assert t[0] in t;
    assert (t + rest)[1..] == t[1..] + rest;
    if |t| == 1 {
      assert t[1..] + rest == rest;
    } else {
      assert Delimiter !in t[1..];
      WordLengthOfToken(t[1..], rest);
    }
  }

  /** Splitting a line rebuilt from tokens gives those tokens back. */
  lemma {:induction false} SplitJoin(tokens: seq<string>)
    requires forall i :: 0 <= i < |tokens| ==> IsToken(tokens[i])
    ensures Split(Join(tokens)) == tokens
  {
    if |tokens| == 1 {
      SplitToken(tokens[0], "");
      assert tokens[0] + "" == tokens[0];
    } else if |tokens| > 1 {
      var t := tokens[0];
      var rest := [Delimiter] + Join(tokens[1..]);
      assert Join(tokens) == t + rest;
      SplitToken(t, rest);
      SplitSkip(rest);
      assert rest[1..] == Join(tokens[1..]);
      SplitJoin(tokens[1..]);
    }
  }

  /** A token followed by a delimiter (or nothing) comes out whole. */
  lemma SplitToken(t: string, rest: string)
    requires IsToken(t)
    requires |rest| == 0 || rest[0] == Delimiter
    ensures Split(t + rest) == [t] + Split(rest)
  {
    var s := t + rest;
    WordLengthOfToken(t, rest);
    assert s[0] == t[0] && t[0] in t;
    assert s[..|t|] == t;
    assert s[|t|..] == rest;
  }

  /** A leading delimiter is skipped. */
  lemma SplitSkip(s: string)
    requires |s| > 0 && s[0] == Delimiter
    ensures Split(s) == Split(s[1..])
  {
  }

  /** A word ends at the first delimiter: text after a delimiter does not
      lengthen the word before it. */
  lemma {:induction false} WordLengthBeforeDelimiter(a: string, rest: string)
    requires |rest| > 0 && rest[0] == Delimiter
    ensures WordLength(a + rest) == WordLength(a)
    decreases |a|
  {
    if |a| == 0 {
      assert a + rest == rest;
    } else {
      assert (a + rest)[0] == a[0];
      if a[0] != Delimiter {
        assert (a + rest)[1..] == a[1..] + rest;
        WordLengthBeforeDelimiter(a[1..], rest);
      }
    }
  }

  /** A space always ends a token: the tokens of a line with a space in it
      are the tokens before that space followed by the tokens after it.
      With `SplitJoin` for one token and the blank case of `Split`, this
      fixes the tokens of every line. */
  lemma {:induction false} SplitAtSpace(a: string, b: string)
    ensures Split(a + [Delimiter] + b) == Split(a) + Split(b)
    decreases |a|
  {
    if |a| == 0 {
      assert a + [Delimiter] + b == [Delimiter] + b;
      SplitSkip([Delimiter] + b);
      assert ([Delimiter] + b)[1..] == b;
    } else if a[0] == Delimiter {
      SpaceBeforeSpace(a, b);
      SplitAtSpace(a[1..], b);
    } else {
      WordBeforeSpace(a, b);
      SplitAtSpace(a[WordLength(a)..], b);
    }
  }

  /** A leading space is skipped both with and without the text after `a`. */
  lemma SpaceBeforeSpace(a: string, b: string)
    requires |a| > 0 && a[0] == Delimiter
    ensures Split(a + [Delimiter] + b) == Split(a[1..] + [Delimiter] + b)
    ensures Split(a) == Split(a[1..])
  {
    var s := a + [Delimiter] + b;
    assert s[0] == Delimiter;
    SplitSkip(s);
    SplitSkip(a);
    assert s[1..] == a[1..] + [Delimiter] + b;
  }

  /** The word `a` starts with comes out whole, both with and without the
      text after `a`. */
  lemma WordBeforeSpace(a: string, b: string)
    requires |a| > 0 && a[0] != Delimiter
    ensures var n := WordLength(a);
      && Split(a + [Delimiter] + b) == [a[..n]] + Split(a[n..] + [Delimiter] + b)
      && Split(a) == [a[..n]] + Split(a[n..])
  {
    var n := WordLength(a);
    var tail := [Delimiter] + b;
    var s := a + tail;
    assert a + [Delimiter] + b == s;
    WordLengthBeforeDelimiter(a, tail);
    assert s[0] == a[0];
    SplitWord(s);
    SplitWord(a);
    SliceAppend(a, tail, n);
    assert a[n..] + tail == a[n..] + [Delimiter] + b;
  }

  /** A line that starts with a word: that word, then the tokens after it. */
  lemma SplitWord(s: string)
    requires |s| > 0 && s[0] != Delimiter
    ensures Split(s) == [s[..WordLength(s)]] + Split(s[WordLength(s)..])
  {
  }

  lemma SliceAppend(a: string, tail: string, n: nat)
    requires n <= |a|
    ensures (a + tail)[..n] == a[..n] && (a + tail)[n..] == a[n..] + tail
  {
  }

  lemma {:induction false} SqueezeAppend(a: string, b: string)
    ensures Squeeze(a + b) == Squeeze(a) + Squeeze(b)
    decreases |a|
  {
    if |a| == 0 {
      assert a + b == b;
    } else {
      assert (a + b)[0] == a[0];
      assert (a + b)[1..] == a[1..] + b;
      SqueezeAppend(a[1..], b);
    }
  }

  lemma {:induction false} SqueezeWord(w: string)
    requires forall i :: 0 <= i < |w| ==> w[i] != Delimiter
    ensures Squeeze(w) == w
    decreases |w|
  {
    if |w| > 0 {
      SqueezeWord(w[1..]);
      assert w == [w[0]] + w[1..];
    }
  }

  /** Tokenizing loses and invents no character other than the delimiter:
      the tokens run together are the line with its spaces taken out. */
  lemma {:induction false} SplitKeepsText(s: string)
    ensures Concat(Split(s)) == Squeeze(s)
    decreases |s|
  {
    if |s| > 0 {
      if s[0] == Delimiter {
        SplitKeepsText(s[1..]);
      } else {
        var n := WordLength(s);
        var tokens := Split(s);
        assert tokens == [s[..n]] + Split(s[n..]);
        assert tokens[1..] == Split(s[n..]);
        SplitKeepsText(s[n..]);
        assert s == s[..n] + s[n..];
        SqueezeAppend(s[..n], s[n..]);
        SqueezeWord(s[..n]);
      }
    }
  }
}
