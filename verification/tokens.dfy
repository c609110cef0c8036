/**
 Splitting the exclusion string into tokens, with the semantics of Python's
 `str.split(sep)` for a one-character separator: every separator ends a token,
 empty tokens are kept, and the empty string gives one empty token.
 */
module Tokens {

  const Comma: char := ','

  /** Number of occurrences of `c` in `s`. */
  function Count(s: string, c: char): nat
  {
    if |s| == 0 then 0
    else (if s[0] == c then 1 else 0) + Count(s[1..], c)
  }

  /** The tokens of `s` between occurrences of `sep`. */
  function Split(s: string, sep: char): (tokens: seq<string>)
    ensures |tokens| == Count(s, sep) + 1
    ensures forall i :: 0 <= i < |tokens| ==> sep !in tokens[i]
    decreases |s|
  {
    if |s| == 0 then [""]
    else
      var rest := Split(s[1..], sep);
      if s[0] == sep then [""] + rest
      else [[s[0]] + rest[0]] + rest[1..]
  }

  /** The inverse of `Split`: Python's `sep.join(tokens)`. */
  function Join(tokens: seq<string>, sep: char): string
  {
    if |tokens| == 0 then ""
    else if |tokens| == 1 then tokens[0]
    else tokens[0] + [sep] + Join(tokens[1..], sep)
  }

  /** Joining the tokens with the separator gives back the original string. */
  lemma {:induction false} JoinSplit(s: string, sep: char)
    ensures Join(Split(s, sep), sep) == s
    decreases |s|
  {
    if |s| > 0 {
      var rest := Split(s[1..], sep);
      JoinSplit(s[1..], sep);
      if s[0] == sep {
        assert Split(s, sep) == [""] + rest;
        assert ([""] + rest)[1..] == rest;
        assert s == [sep] + s[1..];
      } else if |rest| == 1 {
        assert Split(s, sep) == [[s[0]] + rest[0]];
        assert s == [s[0]] + s[1..];
      } else {
        var tokens := [[s[0]] + rest[0]] + rest[1..];
        assert Split(s, sep) == tokens;
        assert tokens[1..] == rest[1..];
        assert Join(rest, sep) == rest[0] + [sep] + Join(rest[1..], sep);
        assert s == [s[0]] + s[1..];
      }
    }
  }

  /** A token free of the separator splits to itself. */
  lemma {:induction false} SplitPlain(a: string, sep: char)
    requires sep !in a
    ensures Split(a, sep) == [a]
    decreases |a|
  {
    if |a| > 0 {
      SplitPlain(a[1..], sep);
      assert a == [a[0]] + a[1..];
    }
  }

  /** A separator after a plain token ends exactly that token. */
  lemma {:induction false} SplitAfterToken(a: string, sep: char, b: string)
    requires sep !in a
    ensures Split(a + [sep] + b, sep) == [a] + Split(b, sep)
    decreases |a|
  {
    var s := a + [sep] + b;
    if |a| == 0 {
      assert s[1..] == b;
    } else {
      assert s[1..] == a[1..] + [sep] + b;
      SplitAfterToken(a[1..], sep, b);
      assert a == [a[0]] + a[1..];
    }
  }

  /** Splitting a join of separator-free tokens gives the tokens back. */
  lemma {:induction false} SplitJoin(tokens: seq<string>, sep: char)
    requires |tokens| >= 1
    requires forall i :: 0 <= i < |tokens| ==> sep !in tokens[i]
    ensures Split(Join(tokens, sep), sep) == tokens
    decreases |tokens|
  {
    if |tokens| == 1 {
      SplitPlain(tokens[0], sep);
    } else {
      SplitJoin(tokens[1..], sep);
      SplitAfterToken(tokens[0], sep, Join(tokens[1..], sep));
      assert tokens == [tokens[0]] + tokens[1..];
    }
  }
}
