/** The two string operations the scripts lean on: splitting at a one-character
    separator (String.prototype.split) and joining with one (Array.prototype.join). */
module Strings {

  /** Splits `s` at every occurrence of `sep`, as String.prototype.split does
      with a one-character separator: there is always at least one part. */
  function Split(s: string, sep: char): (parts: seq<string>)
    ensures |parts| >= 1
  {
    if s == [] then [""]
    else if s[0] == sep then [""] + Split(s[1..], sep)
    else
      var rest := Split(s[1..], sep);
      [[s[0]] + rest[0]] + rest[1..]
  }

  /** No part of a split contains the separator. */
  lemma {:induction false} SplitPartsExcludeSeparator(s: string, sep: char)
    ensures forall i :: 0 <= i < |Split(s, sep)| ==> sep !in Split(s, sep)[i]
  {
    if s != [] {
      SplitPartsExcludeSeparator(s[1..], sep);
      var rest := Split(s[1..], sep);
      if s[0] != sep {
        var parts := Split(s, sep);
        assert parts == [[s[0]] + rest[0]] + rest[1..];
        forall i | 0 <= i < |parts| ensures sep !in parts[i] {
          if i > 0 {
            assert parts[i] == rest[i];
          }
        }
      }
    }
  }

  /** Joins `words` with `sep` between consecutive words, as Array.prototype.join
      does; the first word is always a prefix of the result. */
  function JoinWith(words: seq<string>, sep: char): (s: string)
    ensures |words| > 0 ==> words[0] <= s
  {
    if |words| == 0 then ""
    else if |words| == 1 then words[0]
    else words[0] + [sep] + JoinWith(words[1..], sep)
  }

  /** Joining one more word appends the separator and the word. */
  lemma {:induction false} JoinSnoc(words: seq<string>, w: string, sep: char)
    requires |words| >= 1
    ensures JoinWith(words + [w], sep) == JoinWith(words, sep) + [sep] + w
  {
    if |words| == 1 {
      assert (words + [w])[1..] == [w];
    } else {
      assert (words + [w])[1..] == words[1..] + [w];
      JoinSnoc(words[1..], w, sep);
    }
  }

  /** Splitting a string that starts with `c`: a separator opens a new part,
      any other character joins the first part. */
  lemma SplitCons(c: char, rest: string, sep: char)
    ensures Split([c] + rest, sep)
         == if c == sep then [""] + Split(rest, sep)
            else [[c] + Split(rest, sep)[0]] + Split(rest, sep)[1..]
  {
    assert ([c] + rest)[0] == c && ([c] + rest)[1..] == rest;
  }

  /** Splitting distributes over a separator placed between two strings. */
  lemma {:induction false} SplitConcat(a: string, b: string, sep: char)
    ensures Split(a + [sep] + b, sep) == Split(a, sep) + Split(b, sep)
  {
    if a == [] {
      assert a + [sep] + b == [sep] + b;
      SplitCons(sep, b, sep);
    } else {
      var c, a' := a[0], a[1..];
      assert a + [sep] + b == [c] + (a' + [sep] + b);
      assert a == [c] + a';
      SplitConcat(a', b, sep);
      if c == sep {
        SplitConcatAtSeparator(a', b, sep);
      } else {
        SplitConcatAtOther(c, a', b, sep);
      }
    }
  }

  lemma SplitConcatAtSeparator(a': string, b: string, sep: char)
    requires Split(a' + [sep] + b, sep) == Split(a', sep) + Split(b, sep)
    ensures Split([sep] + (a' + [sep] + b), sep) == Split([sep] + a', sep) + Split(b, sep)
  {
    var ra, rb := Split(a', sep), Split(b, sep);
    calc {
      Split([sep] + (a' + [sep] + b), sep);
    == { SplitConsSeparator(a' + [sep] + b, sep); }
      [""] + (ra + rb);
    ==
      ([""] + ra) + rb;
    == { SplitConsSeparator(a', sep); }
      Split([sep] + a', sep) + rb;
    }
  }

  lemma SplitConsSeparator(rest: string, sep: char)
    ensures Split([sep] + rest, sep) == [""] + Split(rest, sep)
  {
    SplitCons(sep, rest, sep);
  }

  lemma SplitConcatAtOther(c: char, a': string, b: string, sep: char)
    requires c != sep
    requires Split(a' + [sep] + b, sep) == Split(a', sep) + Split(b, sep)
    ensures Split([c] + (a' + [sep] + b), sep) == Split([c] + a', sep) + Split(b, sep)
  {
    var ra, rb := Split(a', sep), Split(b, sep);
    calc {
      Split([c] + (a' + [sep] + b), sep);
    == { SplitConsOther(c, a' + [sep] + b, sep); }
      [[c] + (ra + rb)[0]] + (ra + rb)[1..];
    == { HeadOfConcat(ra, rb); }
      [[c] + ra[0]] + (ra[1..] + rb);
    ==
      ([[c] + ra[0]] + ra[1..]) + rb;
    == { SplitConsOther(c, a', sep); }
      Split([c] + a', sep) + rb;
    }
  }

  lemma SplitConsOther(c: char, rest: string, sep: char)
    requires c != sep
    ensures Split([c] + rest, sep) == [[c] + Split(rest, sep)[0]] + Split(rest, sep)[1..]
  {
    SplitCons(c, rest, sep);
  }

  lemma HeadOfConcat(x: seq<string>, y: seq<string>)
    requires |x| >= 1
    ensures (x + y)[0] == x[0] && (x + y)[1..] == x[1..] + y
  {
  }

  /** A string without the separator splits into itself alone. */
  lemma {:induction false} SplitWithoutSeparator(w: string, sep: char)
    requires sep !in w
    ensures Split(w, sep) == [w]
  {
    if w != [] {
      assert sep !in w[1..];
      SplitWithoutSeparator(w[1..], sep);
      assert [w[0]] + w[1..] == w;
    }
  }

  /** Joining separator-free words and splitting the result gives the words back. */
  lemma {:induction false} SplitJoin(words: seq<string>, sep: char)
    requires |words| >= 1
    requires forall i :: 0 <= i < |words| ==> sep !in words[i]
    ensures Split(JoinWith(words, sep), sep) == words
  {
    SplitWithoutSeparator(words[0], sep);
    if |words| > 1 {
      SplitJoin(words[1..], sep);
      SplitConcat(words[0], JoinWith(words[1..], sep), sep);
      assert [words[0]] + words[1..] == words;
    }
  }
}
