/** Splitting a sequence at a separator, as Go's strings.Split does for a one-character separator. */
module Splitting {
  /** The pieces of s between the occurrences of the separator. */
  function Split<T(==)>(s: seq<T>, sep: T): (parts: seq<seq<T>>)
    ensures parts != []
    ensures s != [] && s[0] != sep ==> parts[0] != [] && parts[0][0] == s[0]
  {
    if s == [] then [[]] else
      var rest := Split(s[1..], sep);
      if s[0] == sep then [[]] + rest else [[s[0]] + rest[0]] + rest[1..]
  }

  lemma {:induction false} SplitWithout<T>(s: seq<T>, sep: T)
    ensures sep !in s <==> |Split(s, sep)| == 1
    ensures sep !in s ==> Split(s, sep) == [s]
  {
    if s != [] {
      SplitWithout(s[1..], sep);
      assert s == [s[0]] + s[1..];
    }
  }

  /** Putting a letter in front opens a new piece or extends the first one. */
  function Extended<T(==)>(c: T, parts: seq<seq<T>>, sep: T): seq<seq<T>>
    requires parts != []
  {
    if c == sep then [[]] + parts else [[c] + parts[0]] + parts[1..]
  }

  lemma SplitCons<T>(c: T, s: seq<T>, sep: T)
    ensures Split([c] + s, sep) == Extended(c, Split(s, sep), sep)
  {
    assert ([c] + s)[1..] == s;
  }

  lemma ExtendedConcat<T>(c: T, p: seq<seq<T>>, q: seq<seq<T>>, sep: T)
    requires p != []
    ensures Extended(c, p + q, sep) == Extended(c, p, sep) + q
  {
  }

  lemma {:induction false} SplitConcat<T>(a: seq<T>, sep: T, b: seq<T>)
    ensures Split(a + [sep] + b, sep) == Split(a, sep) + Split(b, sep)
  {
    if a == [] {
      assert a + [sep] + b == [sep] + b;
      SplitCons(sep, b, sep);
    } else {
      hide Split, Extended;
      var c, rest := a[0], a[1..];
      assert a == [c] + rest && a + [sep] + b == [c] + (rest + [sep] + b);
      SplitConcat(rest, sep, b);
      SplitCons(c, rest, sep);
      SplitCons(c, rest + [sep] + b, sep);
      ExtendedConcat(c, Split(rest, sep), Split(b, sep), sep);
    }
  }

  /** The text in front of the first separator is determined by the whole. */
  lemma FrontUnique<T>(a: seq<T>, x: seq<T>, b: seq<T>, y: seq<T>, sep: T)
    requires sep !in a && sep !in b && a + [sep] + x == b + [sep] + y
    ensures a == b && x == y
  {
    SplitConcat(a, sep, x);
    SplitConcat(b, sep, y);
    SplitWithout(a, sep);
    SplitWithout(b, sep);
    assert Split(a + [sep] + x, sep)[0] == a && Split(b + [sep] + y, sep)[0] == b;
    assert x == (a + [sep] + x)[|a| + 1..];
    assert y == (b + [sep] + y)[|b| + 1..];
  }
}
