/**
 * Python's `str.split(sep)` with a one-character separator, and the join
 * it inverts. Splitting never drops empty pieces: `"".split("-")` is
 * `[""]` and `"a--b".split("-")` is `["a", "", "b"]`.
 */
module Strings {

  /** `sep.join(parts)`. */
  function Join(parts: seq<string>, sep: char): string
    requires |parts| >= 1
    decreases |parts|
  {
    if |parts| == 1 then parts[0] else parts[0] + [sep] + Join(parts[1..], sep)
  }

  /** `s.split(sep)`: the pieces between separators, at least one of them. */
  function Split(s: string, sep: char): (r: seq<string>)
    ensures |r| >= 1
    ensures forall i :: 0 <= i < |r| ==> sep !in r[i]
    ensures Join(r, sep) == s
    decreases |s|
  {
    if s == [] then
      [[]]
    else
      var rest := Split(s[1..], sep);
      if s[0] == sep then
        assert ([[]] + rest)[1..] == rest;
        [[]] + rest
      else
        var r := [[s[0]] + rest[0]] + rest[1..];
        assert r[1..] == rest[1..];
        assert s == [s[0]] + s[1..];
        r
  }

  /** Splitting `p + t` where `p` holds no separator extends `t`'s first piece by `p`. */
  lemma {:induction false} SplitPrepend(p: string, t: string, sep: char)
    requires sep !in p
    ensures Split(p + t, sep) == [p + Split(t, sep)[0]] + Split(t, sep)[1..]
    decreases |p|
  {
    if p != [] {
      assert (p + t)[1..] == p[1..] + t;
      assert (p + t)[0] == p[0];
      SplitPrepend(p[1..], t, sep);
      var r := Split(t, sep);
      var rest := Split(p[1..] + t, sep);
      assert rest[0] == p[1..] + r[0];
      assert rest[1..] == r[1..];
      assert p[0] != sep;
      assert Split(p + t, sep) == [[p[0]] + rest[0]] + rest[1..];
      assert [p[0]] + (p[1..] + r[0]) == p + r[0];
    } else {
      var r := Split(t, sep);
      assert p + t == t;
      assert p + r[0] == r[0];
      assert r == [r[0]] + r[1..];
    }
  }

  /** Joining separator-free pieces and splitting again gives the pieces back. */
  lemma {:induction false} SplitJoin(parts: seq<string>, sep: char)
    requires |parts| >= 1
    requires forall i :: 0 <= i < |parts| ==> sep !in parts[i]
    ensures Split(Join(parts, sep), sep) == parts
    decreases |parts|
  {
    if |parts| == 1 {
      SplitPrepend(parts[0], [], sep);
      assert parts[0] + [] == parts[0];
    } else {
      var t := Join(parts[1..], sep);
      SplitJoin(parts[1..], sep);
      assert Split([sep] + t, sep) == [[]] + Split(t, sep) by {
        assert ([sep] + t)[1..] == t;
      }
      assert parts[0] + [sep] + t == parts[0] + ([sep] + t);
      SplitPrepend(parts[0], [sep] + t, sep);
      assert Split(Join(parts, sep), sep) == [parts[0] + []] + Split(t, sep);
      assert parts[0] + [] == parts[0];
      assert parts == [parts[0]] + parts[1..];
    }
  }

  /** Splitting a join of three separator-free pieces and more gives those three pieces first. */
  lemma SplitJoinFirstThree(a: string, b: string, c: string, extra: seq<string>, sep: char)
    requires sep !in a && sep !in b && sep !in c
    requires forall i :: 0 <= i < |extra| ==> sep !in extra[i]
    ensures |Split(Join([a, b, c] + extra, sep), sep)| >= 3
    ensures var pieces := Split(Join([a, b, c] + extra, sep), sep);
      pieces[0] == a && pieces[1] == b && pieces[2] == c
  {
    var parts := [a, b, c] + extra;
    forall i | 0 <= i < |parts|
      ensures sep !in parts[i]
    {
      if i >= 3 {
        assert parts[i] == extra[i - 3];
      }
    }
    SplitJoin(parts, sep);
    assert parts[1] == b && parts[2] == c;
  }

  /**
   * `s.split(sep)[0]` is the text before the first separator, or all of
   * `s` when it holds none.
   */
  lemma SplitFirst(s: string, sep: char)
    ensures Split(s, sep)[0] <= s
    ensures sep !in Split(s, sep)[0]
    ensures |Split(s, sep)[0]| == |s| || s[|Split(s, sep)[0]|] == sep
  {
    var r := Split(s, sep);
    if |r| > 1 {
      assert s == r[0] + [sep] + Join(r[1..], sep);
    }
  }

  /** There is one more piece than there are separators. */
  lemma {:induction false} SplitCount(s: string, sep: char)
    ensures |Split(s, sep)| == multiset(s)[sep] + 1
    decreases |s|
  {
    if s != [] {
      SplitCount(s[1..], sep);
      assert s == [s[0]] + s[1..];
      assert multiset(s) == multiset{s[0]} + multiset(s[1..]);
    }
  }
}
