/**
 * The two splitting functions of Go's `strings` package that the server
 * relies on, for a one-character separator:
 *   - `strings.Split(s, sep)`, which cuts at every occurrence of `sep`;
 *   - `strings.SplitN(s, sep, 2)`, which cuts at the first occurrence only.
 * Go strings are byte strings; here a string is `seq<char>`, which is
 * faithful as long as the separator is ASCII, as '/', ' ' and ':' are.
 */
module Strings {

  /** Number of occurrences of `c` in `s`. */
  function Count(s: string, c: char): (n: nat)
    ensures n <= |s|
    ensures n == 0 <==> c !in s
  {
    if |s| == 0 then 0
    else (if s[0] == c then 1 else 0) + Count(s[1..], c)
  }

  /**
   * `strings.Split(s, [c])`: the pieces between the occurrences of `c`.
   * Like Go, the empty string yields one empty piece, never zero pieces.
   */
  function Split(s: string, c: char): (parts: seq<string>)
    ensures |parts| == Count(s, c) + 1
    ensures forall i :: 0 <= i < |parts| ==> c !in parts[i]
  {
    if |s| == 0 then [""]
    else
      var rest := Split(s[1..], c);
      if s[0] == c then [""] + rest
      else [[s[0]] + rest[0]] + rest[1..]
  }

  /** `strings.Join(parts, [c])`, the inverse of Split. */
  function Join(parts: seq<string>, c: char): (s: string)
    requires |parts| >= 1
  {
    if |parts| == 1 then parts[0]
    else parts[0] + [c] + Join(parts[1..], c)
  }

  /** Splitting and joining again gives back the original string. */
  lemma {:induction false} JoinSplit(s: string, c: char)
    ensures Join(Split(s, c), c) == s
  {
    if |s| > 0 {
      var rest := Split(s[1..], c);
      JoinSplit(s[1..], c);
      if s[0] == c {
        assert Split(s, c) == [""] + rest;
        assert ([""] + rest)[1..] == rest;
      } else {
        var parts := Split(s, c);
        assert parts == [[s[0]] + rest[0]] + rest[1..];
        if |rest| == 1 {
          assert s == [s[0]] + s[1..];
        } else {
          assert parts[1..] == rest[1..];
          assert Join(rest, c) == rest[0] + [c] + Join(rest[1..], c);
          assert s == [s[0]] + s[1..];
        }
      }
    }
  }

  /** A string without the separator is one piece. */
  lemma {:induction false} SplitWithout(s: string, c: char)
    requires c !in s
    ensures Split(s, c) == [s]
  {
    if |s| > 0 {
      assert c !in s[1..];
      SplitWithout(s[1..], c);
      assert [s[0]] + s[1..] == s;
    }
  }

  /** A leading separator-free piece followed by the separator is cut off whole. */
  lemma {:induction false} SplitAfter(a: string, b: string, c: char)
    requires c !in a
    ensures Split(a + [c] + b, c) == [a] + Split(b, c)
  {
    if |a| == 0 {
      assert a + [c] + b == [c] + b;
      assert ([c] + b)[1..] == b;
    } else {
      var s := a + [c] + b;
      assert s[0] == a[0];
      assert s[1..] == a[1..] + [c] + b;
      assert c !in a[1..];
      SplitAfter(a[1..], b, c);
      assert [a[0]] + a[1..] == a;
    }
  }

  /** `strings.SplitN(s, [c], 2)`: cut at the first `c` only, if there is one. */
  function SplitFirst(s: string, c: char): (parts: seq<string>)
    ensures 1 <= |parts| <= 2
    ensures |parts| == 2 <==> c in s
    ensures c !in parts[0]
    ensures |parts| == 1 ==> parts[0] == s
    ensures |parts| == 2 ==> parts[0] + [c] + parts[1] == s
  {
    if |s| == 0 then [""]
    else if s[0] == c then ["", s[1..]]
    else
      var rest := SplitFirst(s[1..], c);
      assert s == [s[0]] + s[1..];
      [[s[0]] + rest[0]] + rest[1..]
  }

  /** SplitFirst finds the head and the tail around the first separator. */
  lemma SplitFirstAt(a: string, b: string, c: char)
    requires c !in a
    ensures SplitFirst(a + [c] + b, c) == [a, b]
  {
    var parts := SplitFirst(a + [c] + b, c);
    assert c in a + [c] + b by { assert (a + [c] + b)[|a|] == c; }
    FirstPieceUnique(parts[0], parts[1], a, b, c);
  }

  /** Position of the first `c` in `s`. */
  function IndexOf(s: string, c: char): (k: nat)
    requires c in s
    ensures k < |s| && s[k] == c && c !in s[..k]
  {
    if s[0] == c then 0
    else
      assert s == [s[0]] + s[1..];
      var k := IndexOf(s[1..], c);
      assert s[..k + 1] == [s[0]] + s[1..][..k];
      k + 1
  }

  /** Whatever follows, the first separator after a separator-free head is at |head|. */
  lemma {:induction false} IndexAfter(a: string, b: string, c: char)
    requires c !in a
    ensures c in a + [c] + b && IndexOf(a + [c] + b, c) == |a|
  {
    var s := a + [c] + b;
    assert s[|a|] == c;
    if |a| > 0 {
      assert s[0] == a[0];
      assert s[1..] == a[1..] + [c] + b;
      IndexAfter(a[1..], b, c);
    }
  }

  /** Two ways of writing one string around a first separator agree. */
  lemma FirstPieceUnique(a: string, b: string, a': string, b': string, c: char)
    requires c !in a && c !in a'
    requires a + [c] + b == a' + [c] + b'
    ensures a == a' && b == b'
  {
    var s := a + [c] + b;
    IndexAfter(a, b, c);
    IndexAfter(a', b', c);
    assert a == s[..|a|] && a' == s[..|a'|];
    assert b == s[|a| + 1..] && b' == (a' + [c] + b')[|a'| + 1..];
  }
}
