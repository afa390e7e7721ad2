/**
 * The few string operations of the Kotlin standard library that the core
 * relies on (indexOf, lastIndexOf, split, joinToString, replace, reverse),
 * and a StringBuilder that the signature encoder appends to.
 */
module Strings {

  /** `s.indexOf(c)`: the first position of `c` in `s`, or -1. */
  function IndexOf(s: string, c: char): (r: int)
    ensures -1 <= r < |s|
    ensures r == -1 <==> c !in s
    ensures 0 <= r ==> s[r] == c && c !in s[..r]
  {
    if |s| == 0 then -1
    else if s[0] == c then 0
    else
      var k := IndexOf(s[1..], c);
      if k == -1 then -1
      else
        assert s[..k + 1] == [s[0]] + s[1..][..k];
        k + 1
  }

  /** `s.lastIndexOf(c)`: the last position of `c` in `s`, or -1. */
  function LastIndexOf(s: string, c: char): (r: int)
    ensures -1 <= r < |s|
    ensures r == -1 <==> c !in s
    ensures 0 <= r ==> s[r] == c && c !in s[r + 1..]
  {
    if |s| == 0 then -1
    else if s[|s| - 1] == c then |s| - 1
    else
      var k := LastIndexOf(s[..|s| - 1], c);
      LastIndexOfStep(s, c, k);
      k
  }

  /** A last occurrence in all but the last character is one in the whole, when the last is not `c`. */
  lemma LastIndexOfStep(s: string, c: char, k: int)
    requires |s| > 0 && s[|s| - 1] != c && -1 <= k < |s| - 1
    requires k == -1 <==> c !in s[..|s| - 1]
    requires 0 <= k ==> s[..|s| - 1][k] == c && c !in s[..|s| - 1][k + 1..]
    ensures k == -1 <==> c !in s
    ensures 0 <= k ==> s[k] == c && c !in s[k + 1..]
  {
    var front := s[..|s| - 1];
    assert s == front + [s[|s| - 1]];
    if 0 <= k {
      assert s[k + 1..] == front[k + 1..] + [s[|s| - 1]];
    }
  }

  /** The first occurrence of `c` in `p + [c] + q` is the one after `p`. */
  lemma IndexOfAfter(p: string, c: char, q: string)
    requires c !in p
    ensures IndexOf(p + [c] + q, c) == |p|
  {
    var s := p + [c] + q;
    assert s[|p|] == c;
    assert s[..|p|] == p;
    assert forall i :: 0 <= i < |p| ==> s[i] == p[i];
  }

  /** The last occurrence of `c` in `p + [c] + q` is the one before `q`. */
  lemma LastIndexOfBefore(p: string, c: char, q: string)
    requires c !in q
    ensures LastIndexOf(p + [c] + q, c) == |p|
  {
    var s := p + [c] + q;
    assert s[|p|] == c;
    assert s[|p| + 1..] == q;
    assert forall i :: |p| < i < |s| ==> s[i] == q[i - |p| - 1];
  }

  /**
   * `s.split(c)` with Kotlin's semantics: every occurrence of `c` separates
   * two pieces, empty pieces are kept, and there is always at least one piece.
   */
  function Split(s: string, c: char): (parts: seq<string>)
    ensures |parts| >= 1
    ensures forall i :: 0 <= i < |parts| ==> c !in parts[i]
    decreases |s|
  {
    var k := IndexOf(s, c);
    if k == -1 then [s] else [s[..k]] + Split(s[k + 1..], c)
  }

  /** `parts.joinToString(sep)`. */
  function Join(parts: seq<string>, sep: string): string
  {
    if |parts| == 0 then ""
    else if |parts| == 1 then parts[0]
    else parts[0] + sep + Join(parts[1..], sep)
  }

  /** Joining the pieces of a split with the separator gives back the string. */
  lemma {:induction false} JoinSplit(s: string, c: char)
    ensures Join(Split(s, c), [c]) == s
    decreases |s|
  {
    var k := IndexOf(s, c);
    if k != -1 {
      var front, back := s[..k], s[k + 1..];
      assert s == front + [c] + back;
      assert Split(s, c) == [front] + Split(back, c);
      JoinCons(front, Split(back, c), [c]);
      JoinSplit(back, c);
    }
  }

  lemma JoinCons(head: string, tail: seq<string>, sep: string)
    requires |tail| >= 1
    ensures Join([head] + tail, sep) == head + sep + Join(tail, sep)
  {
    assert ([head] + tail)[1..] == tail;
  }

  /** Splitting a join of pieces free of the separator gives back the pieces. */
  lemma {:induction false} SplitJoin(parts: seq<string>, c: char)
    requires |parts| >= 1
    requires forall i :: 0 <= i < |parts| ==> c !in parts[i]
    ensures Split(Join(parts, [c]), c) == parts
  {
    if |parts| == 1 {
      assert Join(parts, [c]) == parts[0];
    } else {
      var head, rest := parts[0], parts[1..];
      assert parts == [head] + rest;
      JoinCons(head, rest, [c]);
      SplitAt(head, c, Join(rest, [c]));
      SplitJoin(rest, c);
    }
  }

  /** Splitting `p + [c] + q` where `p` holds no `c` cuts off `p` first. */
  lemma SplitAt(p: string, c: char, q: string)
    requires c !in p
    ensures Split(p + [c] + q, c) == [p] + Split(q, c)
  {
    var s := p + [c] + q;
    IndexOfAfter(p, c, q);
    assert s[..|p|] == p;
    assert s[|p| + 1..] == q;
  }

  /** A joined string holds a character only if a piece or the separator does. */
  lemma {:induction false} JoinAvoids(parts: seq<string>, sep: string, c: char)
    requires c !in sep
    requires forall i :: 0 <= i < |parts| ==> c !in parts[i]
    ensures c !in Join(parts, sep)
  {
    if |parts| > 1 {
      JoinAvoids(parts[1..], sep, c);
    }
  }

  /** `s.replace(from, to)`: every `from` character becomes `to`. */
  function Replace(s: string, from: char, to: char): (r: string)
    ensures |r| == |s|
    ensures from != to ==> from !in r
  {
    seq(|s|, i requires 0 <= i < |s| => if s[i] == from then to else s[i])
  }

  /** Replacing back undoes a replacement, when `to` did not occur before. */
  lemma ReplaceBack(s: string, from: char, to: char)
    requires to !in s
    ensures Replace(Replace(s, from, to), to, from) == s
  {
    var r := Replace(s, from, to);
    forall i | 0 <= i < |s|
      ensures Replace(r, to, from)[i] == s[i]
    {
      assert s[i] != to;
    }
  }

  /** A replacement introduces no character other than `to`. */
  lemma ReplaceAvoids(s: string, from: char, to: char, c: char)
    requires c != to && c !in s
    ensures c !in Replace(s, from, to)
  {
    var r := Replace(s, from, to);
    forall i | 0 <= i < |r|
      ensures r[i] != c
    {
      assert s[i] != c;
    }
  }

  /** The reverse of a sequence, as `MutableList.reverse` leaves it. */
  function Reversed<T>(s: seq<T>): (r: seq<T>)
    ensures |r| == |s|
  {
    if s == [] then [] else [s[|s| - 1]] + Reversed(s[..|s| - 1])
  }

  lemma ReversedSnoc<T>(s: seq<T>, x: T)
    ensures Reversed(s + [x]) == [x] + Reversed(s)
  {
    assert (s + [x])[..|s|] == s;
  }

  /** A `java.lang.StringBuilder`: text that only grows at its end. */
  class StringBuilder {
    var contents: string

    constructor ()
      ensures contents == ""
    {
      contents := "";
    }

    method Append(s: string)
      modifies this
      ensures contents == old(contents) + s
    {
      contents := contents + s;
    }
  }
}
