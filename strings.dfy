/**
 The few Python string operations the segmenter relies on, over `string` (a sequence of
 Unicode scalar values): `sep.join(parts)`, `t in s`, `s.split(sep)` with a non-empty
 separator, and `s.replace(a, b)` where `a` and `b` are single characters.
 */
module Strings {

  /** Python's `sep.join(parts)`, which starts with the first part. */
  function Join(sep: string, parts: seq<string>): (r: string)
    ensures |parts| >= 1 ==> parts[0] <= r
    decreases |parts|
  {
    if |parts| == 0 then ""
    else if |parts| == 1 then parts[0]
    else parts[0] + sep + Join(sep, parts[1..])
  }

  /** `t` occurs in `s` starting at index `i`. */
  predicate OccursAt(s: string, t: string, i: int)
  {
    0 <= i && i + |t| <= |s| && s[i..i + |t|] == t
  }

  /** Python's substring test `t in s`: only a string no longer than `s` occurs in it, and a prefix does. */
  function Contains(s: string, t: string): (b: bool)
    ensures b ==> |t| <= |s|
    ensures t <= s ==> b
  {
    assert t <= s ==> OccursAt(s, t, 0);
    exists i :: 0 <= i <= |s| - |t| && OccursAt(s, t, i)
  }

  /**
   Python's `s.split(sep)` for a non-empty `sep`: cut at the leftmost occurrence of `sep`,
   then go on after it, so occurrences are non-overlapping and found left to right.
   Python raises `ValueError` for an empty separator.
   */
  function Split(s: string, sep: string): (pieces: seq<string>)
    requires sep != ""
    ensures |pieces| >= 1
    decreases |s|
  {
    if |s| < |sep| then [s]
    else if s[..|sep|] == sep then [""] + Split(s[|sep|..], sep)
    else
      var rest := Split(s[1..], sep);
      [[s[0]] + rest[0]] + rest[1..]
  }

  /**
   Python's `s.replace(from, to)` when `from` and `to` are one character each: the length
   is kept and no `from` is left.
   */
  function ReplaceChar(s: string, from: char, to: char): (r: string)
    ensures |r| == |s|
    ensures from != to ==> from !in r
    decreases |s|
  {
    if s == [] then []
    else [if s[0] == from then to else s[0]] + ReplaceChar(s[1..], from, to)
  }

  // ---------------------------------------------------------------------------------------
  // join

  /** A joined string is empty exactly when every part is empty and no separator shows. */
  lemma {:induction false} JoinEmpty(sep: string, parts: seq<string>)
    ensures Join(sep, parts) == "" <==>
            (forall k :: 0 <= k < |parts| ==> parts[k] == "") && (|parts| <= 1 || sep == "")
    decreases |parts|
  {
    if |parts| >= 2 {
      JoinEmpty(sep, parts[1..]);
      assert forall k :: 1 <= k < |parts| ==> parts[k] == parts[1..][k - 1];
    }
  }

  /** Every character of a joined string comes from the separator or from one of the parts. */
  lemma {:induction false} JoinChars(sep: string, parts: seq<string>, c: char)
    requires c in Join(sep, parts)
    ensures c in sep || exists k :: 0 <= k < |parts| && c in parts[k]
    decreases |parts|
  {
    if |parts| >= 2 {
      if c !in parts[0] && c !in sep {
        JoinChars(sep, parts[1..], c);
        var k :| 0 <= k < |parts[1..]| && c in parts[1..][k];
        assert c in parts[k + 1];
      }
    }
  }

  // ---------------------------------------------------------------------------------------
  // substring search

  /** A single character occurs as a substring exactly when it is an element. */
  lemma ContainsChar(s: string, c: char)
    ensures Contains(s, [c]) <==> c in s
  {
    if c in s {
      var i :| 0 <= i < |s| && s[i] == c;
      assert OccursAt(s, [c], i);
    }
    if Contains(s, [c]) {
      var i :| 0 <= i <= |s| - 1 && OccursAt(s, [c], i);
      assert s[i..i + 1][0] == s[i];
    }
  }

  /** A prefix of a string that avoids `t` avoids `t` too. */
  lemma PrefixAvoids(p: string, s: string, t: string)
    requires p <= s && !Contains(s, t)
    ensures !Contains(p, t)
  {
    forall i | 0 <= i <= |p| - |t|
      ensures !OccursAt(p, t, i)
    {
      assert p[i..i + |t|] == s[i..i + |t|];
      assert !OccursAt(s, t, i);
    }
  }

  /** A suffix of a string that avoids `t` avoids `t` too. */
  lemma SuffixAvoids(s: string, k: nat, t: string)
    requires k <= |s| && !Contains(s, t)
    ensures !Contains(s[k..], t)
  {
    forall i | 0 <= i <= |s[k..]| - |t|
      ensures !OccursAt(s[k..], t, i)
    {
      assert s[k..][i..i + |t|] == s[k + i..k + i + |t|];
      assert !OccursAt(s, t, k + i);
    }
  }

  // ---------------------------------------------------------------------------------------
  // split

  lemma JoinConsEmpty(sep: string, parts: seq<string>)
    requires |parts| >= 1
    ensures Join(sep, [""] + parts) == sep + Join(sep, parts)
  {
    assert ([""] + parts)[1..] == parts;
  }

  lemma JoinConsChar(sep: string, c: char, parts: seq<string>)
    requires |parts| >= 1
    ensures Join(sep, [[c] + parts[0]] + parts[1..]) == [c] + Join(sep, parts)
  {
    var pieces := [[c] + parts[0]] + parts[1..];
    assert pieces[1..] == parts[1..];
  }

  /** Round trip: joining the pieces with the separator gives back the string. */
  lemma {:induction false} JoinSplit(s: string, sep: string)
    requires sep != ""
    ensures Join(sep, Split(s, sep)) == s
    decreases |s|
  {
    if |s| < |sep| {
    } else if s[..|sep|] == sep {
      JoinSplit(s[|sep|..], sep);
      JoinConsEmpty(sep, Split(s[|sep|..], sep));
      assert s == sep + s[|sep|..];
    } else {
      JoinSplit(s[1..], sep);
      JoinConsChar(sep, s[0], Split(s[1..], sep));
      assert s == [s[0]] + s[1..];
    }
  }

  /** The first piece is a prefix of the string. */
  lemma {:induction false} SplitHeadIsPrefix(s: string, sep: string)
    requires sep != ""
    ensures Split(s, sep)[0] <= s
    decreases |s|
  {
    if |s| >= |sep| && s[..|sep|] != sep {
      SplitHeadIsPrefix(s[1..], sep);
      assert s == [s[0]] + s[1..];
    }
  }

  /**
   The first piece when `s` does not start with `sep`: the first character of `s`, then a
   piece free of `sep` that is a prefix of the rest.
   */
  lemma HeadLacksSeparator(s: string, tail: string, sep: string)
    requires sep != "" && |s| >= |sep| && s[..|sep|] != sep
    requires tail <= s[1..] && !Contains(tail, sep)
    ensures !Contains([s[0]] + tail, sep)
  {
    var head := [s[0]] + tail;
    forall i | 0 <= i <= |head| - |sep|
      ensures !OccursAt(head, sep, i)
    {
      if i == 0 {
        assert head[..|sep|] == s[..|sep|];
      } else {
        assert head[1..] == tail;
        assert head[i..i + |sep|] == tail[i - 1..i - 1 + |sep|];
        assert !OccursAt(tail, sep, i - 1);
      }
    }
  }

  /** No piece contains the separator. */
  lemma {:induction false} SplitPiecesLackSeparator(s: string, sep: string)
    requires sep != ""
    ensures forall k :: 0 <= k < |Split(s, sep)| ==> !Contains(Split(s, sep)[k], sep)
    decreases |s|
  {
    if |s| < |sep| {
    } else if s[..|sep|] == sep {
      SplitPiecesLackSeparator(s[|sep|..], sep);
      var rest := Split(s[|sep|..], sep);
      assert forall k :: 1 <= k < |[""] + rest| ==> ([""] + rest)[k] == rest[k - 1];
    } else {
      var rest := Split(s[1..], sep);
      SplitPiecesLackSeparator(s[1..], sep);
      SplitHeadIsPrefix(s[1..], sep);
      var head := [s[0]] + rest[0];
      HeadLacksSeparator(s, rest[0], sep);
      var pieces := [head] + rest[1..];
      assert forall k :: 1 <= k < |pieces| ==> pieces[k] == rest[k];
    }
  }

  /** Splitting a string that avoids `t` gives pieces that avoid `t`. */
  lemma {:induction false} SplitPiecesAvoid(s: string, sep: string, t: string)
    requires sep != "" && !Contains(s, t)
    ensures forall k :: 0 <= k < |Split(s, sep)| ==> !Contains(Split(s, sep)[k], t)
    decreases |s|
  {
    if |s| < |sep| {
    } else if s[..|sep|] == sep {
      PrefixAvoids("", s, t);
      SuffixAvoids(s, |sep|, t);
      SplitPiecesAvoid(s[|sep|..], sep, t);
      var rest := Split(s[|sep|..], sep);
      assert forall k :: 1 <= k < |[""] + rest| ==> ([""] + rest)[k] == rest[k - 1];
    } else {
      var rest := Split(s[1..], sep);
      SuffixAvoids(s, 1, t);
      SplitPiecesAvoid(s[1..], sep, t);
      SplitHeadIsPrefix(s[1..], sep);
      var head := [s[0]] + rest[0];
      assert head <= s;
      PrefixAvoids(head, s, t);
      var pieces := [head] + rest[1..];
      assert forall k :: 1 <= k < |pieces| ==> pieces[k] == rest[k];
    }
  }

  /** A string without the separator is not cut at all. */
  lemma {:induction false} SplitWithoutSeparator(s: string, sep: string)
    requires sep != "" && !Contains(s, sep)
    ensures Split(s, sep) == [s]
    decreases |s|
  {
    if |s| >= |sep| {
      assert !OccursAt(s, sep, 0);
      SuffixAvoids(s, 1, sep);
      SplitWithoutSeparator(s[1..], sep);
      assert s == [s[0]] + s[1..];
    }
  }

  // ---------------------------------------------------------------------------------------
  // replace

  /**
   A character of `s.replace(from, to)` is `to`, or a character of `s` other than `from`:
   no `from` survives the replacement unless it is `to` itself.
   */
  lemma {:induction false} ReplaceCharChars(s: string, from: char, to: char, c: char)
    requires c in ReplaceChar(s, from, to)
    ensures c == to || (c in s && c != from)
    decreases |s|
  {
    if s != [] && c != (if s[0] == from then to else s[0]) {
      ReplaceCharChars(s[1..], from, to, c);
    }
  }

  /** Replacement works position by position: same length, each `from` becomes `to`, the rest is kept. */
  lemma {:induction false} ReplaceCharPointwise(s: string, from: char, to: char)
    ensures |ReplaceChar(s, from, to)| == |s|
    ensures forall i :: 0 <= i < |s| ==> ReplaceChar(s, from, to)[i] == if s[i] == from then to else s[i]
    decreases |s|
  {
    if s != [] {
      ReplaceCharPointwise(s[1..], from, to);
    }
  }
}
