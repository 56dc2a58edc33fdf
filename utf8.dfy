/** The length of a string once encoded as UTF-8 (`len(s.encode("utf-8"))`). */
module Utf8 {

  /**
   Bytes of the UTF-8 encoding of one Unicode scalar value, by code-point range
   (section 3 of RFC 3629).
   */
  function CharBytes(c: char): (n: nat)
    ensures 1 <= n <= 4
    ensures (c as int < 0x80) <==> n == 1
  {
    if c as int < 0x80 then 1
    else if c as int < 0x800 then 2
    else if c as int < 0x1_0000 then 3
    else 4
  }

  /** Bytes of the UTF-8 encoding of a string: at least one and at most four per character. */
  function Utf8Len(s: string): (n: nat)
    ensures |s| <= n <= 4 * |s|
    decreases |s|
  {
    if s == [] then 0 else CharBytes(s[0]) + Utf8Len(s[1..])
  }

  /** Encoded length is additive over concatenation. */
  lemma {:induction false} Utf8LenAppend(a: string, b: string)
    ensures Utf8Len(a + b) == Utf8Len(a) + Utf8Len(b)
    decreases |a|
  {
    if a == [] {
      assert a + b == b;
    } else {
      assert (a + b)[1..] == a[1..] + b;
      Utf8LenAppend(a[1..], b);
    }
  }

  /** A string takes one byte per character exactly when it is ASCII. */
  lemma {:induction false} Utf8LenAscii(s: string)
    ensures Utf8Len(s) == |s| <==> forall i :: 0 <= i < |s| ==> s[i] as int < 0x80
    decreases |s|
  {
    if s != [] {
      Utf8LenAscii(s[1..]);
      assert forall i :: 1 <= i < |s| ==> s[i] == s[1..][i - 1];
    }
  }

  /** Swapping characters for ones of the same encoded width keeps the encoded length. */
  lemma {:induction false} Utf8LenSameWidth(s: string, t: string)
    requires |s| == |t|
    requires forall i :: 0 <= i < |s| ==> CharBytes(s[i]) == CharBytes(t[i])
    ensures Utf8Len(s) == Utf8Len(t)
    decreases |s|
  {
    if s != [] {
      Utf8LenSameWidth(s[1..], t[1..]);
    }
  }
}
