/**
 The text segmenter: `split_text` cuts a chapter's text into sentence-like fragments on an
 ordered list of delimiters, and `combine_text` packs those fragments greedily into chunks
 under a UTF-8 byte budget, one speech-synthesis request per chunk.
 */
module Segmenter {
  import opened Strings
  import opened Utf8

  // =======================================================================================
  // split_text

  /** What `split_text` asks of its delimiter list: `delimiters[0]` exists, and `str.split` accepts each. */
  predicate ValidDelimiters(delimiters: seq<string>)
  {
    |delimiters| >= 1 && forall j :: 0 <= j < |delimiters| ==> delimiters[j] != ""
  }

  /**
   `split_text(text, delimiters)`: split on the first delimiter; when more delimiters are
   left, split every piece on the rest and flatten the results left to right.
   */
  function SplitText(text: string, delimiters: seq<string>): (fragments: seq<string>)
    requires ValidDelimiters(delimiters)
    ensures |fragments| >= 1
    decreases |delimiters|, 0
  {
    var textParts := Split(text, delimiters[0]);
    if |delimiters| == 1 then textParts
    else SplitEach(textParts, delimiters[1..])
  }

  /** `sum([split_text(p, delimiters) for p in textParts], [])`. */
  function SplitEach(textParts: seq<string>, delimiters: seq<string>): (fragments: seq<string>)
    requires ValidDelimiters(delimiters)
    ensures |textParts| >= 1 ==> |fragments| >= 1
    decreases |delimiters|, |textParts|
  {
    if textParts == [] then []
    else SplitText(textParts[0], delimiters) + SplitEach(textParts[1..], delimiters)
  }

  /** No fragment in `fragments` contains `t`. */
  ghost predicate Avoids(fragments: seq<string>, t: string)
  {
    forall k :: 0 <= k < |fragments| ==> !Contains(fragments[k], t)
  }

  /** The per-piece splits of `textParts`, one list per piece, before flattening. */
  function SplitPieces(textParts: seq<string>, delimiters: seq<string>): seq<seq<string>>
    requires ValidDelimiters(delimiters)
  {
    seq(|textParts|, i requires 0 <= i < |textParts| => SplitText(textParts[i], delimiters))
  }

  lemma {:induction false} SplitEachFlattens(textParts: seq<string>, delimiters: seq<string>)
    requires ValidDelimiters(delimiters)
    ensures SplitEach(textParts, delimiters) == Flatten(SplitPieces(textParts, delimiters))
    decreases |textParts|
  {
    if textParts != [] {
      SplitEachFlattens(textParts[1..], delimiters);
      assert SplitPieces(textParts, delimiters)[1..] == SplitPieces(textParts[1..], delimiters);
    }
  }

  /**
   With two or more delimiters, `split_text` is the left-to-right concatenation of
   `split_text(p, rest)` over the pieces `p` of the split on the first delimiter.
   */
  lemma SplitTextFlattens(text: string, delimiters: seq<string>)
    requires ValidDelimiters(delimiters) && |delimiters| >= 2
    ensures SplitText(text, delimiters) == Flatten(SplitPieces(Split(text, delimiters[0]), delimiters[1..]))
  {
    SplitEachFlattens(Split(text, delimiters[0]), delimiters[1..]);
  }

  /** With a single delimiter, joining the fragments with it gives back the text. */
  lemma SplitTextRoundTrip(text: string, delimiter: string)
    requires delimiter != ""
    ensures Join(delimiter, SplitText(text, [delimiter])) == text
  {
    JoinSplit(text, delimiter);
  }

  /** Fragments of a text that avoids `t` avoid `t`. */
  lemma {:induction false} SplitTextAvoids(text: string, delimiters: seq<string>, t: string)
    requires ValidDelimiters(delimiters) && !Contains(text, t)
    ensures Avoids(SplitText(text, delimiters), t)
    decreases |delimiters|, 0
  {
    SplitPiecesAvoid(text, delimiters[0], t);
    if |delimiters| > 1 {
      SplitEachAvoids(Split(text, delimiters[0]), delimiters[1..], t);
    }
  }

  lemma {:induction false} SplitEachAvoids(textParts: seq<string>, delimiters: seq<string>, t: string)
    requires ValidDelimiters(delimiters) && Avoids(textParts, t)
    ensures Avoids(SplitEach(textParts, delimiters), t)
    decreases |delimiters|, |textParts|
  {
    if textParts != [] {
      SplitTextAvoids(textParts[0], delimiters, t);
      SplitEachAvoids(textParts[1..], delimiters, t);
    }
  }

  /** No fragment returned by `split_text` contains any of the delimiters. */
  lemma {:induction false} SplitTextNoDelimiter(text: string, delimiters: seq<string>)
    requires ValidDelimiters(delimiters)
    ensures forall j :: 0 <= j < |delimiters| ==> Avoids(SplitText(text, delimiters), delimiters[j])
    decreases |delimiters|, 0
  {
    SplitPiecesLackSeparator(text, delimiters[0]);
    if |delimiters| > 1 {
      var textParts := Split(text, delimiters[0]);
      SplitEachAvoids(textParts, delimiters[1..], delimiters[0]);
      SplitEachNoDelimiter(textParts, delimiters[1..]);
      assert forall j :: 1 <= j < |delimiters| ==> delimiters[j] == delimiters[1..][j - 1];
    }
  }

  lemma {:induction false} SplitEachNoDelimiter(textParts: seq<string>, delimiters: seq<string>)
    requires ValidDelimiters(delimiters)
    ensures forall j :: 0 <= j < |delimiters| ==> Avoids(SplitEach(textParts, delimiters), delimiters[j])
    decreases |delimiters|, |textParts|
  {
    if textParts != [] {
      SplitTextNoDelimiter(textParts[0], delimiters);
      SplitEachNoDelimiter(textParts[1..], delimiters);
    }
  }

  /** A text holding none of the delimiters comes back as the single fragment it is. */
  lemma {:induction false} SplitTextUnsplittable(text: string, delimiters: seq<string>)
    requires ValidDelimiters(delimiters)
    requires forall j :: 0 <= j < |delimiters| ==> !Contains(text, delimiters[j])
    ensures SplitText(text, delimiters) == [text]
    decreases |delimiters|
  {
    SplitWithoutSeparator(text, delimiters[0]);
    if |delimiters| > 1 {
      SplitTextUnsplittable(text, delimiters[1..]);
      assert SplitEach([text], delimiters[1..]) == SplitText(text, delimiters[1..]) + [];
    }
  }

  // ---------------------------------------------------------------------------------------
  // Reassembling the text from the fragments and the delimiter occurrences cut out

  /** `parts[0] + seps[0] + parts[1] + ... + seps[n-1] + parts[n]`. */
  function Interleave(parts: seq<string>, seps: seq<string>): string
    requires |parts| == |seps| + 1
    decreases |seps|
  {
    if seps == [] then parts[0]
    else parts[0] + seps[0] + Interleave(parts[1..], seps[1..])
  }

  /** `n` copies of `s`. */
  function Repeat(s: string, n: nat): seq<string>
  {
    seq(n, _ => s)
  }

  /** The delimiter occurrences that `SplitText` cuts out, in text order. */
  ghost function CutDelimiters(text: string, delimiters: seq<string>): seq<string>
    requires ValidDelimiters(delimiters)
    decreases |delimiters|, 0
  {
    var textParts := Split(text, delimiters[0]);
    if |delimiters| == 1 then Repeat(delimiters[0], |textParts| - 1)
    else CutEach(textParts, delimiters[0], delimiters[1..])
  }

  ghost function CutEach(textParts: seq<string>, outer: string, delimiters: seq<string>): seq<string>
    requires ValidDelimiters(delimiters)
    decreases |delimiters|, |textParts|
  {
    if textParts == [] then []
    else if |textParts| == 1 then CutDelimiters(textParts[0], delimiters)
    else CutDelimiters(textParts[0], delimiters) + [outer] + CutEach(textParts[1..], outer, delimiters)
  }

  lemma {:induction false} JoinIsInterleave(sep: string, parts: seq<string>)
    requires |parts| >= 1
    ensures Join(sep, parts) == Interleave(parts, Repeat(sep, |parts| - 1))
    decreases |parts|
  {
    if |parts| >= 2 {
      JoinIsInterleave(sep, parts[1..]);
      assert Repeat(sep, |parts| - 1)[1..] == Repeat(sep, |parts| - 2);
    }
  }

  lemma {:induction false} InterleaveConcat(a: seq<string>, cutsA: seq<string>, cut: string,
                                            b: seq<string>, cutsB: seq<string>)
    requires |a| == |cutsA| + 1 && |b| == |cutsB| + 1
    ensures Interleave(a + b, cutsA + [cut] + cutsB) == Interleave(a, cutsA) + cut + Interleave(b, cutsB)
    decreases |cutsA|
  {
    if cutsA == [] {
      assert (a + b)[1..] == b;
      assert ([cut] + cutsB)[1..] == cutsB;
      assert cutsA + [cut] + cutsB == [cut] + cutsB;
    } else {
      InterleaveConcat(a[1..], cutsA[1..], cut, b, cutsB);
      assert (a + b)[1..] == a[1..] + b;
      assert (cutsA + [cut] + cutsB)[1..] == cutsA[1..] + [cut] + cutsB;
    }
  }

  /**
   Nothing is lost by `split_text`: putting back, between consecutive fragments, the
   delimiter occurrence that was cut out there (always one of the delimiters) gives the text.
   */
  lemma {:induction false} SplitTextRejoin(text: string, delimiters: seq<string>)
    requires ValidDelimiters(delimiters)
    ensures var fragments := SplitText(text, delimiters);
            var cuts := CutDelimiters(text, delimiters);
            && |fragments| == |cuts| + 1
            && (forall k :: 0 <= k < |cuts| ==> cuts[k] in delimiters)
            && Interleave(fragments, cuts) == text
    decreases |delimiters|, 0
  {
    var textParts := Split(text, delimiters[0]);
    JoinSplit(text, delimiters[0]);
    if |delimiters| == 1 {
      JoinIsInterleave(delimiters[0], textParts);
    } else {
      SplitEachRejoin(textParts, delimiters[0], delimiters[1..]);
      var cuts := CutDelimiters(text, delimiters);
      forall k | 0 <= k < |cuts|
        ensures cuts[k] in delimiters
      {
        assert cuts[k] == delimiters[0] || cuts[k] in delimiters[1..];
      }
    }
  }

  lemma {:induction false} SplitEachRejoin(textParts: seq<string>, outer: string, delimiters: seq<string>)
    requires ValidDelimiters(delimiters) && |textParts| >= 1
    ensures var fragments := SplitEach(textParts, delimiters);
            var cuts := CutEach(textParts, outer, delimiters);
            && |fragments| == |cuts| + 1
            && (forall k :: 0 <= k < |cuts| ==> cuts[k] == outer || cuts[k] in delimiters)
            && Interleave(fragments, cuts) == Join(outer, textParts)
    decreases |delimiters|, |textParts|
  {
    var first := SplitText(textParts[0], delimiters);
    SplitTextRejoin(textParts[0], delimiters);
    if |textParts| == 1 {
      assert textParts[1..] == [];
      assert SplitEach(textParts, delimiters) == first + [] == first;
    } else {
      var rest := SplitEach(textParts[1..], delimiters);
      SplitEachRejoin(textParts[1..], outer, delimiters);
      InterleaveConcat(first, CutDelimiters(textParts[0], delimiters), outer,
                       rest, CutEach(textParts[1..], outer, delimiters));
    }
  }

  // =======================================================================================
  // combine_text

  /** U+3000 IDEOGRAPHIC SPACE, which `combine_text` swaps for a full stop. */
  const IdeographicSpace: char := '\U{3000}'
  /** U+3002 IDEOGRAPHIC FULL STOP `。`. */
  const IdeographicFullStop: char := '\U{3002}'

  /** `text_part.replace("\u3000", "。")`. */
  function NormalizeSpaces(part: string): string
  {
    ReplaceChar(part, IdeographicSpace, IdeographicFullStop)
  }

  function NormalizeAll(parts: seq<string>): seq<string>
  {
    seq(|parts|, i requires 0 <= i < |parts| => NormalizeSpaces(parts[i]))
  }

  /** Total UTF-8 bytes of the parts, delimiters not included. */
  function SumBytes(parts: seq<string>): nat
    decreases |parts|
  {
    if parts == [] then 0 else Utf8Len(parts[0]) + SumBytes(parts[1..])
  }

  /** The concatenation of a list of lists. */
  function Flatten(groups: seq<seq<string>>): seq<string>
    decreases |groups|
  {
    if groups == [] then [] else groups[0] + Flatten(groups[1..])
  }

  /**
   The loop state of `combine_text` after some prefix of the parts, with the parts kept
   as given: the groups already flushed (`output_splits` before joining), the open
   builder (`str_builder`) and the running counter (`cur_size`).
   */
  datatype Builder = Builder(flushed: seq<seq<string>>, open: seq<string>, curSize: int)

  /**
   One iteration: add the part's bytes to the counter; on overflow flush the builder and
   reset the counter to 0 (not to the part's size); in either case the part joins the builder.
   */
  function Step(b: Builder, part: string, maxBytes: int): (r: Builder)
    ensures r.open != [] && r.open[|r.open| - 1] == part
    ensures r.flushed == b.flushed || r.flushed == b.flushed + [b.open]
    ensures r.flushed == b.flushed ==> r.curSize <= maxBytes
  {
    var curSize := b.curSize + Utf8Len(part);
    if curSize > maxBytes then Builder(b.flushed + [b.open], [part], 0)
    else Builder(b.flushed, b.open + [part], curSize)
  }

  /**
   The loop state after the parts, one `Step` each from the empty state: at most one flush
   per part, and the last part sits in the open builder.
   */
  function Run(parts: seq<string>, maxBytes: int): (r: Builder)
    ensures |r.flushed| <= |parts|
    ensures parts != [] ==> r.open != [] && r.open[|r.open| - 1] == parts[|parts| - 1]
    decreases |parts|
  {
    if parts == [] then Builder([], [], 0)
    else Step(Run(parts[..|parts| - 1], maxBytes), parts[|parts| - 1], maxBytes)
  }

  /** The groups of parts `combine_text` emits: every flushed builder, then the last one. */
  function Groups(parts: seq<string>, maxBytes: int): (groups: seq<seq<string>>)
    ensures 1 <= |groups| <= |parts| + 1
    ensures parts != [] ==> groups[|groups| - 1] != []
  {
    var b := Run(parts, maxBytes);
    b.flushed + [b.open]
  }

  function JoinGroups(delimiter: string, groups: seq<seq<string>>): seq<string>
  {
    seq(|groups|, i requires 0 <= i < |groups| => Join(delimiter, NormalizeAll(groups[i])))
  }

  /** What `combine_text(parts, delimiter, maxBytes)` returns. */
  function Chunks(parts: seq<string>, delimiter: string, maxBytes: int): (chunks: seq<string>)
    ensures |chunks| == |Groups(parts, maxBytes)|
    ensures 1 <= |chunks| <= |parts| + 1
    ensures parts == [] ==> chunks == [""]
  {
    JoinGroups(delimiter, Groups(parts, maxBytes))
  }

  /**
   The parts of group `i` whose bytes `cur_size` counts: all of the first group, which no
   reset precedes; in a later group all but its first part, which caused the reset.
   */
  function Counted(groups: seq<seq<string>>, i: nat): seq<string>
    requires i < |groups|
  {
    if i == 0 then groups[0]
    else if groups[i] == [] then []
    else groups[i][1..]
  }

  /**
   The greedy packing `combine_text` performs, stated on the groups: every group after
   the first is opened by a part; the counted bytes of a group stay within the budget
   (vacuously when nothing is counted); and a group is flushed only because its counted
   bytes plus the next group's opening part exceed the budget.
   */
  ghost predicate Greedy(groups: seq<seq<string>>, maxBytes: int)
  {
    && (forall i :: 1 <= i < |groups| ==> groups[i] != [])
    && (forall i :: 0 <= i < |groups| ==> Counted(groups, i) == [] || SumBytes(Counted(groups, i)) <= maxBytes)
    && (forall i :: 0 <= i < |groups| - 1 ==>
          SumBytes(Counted(groups, i)) + Utf8Len(groups[i + 1][0]) > maxBytes)
  }

  /** The loop invariant of `combine_text`: greedy so far, and `cur_size` is the open group's counted bytes. */
  ghost predicate Consistent(b: Builder, maxBytes: int)
  {
    var groups := b.flushed + [b.open];
    Greedy(groups, maxBytes) && b.curSize == SumBytes(Counted(groups, |b.flushed|))
  }

  // ---------------------------------------------------------------------------------------
  // helper facts about sums and flattening

  lemma {:induction false} SumBytesAppend(a: seq<string>, b: seq<string>)
    ensures SumBytes(a + b) == SumBytes(a) + SumBytes(b)
    decreases |a|
  {
    if a == [] {
      assert a + b == b;
    } else {
      assert (a + b)[1..] == a[1..] + b;
      SumBytesAppend(a[1..], b);
    }
  }

  lemma {:induction false} PartBytesWithinSum(parts: seq<string>, k: nat)
    requires k < |parts|
    ensures Utf8Len(parts[k]) <= SumBytes(parts)
    decreases k
  {
    if k > 0 {
      PartBytesWithinSum(parts[1..], k - 1);
    }
  }

  lemma {:induction false} FlattenAppend(a: seq<seq<string>>, b: seq<seq<string>>)
    ensures Flatten(a + b) == Flatten(a) + Flatten(b)
    decreases |a|
  {
    if a == [] {
      assert a + b == b;
    } else {
      assert (a + b)[1..] == a[1..] + b;
      FlattenAppend(a[1..], b);
    }
  }

  /** Every part inside a group is an element of the flattened list. */
  lemma {:induction false} FlattenMember(groups: seq<seq<string>>, i: nat, j: nat)
    requires i < |groups| && j < |groups[i]|
    ensures groups[i][j] in Flatten(groups)
    decreases i
  {
    if i > 0 {
      FlattenMember(groups[1..], i - 1, j);
    }
  }

  /** Every part inside any group is an element of the flattened list. */
  lemma FlattenMembers(groups: seq<seq<string>>)
    ensures forall i, j :: 0 <= i < |groups| && 0 <= j < |groups[i]| ==> groups[i][j] in Flatten(groups)
  {
    forall i, j | 0 <= i < |groups| && 0 <= j < |groups[i]|
      ensures groups[i][j] in Flatten(groups)
    {
      FlattenMember(groups, i, j);
    }
  }

  lemma NormalizeAllSnoc(parts: seq<string>, part: string)
    ensures NormalizeAll(parts + [part]) == NormalizeAll(parts) + [NormalizeSpaces(part)]
  {
  }

  lemma JoinGroupsSnoc(delimiter: string, groups: seq<seq<string>>, group: seq<string>)
    ensures JoinGroups(delimiter, groups + [group]) == JoinGroups(delimiter, groups) + [Join(delimiter, NormalizeAll(group))]
  {
  }

  // ---------------------------------------------------------------------------------------
  // the loop invariant

  /** Flushing: a new group opened by `part` keeps the packing greedy. */
  lemma GreedyFlush(groups: seq<seq<string>>, part: string, maxBytes: int)
    requires |groups| >= 1 && Greedy(groups, maxBytes)
    requires SumBytes(Counted(groups, |groups| - 1)) + Utf8Len(part) > maxBytes
    ensures Greedy(groups + [[part]], maxBytes)
    ensures Counted(groups + [[part]], |groups|) == []
  {
    var groups' := groups + [[part]];
    forall i | 0 <= i < |groups|
      ensures groups'[i] == groups[i] && Counted(groups', i) == Counted(groups, i)
    {
    }
    forall i | 0 <= i < |groups'| - 1
      ensures SumBytes(Counted(groups', i)) + Utf8Len(groups'[i + 1][0]) > maxBytes
    {
      assert Counted(groups', i) == Counted(groups, i);
    }
  }

  /** Growing the last group adds `part` to its counted parts and leaves earlier groups alone. */
  lemma GrowCounted(groups: seq<seq<string>>, part: string)
    requires |groups| >= 1 && (|groups| > 1 ==> groups[|groups| - 1] != [])
    ensures var n := |groups| - 1;
            var groups' := groups[n := groups[n] + [part]];
            && Counted(groups', n) == Counted(groups, n) + [part]
            && forall i :: 0 <= i < n ==> groups'[i] == groups[i] && Counted(groups', i) == Counted(groups, i)
  {
    var n := |groups| - 1;
    var groups' := groups[n := groups[n] + [part]];
    if n > 0 {
      assert (groups[n] + [part])[1..] == groups[n][1..] + [part];
    }
    forall i | 0 <= i < n
      ensures groups'[i] == groups[i] && Counted(groups', i) == Counted(groups, i)
    {
    }
  }

  /** No flush: `part` joins the open group and its bytes join the count. */
  lemma GreedyGrow(groups: seq<seq<string>>, part: string, maxBytes: int)
    requires |groups| >= 1 && Greedy(groups, maxBytes)
    requires SumBytes(Counted(groups, |groups| - 1)) + Utf8Len(part) <= maxBytes
    ensures var n := |groups| - 1;
            var groups' := groups[n := groups[n] + [part]];
            && Greedy(groups', maxBytes)
            && SumBytes(Counted(groups', n)) == SumBytes(Counted(groups, n)) + Utf8Len(part)
  {
    var n := |groups| - 1;
    var groups' := groups[n := groups[n] + [part]];
    GrowCounted(groups, part);
    SumBytesAppend(Counted(groups, n), [part]);
    assert SumBytes([part]) == Utf8Len(part);
    assert forall i :: 1 <= i < |groups'| ==> groups'[i] != [];
    assert forall i :: 0 <= i < |groups'| - 1 ==>
             SumBytes(Counted(groups', i)) + Utf8Len(groups'[i + 1][0]) > maxBytes by {
      forall i | 0 <= i < |groups'| - 1
        ensures SumBytes(Counted(groups', i)) + Utf8Len(groups'[i + 1][0]) > maxBytes
      {
        assert groups'[i + 1][0] == groups[i + 1][0];
      }
    }
    assert forall i :: 0 <= i < |groups'| ==> Counted(groups', i) == [] || SumBytes(Counted(groups', i)) <= maxBytes by {
      forall i | 0 <= i < |groups'|
        ensures Counted(groups', i) == [] || SumBytes(Counted(groups', i)) <= maxBytes
      {
        if i < n {
          assert Counted(groups', i) == Counted(groups, i);
        }
      }
    }
  }

  lemma StepConsistent(b: Builder, part: string, maxBytes: int)
    requires Consistent(b, maxBytes)
    ensures Consistent(Step(b, part, maxBytes), maxBytes)
    ensures Flatten(Step(b, part, maxBytes).flushed + [Step(b, part, maxBytes).open])
         == Flatten(b.flushed + [b.open]) + [part]
  {
    var groups := b.flushed + [b.open];
    var n := |b.flushed|;
    var b' := Step(b, part, maxBytes);
    FlattenAppend(b.flushed, [b.open]);
    FlattenAppend(b'.flushed, [b'.open]);
    assert Flatten([b.open]) == b.open;
    if b.curSize + Utf8Len(part) > maxBytes {
      GreedyFlush(groups, part, maxBytes);
      assert b'.flushed + [b'.open] == groups + [[part]];
      FlattenAppend(groups, [[part]]);
      assert Flatten([[part]]) == [part];
    } else {
      GreedyGrow(groups, part, maxBytes);
      assert b'.flushed + [b'.open] == groups[n := groups[n] + [part]];
      assert Flatten([b.open + [part]]) == b.open + [part];
    }
  }

  /** The fold over the parts stays consistent and its groups cover the parts in order. */
  lemma {:induction false} RunConsistent(parts: seq<string>, maxBytes: int)
    ensures Consistent(Run(parts, maxBytes), maxBytes)
    ensures Flatten(Groups(parts, maxBytes)) == parts
    decreases |parts|
  {
    if parts == [] {
      assert Groups(parts, maxBytes) == [[]];
      assert Flatten([[]]) == [] + Flatten([]);
    } else {
      var init := parts[..|parts| - 1];
      RunConsistent(init, maxBytes);
      StepConsistent(Run(init, maxBytes), parts[|parts| - 1], maxBytes);
      assert init + [parts[|parts| - 1]] == parts;
    }
  }

  // ---------------------------------------------------------------------------------------
  // what combine_text guarantees

  /**
   Content and order are preserved: the groups, concatenated, are exactly the input
   parts, and the packing is greedy under the budget in the sense of `Greedy`.
   */
  lemma GroupsSpec(parts: seq<string>, maxBytes: int)
    ensures Flatten(Groups(parts, maxBytes)) == parts
    ensures Greedy(Groups(parts, maxBytes), maxBytes)
  {
    RunConsistent(parts, maxBytes);
  }

  /**
   The first output chunk is the empty string flushed before anything was added exactly
   when the first part alone is over the budget.
   */
  lemma LeadingEmptyChunk(parts: seq<string>, delimiter: string, maxBytes: int)
    requires parts != []
    ensures Groups(parts, maxBytes)[0] == [] <==> Utf8Len(parts[0]) > maxBytes
    ensures Utf8Len(parts[0]) > maxBytes ==> Chunks(parts, delimiter, maxBytes)[0] == ""
  {
    var groups := Groups(parts, maxBytes);
    GroupsSpec(parts, maxBytes);
    if groups[0] != [] {
      assert Flatten(groups) == groups[0] + Flatten(groups[1..]);
      assert parts[0] == groups[0][0];
      assert Counted(groups, 0) == groups[0];
      PartBytesWithinSum(groups[0], 0);
    } else {
      assert Flatten(groups) == Flatten(groups[1..]);
      assert |groups| >= 2;
      assert Flatten(groups[1..]) == groups[1] + Flatten(groups[2..]);
      assert parts[0] == groups[1][0];
      assert Counted(groups, 0) == [] && SumBytes([]) == 0;
    }
  }

  /** Distributing a product over a successor, for the inductive step of `JoinBytes`. */
  lemma MulSucc(n: int, d: int)
    ensures (n + 1) * d == n * d + d
  {
  }

  /** Encoded size of a joined chunk: the parts' bytes plus one delimiter between each two. */
  lemma {:induction false} JoinBytes(delimiter: string, parts: seq<string>)
    requires parts != []
    ensures Utf8Len(Join(delimiter, parts)) == SumBytes(parts) + (|parts| - 1) * Utf8Len(delimiter)
    decreases |parts|
  {
    var d := Utf8Len(delimiter);
    if |parts| >= 2 {
      var rest := Join(delimiter, parts[1..]);
      var between := (|parts| - 2) * d;
      JoinBytes(delimiter, parts[1..]);
      assert Utf8Len(rest) == SumBytes(parts[1..]) + between;
      MulSucc(|parts| - 2, d);
      assert (|parts| - 1) * d == between + d;
      assert Join(delimiter, parts) == parts[0] + delimiter + rest;
      Utf8LenAppend(parts[0], delimiter);
      Utf8LenAppend(parts[0] + delimiter, rest);
      assert Utf8Len(Join(delimiter, parts)) == Utf8Len(parts[0]) + d + Utf8Len(rest);
      assert SumBytes(parts) == Utf8Len(parts[0]) + SumBytes(parts[1..]);
    } else {
      assert Join(delimiter, parts) == parts[0];
      assert SumBytes(parts) == Utf8Len(parts[0]) + SumBytes(parts[1..]);
      assert parts[1..] == [];
    }
  }

  /** The swap of U+3000 for U+3002 keeps the UTF-8 size: both take three bytes. */
  lemma NormalizeKeepsBytes(part: string)
    ensures Utf8Len(NormalizeSpaces(part)) == Utf8Len(part)
  {
    ReplaceCharPointwise(part, IdeographicSpace, IdeographicFullStop);
    Utf8LenSameWidth(part, NormalizeSpaces(part));
  }

  lemma {:induction false} NormalizeAllKeepsBytes(parts: seq<string>)
    ensures SumBytes(NormalizeAll(parts)) == SumBytes(parts)
    decreases |parts|
  {
    if parts != [] {
      NormalizeKeepsBytes(parts[0]);
      NormalizeAllKeepsBytes(parts[1..]);
      assert NormalizeAll(parts)[1..] == NormalizeAll(parts[1..]);
    }
  }

  /**
   The UTF-8 size of every non-empty output chunk: the bytes of its parts plus the
   bytes of the delimiters between them, which the counter never sees.
   */
  lemma ChunkBytes(parts: seq<string>, delimiter: string, maxBytes: int)
    ensures var groups := Groups(parts, maxBytes);
            var chunks := Chunks(parts, delimiter, maxBytes);
            && |chunks| == |groups|
            && forall i :: 0 <= i < |groups| && groups[i] != [] ==>
                 Utf8Len(chunks[i]) == SumBytes(groups[i]) + (|groups[i]| - 1) * Utf8Len(delimiter)
  {
    var groups := Groups(parts, maxBytes);
    forall i | 0 <= i < |groups| && groups[i] != []
      ensures Utf8Len(Chunks(parts, delimiter, maxBytes)[i])
           == SumBytes(groups[i]) + (|groups[i]| - 1) * Utf8Len(delimiter)
    {
      var normalized := NormalizeAll(groups[i]);
      assert Chunks(parts, delimiter, maxBytes)[i] == Join(delimiter, normalized);
      assert |normalized| == |groups[i]|;
      JoinBytes(delimiter, normalized);
      NormalizeAllKeepsBytes(groups[i]);
    }
  }

  /** In a greedy packing under a non-negative budget, each group's bytes beyond its uncounted opener fit the budget. */
  lemma GreedyGroupBytes(groups: seq<seq<string>>, maxBytes: int)
    requires 0 <= maxBytes && |groups| >= 1 && Greedy(groups, maxBytes)
    ensures SumBytes(groups[0]) <= maxBytes
    ensures forall i :: 1 <= i < |groups| ==> SumBytes(groups[i]) <= Utf8Len(groups[i][0]) + maxBytes
  {
    assert Counted(groups, 0) == groups[0];
    forall i | 1 <= i < |groups|
      ensures SumBytes(groups[i]) <= Utf8Len(groups[i][0]) + maxBytes
    {
      assert Counted(groups, i) == groups[i][1..];
    }
  }

  /**
   The byte bound `combine_text` really guarantees (for a budget of at least 0): the first
   chunk is within the budget apart from its delimiters; any later chunk only apart from
   its delimiters and the part that opened it, whose bytes the reset to 0 forgets.
   */
  lemma ChunkBudget(parts: seq<string>, delimiter: string, maxBytes: int)
    requires 0 <= maxBytes
    ensures var groups := Groups(parts, maxBytes);
            var chunks := Chunks(parts, delimiter, maxBytes);
            && |chunks| == |groups|
            && (groups[0] != [] ==> Utf8Len(chunks[0]) <= maxBytes + (|groups[0]| - 1) * Utf8Len(delimiter))
            && (forall i :: 1 <= i < |groups| ==> groups[i] != [])
            && forall i :: 1 <= i < |groups| ==>
                 Utf8Len(chunks[i]) <= Utf8Len(groups[i][0]) + maxBytes + (|groups[i]| - 1) * Utf8Len(delimiter)
  {
    var groups := Groups(parts, maxBytes);
    GroupsSpec(parts, maxBytes);
    ChunkBytes(parts, delimiter, maxBytes);
    GreedyGroupBytes(groups, maxBytes);
  }

  /**
   A part over the budget never fails and is never split: it is passed through, but
   only ever as the part that opens a chunk after a flush. Every other position of every
   chunk holds a part within the budget.
   */
  lemma OversizedOpensChunk(parts: seq<string>, maxBytes: int)
    ensures var groups := Groups(parts, maxBytes);
            forall i, j :: 0 <= i < |groups| && 0 <= j < |groups[i]| && Utf8Len(groups[i][j]) > maxBytes ==>
              i >= 1 && j == 0
  {
    var groups := Groups(parts, maxBytes);
    GroupsSpec(parts, maxBytes);
    forall i, j | 0 <= i < |groups| && 0 <= j < |groups[i]| && (i == 0 || j >= 1)
      ensures Utf8Len(groups[i][j]) <= maxBytes
    {
      if i == 0 {
        assert Counted(groups, 0) == groups[0];
        PartBytesWithinSum(groups[0], j);
      } else {
        assert Counted(groups, i) == groups[i][1..];
        assert groups[i][j] == groups[i][1..][j - 1];
        PartBytesWithinSum(groups[i][1..], j - 1);
      }
    }
  }

  /**
   Every character of a chunk that is not from the delimiter is a full stop or a
   character of some input part; in particular no ideographic space is left.
   */
  lemma ChunkChars(parts: seq<string>, delimiter: string, maxBytes: int, i: nat, c: char)
    requires i < |Chunks(parts, delimiter, maxBytes)|
    requires c in Chunks(parts, delimiter, maxBytes)[i] && c !in delimiter
    ensures c == IdeographicFullStop || (c != IdeographicSpace && exists k :: 0 <= k < |parts| && c in parts[k])
  {
    var groups := Groups(parts, maxBytes);
    var normalized := NormalizeAll(groups[i]);
    JoinChars(delimiter, normalized, c);
    var j :| 0 <= j < |normalized| && c in normalized[j];
    ReplaceCharChars(groups[i][j], IdeographicSpace, IdeographicFullStop, c);
    if c != IdeographicFullStop {
      GroupsSpec(parts, maxBytes);
      FlattenMember(groups, i, j);
      var k :| 0 <= k < |parts| && parts[k] == groups[i][j];
      assert c in parts[k];
    }
  }

  /** The loop state after one 2-byte part under a 3-byte budget. */
  lemma OneSmallPartRun()
    ensures Run(["aa"], 3) == Builder([], ["aa"], 2)
  {
    assert Utf8Len("aa") == 2;
    assert ["aa"][..0] == [];
  }

  /** The loop state after two 2-byte parts under a 3-byte budget: the second one flushed. */
  lemma TwoSmallPartsRun()
    ensures Run(["aa", "aa"], 3) == Builder([["aa"]], ["aa"], 0)
  {
    OneSmallPartRun();
    assert Utf8Len("aa") == 2;
    assert ["aa", "aa"][..1] == ["aa"];
  }

  /** The packing of three 2-byte parts under a 3-byte budget. */
  lemma ThreeSmallPartsGroups()
    ensures Groups(["aa", "aa", "aa"], 3) == [["aa"], ["aa", "aa"]]
  {
    TwoSmallPartsRun();
    assert Utf8Len("aa") == 2;
    assert ["aa", "aa", "aa"][..2] == ["aa", "aa"];
    assert Run(["aa", "aa", "aa"], 3) == Builder([["aa"]], ["aa", "aa"], 2);
  }

  /**
   The budget is not a bound on chunks even when no part is oversized: after the reset
   to 0 the opening part is not counted, so two 2-byte parts share a chunk under a 3-byte budget.
   */
  lemma ChunkCanExceedBudget()
    ensures var parts := ["aa", "aa", "aa"];
            var chunks := Chunks(parts, [IdeographicFullStop], 3);
            && (forall k :: 0 <= k < |parts| ==> Utf8Len(parts[k]) <= 3)
            && chunks == ["aa", "aa" + [IdeographicFullStop] + "aa"]
            && Utf8Len(chunks[1]) == 7
  {
    ThreeSmallPartsGroups();
    assert Utf8Len("aa") == 2;
    assert NormalizeSpaces("aa") == "aa";
    assert NormalizeAll(["aa"]) == ["aa"];
    assert NormalizeAll(["aa", "aa"]) == ["aa", "aa"];
    assert Join([IdeographicFullStop], ["aa"]) == "aa";
    var joined := "aa" + [IdeographicFullStop] + "aa";
    assert Join([IdeographicFullStop], ["aa", "aa"]) == joined by {
      assert ["aa", "aa"][1..] == ["aa"];
    }
    assert Utf8Len(joined) == 7 by {
      Utf8LenAppend("aa" + [IdeographicFullStop], "aa");
      Utf8LenAppend("aa", [IdeographicFullStop]);
      assert Utf8Len([IdeographicFullStop]) == 3;
    }
  }

  /** The packing of a 4-byte part and a 1-byte part under a 3-byte budget. */
  lemma OversizedThenSmallGroups()
    ensures Groups(["aaaa", "a"], 3) == [[], ["aaaa", "a"]]
  {
    assert Utf8Len("aaaa") == 4 && Utf8Len("a") == 1;
    var b1 := Builder([[]], ["aaaa"], 0);
    assert Run(["aaaa"], 3) == b1 by {
      assert ["aaaa"][..0] == [];
      assert Step(Builder([], [], 0), "aaaa", 3) == b1;
    }
    assert Run(["aaaa", "a"], 3) == Builder([[]], ["aaaa", "a"], 1) by {
      assert ["aaaa", "a"][..1] == ["aaaa"];
      assert Step(b1, "a", 3) == Builder([[]], ["aaaa", "a"], 1);
    }
  }

  /**
   An oversized part need not get a chunk of its own: a part that fits is still added
   after it, because the counter restarted from 0.
   */
  lemma OversizedPartSharesChunk()
    ensures Chunks(["aaaa", "a"], [IdeographicFullStop], 3) == ["", "aaaa\U{3002}a"]
  {
    OversizedThenSmallGroups();
    assert NormalizeSpaces("aaaa") == "aaaa" && NormalizeSpaces("a") == "a";
    assert NormalizeAll(["aaaa", "a"]) == ["aaaa", "a"];
    assert NormalizeAll([]) == [];
    assert Join([IdeographicFullStop], []) == "";
    assert Join([IdeographicFullStop], ["aaaa", "a"]) == "aaaa\U{3002}a";
  }

  /**
   `combine_text(text_parts, delimiter, max_bytes)`: walk the parts, flushing the builder
   when the running count would pass the budget, and flush the last builder at the end.
   The oversized-part log line is not modelled.
   */
  method CombineText(textParts: seq<string>, delimiter: string, maxBytes: int) returns (outputSplits: seq<string>)
    ensures outputSplits == Chunks(textParts, delimiter, maxBytes)
    ensures |outputSplits| >= 1
    ensures textParts == [] ==> outputSplits == [""]
    ensures textParts != [] && Utf8Len(textParts[0]) > maxBytes ==> outputSplits[0] == ""
  {
    outputSplits := [];
    var strBuilder: seq<string> := [];
    var curSize := 0;
    for k := 0 to |textParts|
      invariant outputSplits == JoinGroups(delimiter, Run(textParts[..k], maxBytes).flushed)
      invariant strBuilder == NormalizeAll(Run(textParts[..k], maxBytes).open)
      invariant curSize == Run(textParts[..k], maxBytes).curSize
    {
      var textPart := textParts[k];
      ghost var before := Run(textParts[..k], maxBytes);
      assert textParts[..k + 1][..k] == textParts[..k];
      var partSize := Utf8Len(textPart);
      curSize := curSize + partSize;
      if curSize > maxBytes {
        JoinGroupsSnoc(delimiter, before.flushed, before.open);
        outputSplits := outputSplits + [Join(delimiter, strBuilder)];
        strBuilder := [];
        curSize := 0;
        NormalizeAllSnoc([], textPart);
      } else {
        NormalizeAllSnoc(before.open, textPart);
      }
      strBuilder := strBuilder + [NormalizeSpaces(textPart)];
    }
    assert textParts[..|textParts|] == textParts;
    outputSplits := outputSplits + [Join(delimiter, strBuilder)];
    if textParts != [] {
      LeadingEmptyChunk(textParts, delimiter, maxBytes);
    }
  }
}
