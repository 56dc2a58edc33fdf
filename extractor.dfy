/**
 The chapter extractor: the CJK test on a tag's text and the per-chapter assembly of a
 header and a list of speech chunks. The EPUB reader and the HTML parser are outside the
 model: a document is given as what they produce (the item's name, the texts of its
 heading tags, the texts of all its tags), and the two library functions used on text,
 `unicodedata.name` and `ftfy.fix_text`, are parameters.
 */
module Extractor {
  import opened Wrappers
  import opened Strings
  import opened Segmenter

  /** `unicodedata.name(ch)`: `None` where Python raises `ValueError` (no name). */
  type NameLookup = char -> Option<string>

  /** `ftfy.fix_text`, an uninterpreted repair of mis-decoded text. */
  type TextFixer = string -> string

  /** The sentence delimiters of a tag's text: full-width `。`, then ASCII `!` and `?`. */
  const SentenceDelimiters: seq<string> := [[IdeographicFullStop], "!", "?"]
  /** Chunks are joined back with `。`. */
  const ChunkDelimiter: string := [IdeographicFullStop]
  /** Byte budget of a chunk at the extractor's call site. */
  const ChunkMaxBytes: int := 500

  /**
   The character has a Unicode name and the name contains `CJK`; a nameless character never
   counts, and a name that starts with `CJK` (`CJK UNIFIED IDEOGRAPH-…`) always does.
   */
  function IsCjkChar(c: char, name: NameLookup): (b: bool)
    ensures b ==> name(c).Some? && |name(c).value| >= 3
    ensures name(c).Some? && "CJK" <= name(c).value ==> b
  {
    match name(c)
    case Some(n) => Contains(n, "CJK")
    case None => false
  }

  /** Some character of `s` is a CJK character; never so for `""`, and for one character exactly when it is. */
  function HasCjkChar(s: string, name: NameLookup): (b: bool)
    ensures b ==> s != ""
    ensures |s| == 1 ==> (b <==> IsCjkChar(s[0], name))
  {
    exists i :: 0 <= i < |s| && IsCjkChar(s[i], name)
  }

  /**
   `contains_chinese(s)`: scan the characters, answer true at the first one whose name
   contains `CJK`; characters without a name are skipped.
   */
  method ContainsChinese(s: string, name: NameLookup) returns (found: bool)
    ensures found <==> HasCjkChar(s, name)
    ensures s == "" ==> !found
  {
    for i := 0 to |s|
      invariant forall j :: 0 <= j < i ==> !IsCjkChar(s[j], name)
    {
      match name(s[i]) {
        case Some(n) =>
          if Contains(n, "CJK") {
            return true;
          }
        case None =>
      }
    }
    return false;
  }

  /** What the parser and the EPUB reader yield for one document item. */
  datatype Document = Document(
    name: string,                // chapter.get_name()
    headingTexts: seq<string>,   // get_text() of every h1, then every h2, ..., then every h6
    tagTexts: seq<string>)       // get_text() of every tag, in document order

  datatype Chapter = Chapter(header: string, parts: seq<string>)

  function FixAll(texts: seq<string>, fix: TextFixer): seq<string>
  {
    seq(|texts|, i requires 0 <= i < |texts| => fix(texts[i]))
  }

  /** The joined heading texts are empty: every repaired heading is empty and no delimiter shows. */
  predicate HeadingsBlank(doc: Document, headerDelimiter: string, fix: TextFixer)
  {
    && (forall k :: 0 <= k < |doc.headingTexts| ==> fix(doc.headingTexts[k]) == "")
    && (|doc.headingTexts| <= 1 || headerDelimiter == "")
  }

  /**
   The chapter header: the repaired heading texts joined by `headerDelimiter`, or the
   item's name when that join is the empty string.
   */
  function Header(doc: Document, headerDelimiter: string, fix: TextFixer): (header: string)
    ensures HeadingsBlank(doc, headerDelimiter, fix) ==> header == doc.name
    ensures !HeadingsBlank(doc, headerDelimiter, fix) ==>
              header != "" && header == Join(headerDelimiter, FixAll(doc.headingTexts, fix))
  {
    var fixed := FixAll(doc.headingTexts, fix);
    var joined := Join(headerDelimiter, fixed);
    JoinEmpty(headerDelimiter, fixed);
    assert forall k :: 0 <= k < |fixed| ==> fixed[k] == fix(doc.headingTexts[k]);
    if joined == "" then doc.name else joined
  }

  /** The chunks one tag contributes: its repaired text split and combined when it is CJK text. */
  function TagParts(text: string, name: NameLookup): (chunks: seq<string>)
    ensures chunks == [] <==> !HasCjkChar(text, name)
  {
    if HasCjkChar(text, name) then Chunks(SplitText(text, SentenceDelimiters), ChunkDelimiter, ChunkMaxBytes)
    else []
  }

  /** What each tag contributes, in tag order. */
  function TagContributions(tagTexts: seq<string>, fix: TextFixer, name: NameLookup): seq<seq<string>>
  {
    seq(|tagTexts|, i requires 0 <= i < |tagTexts| => TagParts(fix(tagTexts[i]), name))
  }

  /** The chapter's `parts`: the tags' contributions, one after the other; every chunk of every tag is among them. */
  function PartsOf(tagTexts: seq<string>, fix: TextFixer, name: NameLookup): (parts: seq<string>)
    ensures var contributions := TagContributions(tagTexts, fix, name);
            forall k, j :: 0 <= k < |contributions| && 0 <= j < |contributions[k]| ==> contributions[k][j] in parts
  {
    var contributions := TagContributions(tagTexts, fix, name);
    FlattenMembers(contributions);
    Flatten(contributions)
  }

  /**
   The chapter of one document: its header is empty only when the item's name is, and it has
   no parts exactly when none of its tags holds CJK text.
   */
  function ChapterOf(doc: Document, headerDelimiter: string, fix: TextFixer, name: NameLookup): (chapter: Chapter)
    ensures chapter.header == "" ==> doc.name == ""
    ensures chapter.parts == [] <==> forall k :: 0 <= k < |doc.tagTexts| ==> !HasCjkChar(fix(doc.tagTexts[k]), name)
  {
    NoCjkNoParts(doc.tagTexts, fix, name);
    Chapter(Header(doc, headerDelimiter, fix), PartsOf(doc.tagTexts, fix, name))
  }

  /**
   The tag loop of `get_epub_chapters`: repair each tag's text and, when it holds CJK text,
   extend the chapter's parts by its combined sentence fragments.
   */
  method ChapterParts(tagTexts: seq<string>, fix: TextFixer, name: NameLookup) returns (parts: seq<string>)
    ensures parts == PartsOf(tagTexts, fix, name)
  {
    parts := [];
    assert TagContributions([], fix, name) == [];
    for t := 0 to |tagTexts|
      invariant parts == PartsOf(tagTexts[..t], fix, name)
    {
      var p := fix(tagTexts[t]);
      var isChinese := ContainsChinese(p, name);
      if isChinese {
        var splits := SplitText(p, SentenceDelimiters);
        var combinedSplits := CombineText(splits, ChunkDelimiter, ChunkMaxBytes);
        parts := parts + combinedSplits;
      }
      assert tagTexts[..t + 1] == tagTexts[..t] + [tagTexts[t]];
      PartsOfSnoc(tagTexts[..t], tagTexts[t], fix, name);
    }
    assert tagTexts[..|tagTexts|] == tagTexts;
  }

  /**
   The chapter loop of `get_epub_chapters`, after parsing: one chapter per document, in
   document order, each with its header and the chunks of its CJK tags.
   */
  method GetEpubChapters(documents: seq<Document>, headerDelimiter: string, fix: TextFixer, name: NameLookup)
    returns (chapters: seq<Chapter>)
    ensures |chapters| == |documents|
    ensures forall i :: 0 <= i < |documents| ==> chapters[i] == ChapterOf(documents[i], headerDelimiter, fix, name)
  {
    chapters := [];
    for c := 0 to |documents|
      invariant |chapters| == c
      invariant forall i :: 0 <= i < c ==> chapters[i] == ChapterOf(documents[i], headerDelimiter, fix, name)
    {
      var doc := documents[c];
      var header := Header(doc, headerDelimiter, fix);
      var parts := ChapterParts(doc.tagTexts, fix, name);
      chapters := chapters + [Chapter(header, parts)];
    }
  }

  // ---------------------------------------------------------------------------------------
  // properties of the assembled parts

  /** Parts keep tag order: the parts of two runs of tags are the parts of each, one after the other. */
  lemma PartsOfAppend(a: seq<string>, b: seq<string>, fix: TextFixer, name: NameLookup)
    ensures PartsOf(a + b, fix, name) == PartsOf(a, fix, name) + PartsOf(b, fix, name)
  {
    var ab, ca, cb := TagContributions(a + b, fix, name), TagContributions(a, fix, name), TagContributions(b, fix, name);
    forall i | 0 <= i < |a| + |b|
      ensures ab[i] == (ca + cb)[i]
    {
      if i < |a| {
        assert (a + b)[i] == a[i];
      } else {
        assert (a + b)[i] == b[i - |a|];
      }
    }
    assert ab == ca + cb;
    FlattenAppend(ca, cb);
  }

  /** One more tag appends its own contribution. */
  lemma PartsOfSnoc(tagTexts: seq<string>, text: string, fix: TextFixer, name: NameLookup)
    ensures PartsOf(tagTexts + [text], fix, name) == PartsOf(tagTexts, fix, name) + TagParts(fix(text), name)
  {
    PartsOfAppend(tagTexts, [text], fix, name);
    assert TagContributions([text], fix, name) == [TagParts(fix(text), name)];
    assert Flatten([TagParts(fix(text), name)]) == TagParts(fix(text), name) + [];
  }

  /**
   A chapter gets no parts exactly when none of its tags holds CJK text; each CJK tag
   contributes at least one chunk.
   */
  lemma {:induction false} NoCjkNoParts(tagTexts: seq<string>, fix: TextFixer, name: NameLookup)
    ensures PartsOf(tagTexts, fix, name) == [] <==>
            forall k :: 0 <= k < |tagTexts| ==> !HasCjkChar(fix(tagTexts[k]), name)
    decreases |tagTexts|
  {
    if tagTexts == [] {
      assert TagContributions(tagTexts, fix, name) == [];
    } else {
      var init := tagTexts[..|tagTexts| - 1];
      var last := fix(tagTexts[|tagTexts| - 1]);
      assert tagTexts == init + [tagTexts[|tagTexts| - 1]];
      PartsOfSnoc(init, tagTexts[|tagTexts| - 1], fix, name);
      NoCjkNoParts(init, fix, name);
      if HasCjkChar(last, name) {
        assert |TagParts(last, name)| >= 1 by {
          ChunkBytes(SplitText(last, SentenceDelimiters), ChunkDelimiter, ChunkMaxBytes);
        }
      }
      assert forall k :: 0 <= k < |init| ==> init[k] == tagTexts[k];
    }
  }

  /** A chunk holds no `!`, no `?` and no ideographic space. */
  predicate Clean(part: string)
  {
    '!' !in part && '?' !in part && IdeographicSpace !in part
  }

  /** No chunk of a tag holds `!`, `?` or an ideographic space. */
  lemma TagPartsClean(text: string, name: NameLookup)
    ensures forall i :: 0 <= i < |TagParts(text, name)| ==> Clean(TagParts(text, name)[i])
  {
    if HasCjkChar(text, name) {
      var fragments := SplitText(text, SentenceDelimiters);
      var chunks := Chunks(fragments, ChunkDelimiter, ChunkMaxBytes);
      SplitTextNoDelimiter(text, SentenceDelimiters);
      assert Avoids(fragments, "!") && Avoids(fragments, "?") by {
        assert SentenceDelimiters[1] == "!" && SentenceDelimiters[2] == "?";
      }
      forall k | 0 <= k < |fragments|
        ensures '!' !in fragments[k] && '?' !in fragments[k]
      {
        ContainsChar(fragments[k], '!');
        ContainsChar(fragments[k], '?');
      }
      forall i, c | 0 <= i < |chunks| && c in chunks[i] && c in {'!', '?', IdeographicSpace}
        ensures false
      {
        ChunkChars(fragments, ChunkDelimiter, ChunkMaxBytes, i, c);
      }
    }
  }

  /**
   End to end: no part of a chapter holds `!`, `?` or an ideographic space (each was a
   split point or was swapped for `。`).
   */
  lemma {:induction false} PartsClean(tagTexts: seq<string>, fix: TextFixer, name: NameLookup)
    ensures forall i :: 0 <= i < |PartsOf(tagTexts, fix, name)| ==> Clean(PartsOf(tagTexts, fix, name)[i])
    decreases |tagTexts|
  {
    if tagTexts == [] {
      assert TagContributions(tagTexts, fix, name) == [];
    } else {
      var front := PartsOf(tagTexts[..|tagTexts| - 1], fix, name);
      var back := TagParts(fix(tagTexts[|tagTexts| - 1]), name);
      assert tagTexts == tagTexts[..|tagTexts| - 1] + [tagTexts[|tagTexts| - 1]];
      PartsOfSnoc(tagTexts[..|tagTexts| - 1], tagTexts[|tagTexts| - 1], fix, name);
      PartsClean(tagTexts[..|tagTexts| - 1], fix, name);
      TagPartsClean(fix(tagTexts[|tagTexts| - 1]), name);
      assert PartsOf(tagTexts, fix, name) == front + back;
      forall i | 0 <= i < |front + back|
        ensures Clean((front + back)[i])
      {
        if i < |front| {
          assert (front + back)[i] == front[i];
        } else {
          assert (front + back)[i] == back[i - |front|];
        }
      }
    }
  }
}
