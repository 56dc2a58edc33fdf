# epub-to-speech: text segmentation, modelled in Dafny

epub-to-speech turns an EPUB book into one MP3 file per chapter. For each chapter it takes
the text of every HTML tag that holds CJK characters and cuts it into sentence-like
fragments on `。`, `!` and `?` (`split_text`). It then packs those fragments greedily into
chunks under a UTF-8 byte budget of 500 (`combine_text`), and sends each chunk to a
text-to-speech service. This project models that segmentation core of `src/main.py` and
proves what it guarantees:

- `wrappers.dfy`, module `Wrappers`: an `Option` type for a lookup that may fail.
- `strings.dfy`, module `Strings`: the Python string operations the core relies on:
  - `str.split` with a non-empty separator (leftmost, non-overlapping cuts);
  - `str.join`;
  - the substring test `t in s`;
  - `str.replace` of one character by another.
- `utf8.dfy`, module `Utf8`: `len(s.encode("utf-8"))`, counted per Unicode scalar value
  (1 to 4 bytes by code-point range, section 3 of RFC 3629).
- `segmenter.dfy`, module `Segmenter`:
  - `split_text` as the pure functions `SplitText`/`SplitEach`.
  - `combine_text` as the method `CombineText`, whose loop is proved equal to the function
    `Chunks`. `Chunks` joins the groups `Groups` that a fold (`Run`/`Step`) over the loop
    state produces. That state is the flushed builders, the open builder and `cur_size`.
- `extractor.dfy`, module `Extractor`:
  - `contains_chinese` as the search method `ContainsChinese`.
  - The chapter loop of `get_epub_chapters` as the method `GetEpubChapters`, a loop over
    documents. Its inner loop over tags is the method `ChapterParts`. The two are proved
    equal to the functions `Header`, `PartsOf` and `ChapterOf`.

The EPUB reader and the HTML parser are abstracted away. A document is what they produce:
the item's name, the texts of its `h1`…`h6` tags in that order, and the text of every tag
in document order. `unicodedata.name` is a parameter `char -> Option<string>`, where `None`
stands for the `ValueError` of a character without a name. `ftfy.fix_text` is a parameter
`string -> string`.

Two consequences of the loop in `combine_text` (src/main.py:34-47) are easy to miss:

- A chunk can exceed the budget even when no fragment does. On overflow `cur_size` is
  reset to 0, not to the size of the part that caused the overflow, and that part still
  opens the next builder uncounted. Delimiter bytes are never counted either.
  `Segmenter.ChunkCanExceedBudget` gives three 2-byte parts under a 3-byte budget that
  produce a 7-byte chunk.
- An oversized fragment need not get a chunk of its own: a part that fits is still added
  after it, because the counter restarted from 0. See `Segmenter.OversizedPartSharesChunk`.

What the loop does guarantee is stated by `Segmenter.GroupsSpec`, `Segmenter.ChunkBudget`
and `Segmenter.OversizedOpensChunk`.

## Model

| member | source | states |
|---|---|---|
| `Strings.Split` | src/main.py:16 | `text.split(delimiter)` always yields at least one piece |
| `Strings.Join` | src/main.py:38 | `sep.join(parts)` starts with the first part |
| `Strings.Contains` | src/main.py:55 | `t in s` holds only when `t` is no longer than `s`, and holds whenever `t` is a prefix of `s` |
| `Strings.ReplaceChar` | src/main.py:45 | `s.replace(a, b)` for single characters keeps the length and leaves no `a` when `a != b` |
| `Strings.JoinSplit` | src/main.py:16 | joining the pieces of `s.split(sep)` with `sep` gives back `s` |
| `Strings.SplitPiecesLackSeparator` | src/main.py:16 | no piece of `s.split(sep)` contains `sep` |
| `Strings.SplitPiecesAvoid` | src/main.py:16 | splitting a string free of `t` gives pieces free of `t` |
| `Strings.SplitWithoutSeparator` | src/main.py:16 | a string without `sep` splits into the one-element list holding it |
| `Strings.JoinEmpty` | src/main.py:69-74 | `sep.join(parts)` is empty iff every part is empty and (at most one part or `sep` empty) |
| `Strings.JoinChars` | src/main.py:38 | every character of a joined string comes from the separator or from some part |
| `Strings.ContainsChar` | src/main.py:80 | a one-character substring test is character membership |
| `Strings.ReplaceCharChars` | src/main.py:45 | after `replace(a, b)` every character is `b` or a character of the input other than `a` |
| `Strings.ReplaceCharPointwise` | src/main.py:45 | `replace` of one character keeps the length and maps each position independently |
| `Utf8.CharBytes` | src/main.py:28-29 | a scalar value encodes to 1 to 4 bytes, exactly 1 below U+0080 |
| `Utf8.Utf8Len` | src/main.py:28-29 | `utf8len(s)` lies between the character count and four times it |
| `Utf8.Utf8LenAscii` | src/main.py:28-29 | `utf8len(s)` equals the character count exactly when every character is ASCII |
| `Utf8.Utf8LenAppend` | src/main.py:28-29 | the UTF-8 length of a concatenation is the sum of the lengths |
| `Segmenter.SplitText` | src/main.py:14-22 | `split_text` returns a non-empty list (it needs a non-empty delimiter list of non-empty delimiters) |
| `Segmenter.SplitEach` | src/main.py:20-22 | flattening the per-piece splits of a non-empty piece list yields a non-empty list |
| `Segmenter.SplitTextFlattens` | src/main.py:15-22 | with two or more delimiters the result is the left-to-right concatenation of `split_text(p, rest)` over the pieces `p` of `text.split(delimiters[0])` |
| `Segmenter.SplitEachFlattens` | src/main.py:20-22 | the recursive flattening equals `sum([split_text(p, rest) for p in parts], [])` written as one list per piece, concatenated |
| `Segmenter.SplitTextRoundTrip` | src/main.py:14-18 | with a single delimiter, joining the result with it gives back the text |
| `Segmenter.SplitTextRejoin` | src/main.py:14-22 | putting back, between consecutive fragments, the delimiter occurrence cut there (always one of the delimiters) rebuilds the text |
| `Segmenter.SplitEachRejoin` | src/main.py:20-22 | the flattened splits of a piece list, with the cut delimiters put back, rebuild the outer join of the pieces |
| `Segmenter.SplitTextNoDelimiter` | src/main.py:14-22 | no fragment contains any of the delimiters |
| `Segmenter.SplitTextAvoids` | src/main.py:14-22 | fragments of a text free of `t` are free of `t` |
| `Segmenter.SplitTextUnsplittable` | src/main.py:14-22 | a text holding none of the delimiters comes back as `[text]` |
| `Segmenter.CombineText` | src/main.py:25-49 | the loop returns `Chunks(parts)`: at least one chunk, `[""]` for no parts, a leading `""` when the first part is over budget |
| `Segmenter.Step` | src/main.py:35-45 | one iteration always puts the part last in the open builder; it flushes at most the old builder; without a flush the counter stays within budget |
| `Segmenter.Run` | src/main.py:31-45 | the state after the loop over the parts: at most one flush per part, and the last part is last in the open builder |
| `Segmenter.Groups` | src/main.py:34-47 | the builders `combine_text` emits: at least one and at most one more than the parts; the last is non-empty when there are parts |
| `Segmenter.Chunks` | src/main.py:31-49 | the list `combine_text` returns: one chunk per group, between 1 and one more than the parts, and `[""]` for no parts |
| `Segmenter.StepConsistent` | src/main.py:35-45 | one loop iteration keeps the packing greedy, keeps `cur_size` equal to the counted bytes of the open builder, and appends the part |
| `Segmenter.GreedyFlush` | src/main.py:37-40 | a flush (counted bytes plus the new part over budget) opens a new builder with nothing counted |
| `Segmenter.GreedyGrow` | src/main.py:36 | without a flush the part's bytes are added to the count, which stays within budget |
| `Segmenter.RunConsistent` | src/main.py:34-45 | after any prefix of the parts, the loop state is consistent and its builders cover the prefix in order |
| `Segmenter.GroupsSpec` | src/main.py:34-47 | the flushed builders concatenated are exactly the input parts; every group after the first is opened by a part; counted bytes (all parts of the first group, all but the opener of a later one) stay within budget; each flush happened because counted bytes plus the next opener exceeded it |
| `Segmenter.LeadingEmptyChunk` | src/main.py:34-45 | the first group is empty iff the first part alone is over budget, and then the first chunk is `""` |
| `Segmenter.NormalizeKeepsBytes` | src/main.py:45 | replacing U+3000 by `。` does not change the UTF-8 size |
| `Segmenter.ChunkBytes` | src/main.py:38-47 | a non-empty chunk's UTF-8 size is its parts' bytes plus the bytes of one delimiter between each two parts |
| `Segmenter.ChunkBudget` | src/main.py:35-47 | the first chunk is within budget apart from its delimiters; a later chunk apart from its delimiters and its opening part |
| `Segmenter.OversizedOpensChunk` | src/main.py:42-45 | an over-budget part is passed through unsplit, but only ever as the first part of a chunk after a flush |
| `Segmenter.ChunkChars` | src/main.py:45-47 | a chunk character not from the delimiter is `。` or a character of some part, never U+3000 |
| `Segmenter.ChunkCanExceedBudget` | src/main.py:35-45 | parts of 2 bytes each under a budget of 3 give a 7-byte chunk |
| `Segmenter.OversizedPartSharesChunk` | src/main.py:37-45 | a 4-byte part under a budget of 3 yields a leading `""` and then shares its chunk with the next part |
| `Extractor.ContainsChinese` | src/main.py:52-59 | true iff some character has a name containing `CJK`; nameless characters are skipped; false on `""` |
| `Extractor.IsCjkChar` | src/main.py:54-58 | a character without a name never counts as CJK, and one whose name starts with `CJK` always does |
| `Extractor.HasCjkChar` | src/main.py:52-59 | what `contains_chinese` decides: false on `""`, and on one character exactly `IsCjkChar` |
| `Extractor.Header` | src/main.py:69-74 | the header is the joined fixed heading texts, and falls back to the item name exactly when that join is empty |
| `Extractor.ChapterParts` | src/main.py:76-82 | the tag loop returns exactly `PartsOf(tagTexts)`: the chunks of the CJK tags, in tag order |
| `Extractor.GetEpubChapters` | src/main.py:62-87 | one chapter per document, in order, with the header and the parts of that document |
| `Extractor.TagParts` | src/main.py:78-82 | a tag contributes no chunks exactly when its fixed text holds no CJK character |
| `Extractor.PartsOf` | src/main.py:76-82 | the chapter's `parts`: every chunk of every tag is among them |
| `Extractor.ChapterOf` | src/main.py:69-84 | one chapter: the header is empty only when the item's name is, and the parts are empty exactly when no tag holds CJK text |
| `Extractor.PartsOfAppend` | src/main.py:76-82 | the parts of two runs of tags are the parts of the first, then those of the second |
| `Extractor.PartsOfSnoc` | src/main.py:77-82 | one more tag appends exactly its own chunks to the parts |
| `Extractor.NoCjkNoParts` | src/main.py:76-82 | a chapter has no parts iff none of its tags' fixed texts holds a CJK character |
| `Extractor.TagPartsClean` | src/main.py:78-82 | no chunk of a tag contains ASCII `!`, ASCII `?` or U+3000 |
| `Extractor.PartsClean` | src/main.py:76-82 | no part of a chapter contains ASCII `!`, ASCII `?` or U+3000 |

## Left out

- EPUB reading (`epub.read_epub`, `get_items_of_type`) and HTML parsing (`BeautifulSoup`, `find_all`, `get_text`) are foreign libraries. Their output is an input of the model (`Extractor.Document`). Nested tags giving overlapping texts is whatever that input holds.
- `ftfy.fix_text` and `unicodedata.name` are foreign library functions. They are parameters of the model, with no properties assumed.
- `gcp_text_to_speech` (src/main.py:90-109) is a network call plus a file write.
- `main` (src/main.py:112-139) is directory creation, a thread pool of 3, and MP3 concatenation with per-chapter exception handling. It is I/O and concurrency. The header delimiter `，` that `main` passes is a parameter of `Extractor.GetEpubChapters`.
- The credential environment variable and the `__main__` block (src/main.py:142-153) are left out.
- The `print` calls (src/main.py:43, 48) are logging only and are not modelled.
- The `max_bytes` default of 1000 is not modelled, because the only caller passes 500.
- `Segmenter.SplitText`: an empty delimiter list raises `IndexError` in the source, and an empty delimiter raises `ValueError` in `str.split`. The model makes both a precondition instead of an error result, because the only caller passes the fixed, valid list `["。", "!", "?"]`.
- `Segmenter.ChunkBudget`: stated for a budget of at least 0. With a negative budget every part opens its own chunk, and the bound as written would not hold for single-part chunks. `Segmenter.GroupsSpec` covers every budget.
- Strings with lone surrogates, which would make `encode("utf-8")` raise, cannot be expressed: Dafny characters are Unicode scalar values.
