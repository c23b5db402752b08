# Auto-link engine of `linker`, in Dafny

`linker` rewrites a folder of markdown files so that phrases naming another document become
links to it. Every document opens with a YAML front matter that gives its `slug` and its
`keywords`. A first pass builds a keyword index, and a second pass links each document's
paragraphs against that index. This project models the engine at the core of that second
pass, and proves what each piece promises:

- **`keyword.dfy`**: the index `Keywords`, an append-only multimap from a lower-cased phrase
  to the set of slugs that declare it. It is a class whose `Insert` loop updates the map
  field in place.
- **`ngram.dfy`**:
  - `positioned(text, text.split_whitespace())`, which gives the words of a text with their
    offsets;
  - `ngram`, the sliding window, written as the source writes it: a buffer is pre-filled,
    then each item enters at the back while the front is dropped.
- **`write.dfy`**:
  - `Candidate`;
  - `generate_candidates`: windows of 4, 3 and 2 words are looked up, self-links are dropped,
    and one target is picked;
  - the selection closure of `update_content`: sort by start (longer first at equal start),
    a greedy sweep with no overlap and no repeated phrase or url, shuffle, cap at four, and
    record the result in the document-wide sets. This is the class `Selector`, whose fields
    are the two sets the closure captures;
  - the whole document: `LinkDocument`, and `UpdateContent` with its `---` framing of the
    output.
- **`markdown.dfy`**:
  - the markdown tree as a datatype;
  - `alter_text`: which Text nodes reach the helper, and how a reply replaces them;
  - the splice closure of `add_links`, which turns sorted `(start, length, url)` triples into
    alternating text and link nodes with a cursor.
- **`front_matter.dfy`** and **`document.dfy`**: `split_front_matter` and `Document::parse`.
- Support modules:
  - `strings.dfy`: whitespace, ASCII lower-casing, trimming, joining, the order on `String`,
    substring search;
  - `sorting.dfy`: a stable insertion sort standing for the library sorts;
  - `pairs.dfy`: pairwise relations over sequences and multisets;
  - `wrappers.dfy`: `Option` and `Result`.

Randomness is a free choice, and every property holds for every choice:

- `rng.next_u64() % len` picks "any owner": `var url :| url in others`.
- `shuffle` is a Fisher-Yates loop whose swap index is "any `j <= i`".

`alter_text` calls its helper once per eligible text, in document order. The helper's answer
depends only on the text and the selection state. So the model runs the selection over
`EligibleTexts(tree)` first, and then rewrites the tree with the resulting replies. This
gives the same calls, in the same order, with the same state. The selector's output is
proved to meet the splicer's precondition: the links lie inside their text and do not
overlap (`Write.SelectionsSplice`).

The self-link filter compares each owner with the document's slug as decoded. That slug is
not trimmed, while the index stores trimmed slugs. The model keeps this: `docSlug` is
`d.header.slug`.

## Model

| member | source | states |
|---|---|---|
| `Keyword.Keywords.constructor` | src/keyword.rs:12-16 | `new()` gives the empty map, in which no key maps to an empty set |
| `Keyword.Keywords.Insert` | src/keyword.rs:18-25 | the map becomes `Inserted(old map, trim(slug), keywords)`: the owner is added under each lower-cased keyword in turn; no key ever maps to an empty set |
| `Keyword.Keywords.Get` | src/keyword.rs:27-30 | a read-only exact-match lookup: `Some` exactly when the key is present, and then its non-empty owner set; `None` for an absent key |
| `Keyword.InsertedEntries` | src/keyword.rs:19-23 | after `insert`: the keys are the old keys plus the lower-cased keywords; each lower-cased keyword maps to its old owners plus the trimmed slug; every other key is untouched |
| `Keyword.InsertedKeys` | src/keyword.rs:20-22 | the keys after `insert` are exactly the old keys and the lower-cased keywords |
| `Keyword.InsertedTouched` | src/keyword.rs:21-23 | each lower-cased keyword ends up with its old owners plus the slug |
| `Keyword.InsertedUntouched` | src/keyword.rs:20-23 | a key that is not a lower-cased keyword keeps exactly its owners |
| `Keyword.InsertedFindsSlug` | src/keyword.rs:18-24 | after `insert(slug, ks)`, looking up `lowercase(k)` for any `k` in `ks` finds the slug |
| `Keyword.InsertedOnlyAdds` | src/keyword.rs:20-23 | `insert` only adds: no key disappears and no owner is removed |
| `Keyword.InsertedPresentIsNoOp` | src/keyword.rs:22-23 | inserting pairs that are all present already leaves the map unchanged |
| `Keyword.InsertedIdempotent` | src/keyword.rs:18-24 | repeating the same `insert` changes nothing |
| `Keyword.InsertedNoEmptyEntry` | src/keyword.rs:22-23 | `insert` keeps every key mapped to a non-empty set |
| `Strings.LowerChar` | src/keyword.rs:21 | upper-case ASCII letters become their lower-case letter; every other character is unchanged |
| `Strings.Lower` | src/write.rs:41 | `to_lowercase` keeps the length, leaves no upper-case ASCII letter, maps each upper-case letter to its lower-case one and keeps every other character |
| `Strings.TrimStart` | src/front_matter.rs:2 | `trim_start` removes a prefix made only of whitespace, and what remains does not start with whitespace |
| `Strings.TrimEnd` | src/keyword.rs:19 | `trim_end` removes a suffix made only of whitespace, and what remains does not end with whitespace |
| `Strings.AsciiSpace` | src/write.rs:38 | spot check of the `IsSpace` predicate (the White_Space property that `split_whitespace` and `trim` split on): space, tab, line feed, carriage return and form feed are whitespace, a letter and `-` are not |
| `Strings.Trim` | src/write.rs:133 | `trim` returns a slice of its input with only whitespace before and after it, and neither starts nor ends with whitespace |
| `Strings.TrimmedOf` | src/write.rs:133 | trimming the start and then the end leaves such a slice |
| `Strings.Join` | src/write.rs:41 | `join(words, " ")` has the words' total length plus one separator between each two words, and starts with the first word |
| `Strings.JoinOffsetLength` | src/write.rs:41 | part `k` of a join starts at `JoinOffset(k)`, which is the total length of the parts before it plus `k` separators |
| `Strings.JoinParts` | src/write.rs:41 | the contents of `join(words, " ")`: every word `k` sits at `JoinOffset(k)`, the separator fills the gap to `JoinOffset(k + 1)` between each two neighbours, and the last word ends the string |
| `Strings.JoinPartAt` | src/write.rs:41 | the slice of a join from `JoinOffset(k)` of the length of part `k` is part `k` |
| `Strings.JoinSepAt` | src/write.rs:41 | between part `k` and part `k + 1` of a join lies exactly one separator, ending at `JoinOffset(k + 1)` |
| `Strings.JoinLastEnds` | src/write.rs:41 | the last part of a join ends the joined string |
| `Strings.FindFrom` | src/front_matter.rs:6 | finds the first occurrence of the pattern at or after a position; `None` means it occurs nowhere there |
| `Strings.StrLeTotal` | src/markdown.rs:64 | any two urls are ordered one way or the other |
| `Strings.StrLeTransitive` | src/markdown.rs:64 | the order on urls is transitive |
| `Strings.StrLeAntisymmetric` | src/markdown.rs:64 | two urls ordered both ways are equal |
| `Sorting.SortBy` | src/markdown.rs:64 | sorting returns a permutation of its input (same length, same multiset) |
| `Sorting.SortBySorted` | src/write.rs:95-98 | for a total preorder, the sorted list is ordered |
| `Pairs.PairwiseAtSub` | src/write.rs:122-125 | a property of every pair of positions survives a permutation of the list or the dropping of entries |
| `Ngram.PositionedSound` | src/ngram.rs:7-12 | every token is the whole word at its offset: `text[off..off+|w|] == w`; it is non-empty and free of whitespace, with whitespace or an end of the text on both sides; offsets strictly increase |
| `Ngram.PositionedFrom` | src/ngram.rs:7-12 | each token from a position on starts at or after it, lies inside the text, and `text[offset..end]` is its word |
| `Ngram.Positioned` | src/ngram.rs:7-12 | each token is a whole word of the text at its offset, and offsets strictly increase |
| `Ngram.PositionedComplete` | src/ngram.rs:7-12 | every non-whitespace character lies inside some token, so no word is skipped |
| `Ngram.PositionedEmpty` | src/ngram.rs:7-12 | a text has no tokens exactly when it is all whitespace, the empty text included |
| `Ngram.PositionedWellFormed` | src/ngram.rs:7-12 | tokens are non-empty, lie inside the text and are ordered with whitespace between them |
| `Ngram.WindowsAt` | src/ngram.rs:14-38 | for `n >= 1` there are `L - n + 1` windows when `L >= n`, none otherwise; window `i` is `items[i..i+n]` |
| `Ngram.Ngram` | src/ngram.rs:14-38 | fails with `InvalidLength(0)` exactly when `n == 0`; otherwise yields exactly the windows of `n` consecutive items, in order |
| `Ngram.Slide` | src/ngram.rs:29-34 | one step: the item enters at the back, and the front is dropped until at most `n` remain |
| `Ngram.SlideWindow` | src/ngram.rs:29-36 | after the step at item `i`, the buffer is the window that ends with item `i` |
| `FrontMatter.EmptyInputPanics` | src/front_matter.rs:2 | the function as written panics on an empty document |
| `FrontMatter.SplitFrontMatterAsWritten` | src/front_matter.rs:1-11 | as written: it panics exactly when the trimmed input is shorter than `---` (modelled on characters; the source counts bytes and also panics when byte 3 falls inside a character); when it splits, the trimmed input is `"---" + fm + "\n---\n" + body` |
| `FrontMatter.SplitFrontMatter` | src/front_matter.rs:1-11 | corrected: a split reassembles to `"---" + fm + "\n---\n" + body` after `trim_start`, and holds no earlier `\n---\n` |
| `FrontMatter.Reassemble` | src/front_matter.rs:2-10 | the opening, the text before the first `\n---\n`, that close and the rest give back the trimmed input |
| `FrontMatter.SplitFrontMatterAgrees` | src/front_matter.rs:1-11 | the corrected split returns `None` exactly where the function as written panics or finds no front matter, and agrees with it everywhere else |
| `FrontMatter.FindFirstClose` | src/front_matter.rs:6 | `split_once` splits at the first `\n---\n` |
| `FrontMatter.SplitOpenedSound` | src/front_matter.rs:2-10 | a successful split reassembles to `"---" + fm + "\n---\n" + body`, with no earlier `\n---\n` |
| `FrontMatter.SplitOpenedComplete` | src/front_matter.rs:2-10 | conversely, such an input splits into exactly that `fm` and `body` |
| `FrontMatter.SplitFrontMatterIff` | src/front_matter.rs:1-11 | the split gives `(fm, body)` if and only if `trim_start(input) == "---" + fm + "\n---\n" + body` and that `\n---\n` is the first one |
| `FrontMatter.SplitAtFirstClose` | src/front_matter.rs:6 | the front matter holds no `\n---\n`, so a line such as `---duplicate` does not close it |
| `FrontMatter.NoCloseInside` | src/front_matter.rs:6 | no `\n---\n` lies inside the text before the first one |
| `FrontMatter.EmptyFrontMatter` | src/front_matter.rs:1-11 | `"---\n---\n" + body` gives empty front matter and that body |
| `FrontMatter.FrameSplits` | src/write.rs:133 | splitting the framed output gives back the body, and the trimmed front matter behind a line break (unless that front matter itself holds a `\n---\n`) |
| `Document.ParseSound` | src/document.rs:22-34 | a parsed document is the input's front matter and body around the first closing line, and its header is the decoding of that front matter |
| `Document.Parse` | src/document.rs:22-34 | on success the document is the front matter and body around the closing line of the trimmed input, and its header is the front matter's decoding; it fails with `MissingFrontMatter` exactly when the split fails (corrected split, see Findings: on `""` it fails where the source panics) |
| `Document.ParseFails` | src/document.rs:22-27 | parsing fails with `MissingFrontMatter` exactly when the split fails, and with `Undecodable` exactly when the split succeeds but decoding fails |
| `Markdown.AlterText` | src/markdown.rs:11-54 | the traversal's result is `Rewrite(n, replies)`: ignored nodes stay as they are; in a paragraph each Text child is replaced by its reply's nodes or kept; other nodes are descended into |
| `Markdown.AlterParagraph` | src/markdown.rs:33-46 | each Text child of a paragraph takes the next reply, in order, and is replaced where it stood; other children stay in place |
| `Markdown.AlterChildren` | src/markdown.rs:48-52 | every child is traversed in turn and consumes the replies of its own eligible texts |
| `Markdown.ParagraphStep` | src/markdown.rs:34-45 | one more child: its replacement follows the rewritten children before it, and it uses one reply if it is Text and none otherwise |
| `Markdown.ChildrenStep` | src/markdown.rs:49-51 | one more child: its rewrite, with the replies of its own texts, follows the rewritten children before it |
| `Markdown.RewriteParagraphAt` | src/markdown.rs:33-45 | each child of a paragraph is rewritten where it stands: a Text child becomes its reply's nodes or stays, any other child (strong text, a link) is kept, between the rewritten children before and after it |
| `Markdown.RewriteParagraphAppend` | src/markdown.rs:33-45 | a paragraph's children split anywhere: each part takes the replies of its own texts, and the rewrites are concatenated |
| `Markdown.RewriteParagraphConcat` | src/markdown.rs:33-45 | the same split, with the two parts' reply lists given separately |
| `Markdown.RewriteParagraphSnoc` | src/markdown.rs:34-45 | one more child after the others is replaced after their rewrite |
| `Markdown.EligibleTextsSeqAt` | src/markdown.rs:47-51 | the texts handed over below a list of siblings are those before a sibling, then the sibling's own, then those after it |
| `Markdown.RewriteSeqAt` | src/markdown.rs:47-51 | each sibling is rewritten in place with the replies of its own texts, between the rewritten siblings before and after it |
| `Markdown.RewriteSeqAppend` | src/markdown.rs:47-51 | a list of siblings splits anywhere: each part takes the replies of its own texts |
| `Markdown.RewriteSeqConcat` | src/markdown.rs:47-51 | the same split, with the two parts' reply lists given separately |
| `Markdown.RewriteSeqSnoc` | src/markdown.rs:48-51 | one more sibling after the others is rewritten after them |
| `Markdown.RewriteKeeps` | src/markdown.rs:15-52 | a Text outside a paragraph and an ignored subtree hand nothing over and come back unchanged |
| `Markdown.RewriteUnder` | src/markdown.rs:47-51 | a node that is neither ignored nor a paragraph hands over its subtrees' texts and rewrites each of its subtrees |
| `Markdown.OutsideParagraph` | src/markdown.rs:47-51 | a text directly under a heading or any other non-paragraph node is never handed over and stays |
| `Markdown.TextThenInline` | src/markdown.rs:33-45 | a paragraph of a text and strong text hands over only the text; the strong text follows whatever replaces it |
| `Markdown.SingleText` | src/markdown.rs:33-45 | a paragraph of one text hands it over and is the reply's nodes, or unchanged for `None` |
| `Markdown.RewriteSeqThree` | src/markdown.rs:47-51 | three siblings, the first with no text handed over and the others with one each, take the replies in order |
| `Markdown.ThreeUnderDocument` | src/markdown.rs:47-51 | the same three siblings as the document's children |
| `Markdown.CapitalizeParagraphs` | src/markdown.rs:124-152 | for the test document (a heading, a paragraph of text and strong text, a paragraph of text) and any helper answers: only the two paragraph texts are handed over, in order; the heading and the strong text stay; each plain text is replaced by its answer |
| `Markdown.RewriteVisible` | src/markdown.rs:11-54 | replies that spell out the text they replace leave the tree's text unchanged |
| `Markdown.RewriteSeqVisible` | src/markdown.rs:48-52 | the same for a list of siblings |
| `Markdown.RewriteParagraphVisible` | src/markdown.rs:33-46 | the same for a paragraph's children |
| `Markdown.RewriteUnchanged` | src/markdown.rs:36-43 | when every reply is `None`, the tree is unchanged |
| `Markdown.RewriteSeqUnchanged` | src/markdown.rs:48-52 | the same for a list of siblings |
| `Markdown.RewriteParagraphUnchanged` | src/markdown.rs:36-43 | the same for a paragraph's children |
| `Markdown.RewriteLinkUrls` | src/markdown.rs:11-54 | the rewritten tree has every link it had, plus exactly the links of the replies, counted with multiplicity |
| `Markdown.RewriteSeqLinkUrls` | src/markdown.rs:48-52 | the same for a list of siblings |
| `Markdown.RewriteParagraphLinkUrls` | src/markdown.rs:33-46 | the same for a paragraph's children |
| `Markdown.LinkLeTotalPreorder` | src/markdown.rs:64 | the order `links.sort()` uses on triples (start, then length, then url) is total and transitive |
| `Markdown.SortedInBounds` | src/markdown.rs:63-64 | sorting keeps every link inside the text |
| `Markdown.SpliceLinks` | src/markdown.rs:60-109 | the closure's cursor walk returns `Spliced(text, links)` |
| `Markdown.LinkNodeContent` | src/markdown.rs:85-95 | a link node spells out `text[start..start+length]` and carries exactly its url |
| `Markdown.SegmentsNoEmptyText` | src/markdown.rs:79-98 | no empty plain-text segment is emitted |
| `Markdown.SegmentsLinkElements` | src/markdown.rs:80-97 | the link elements among the segments are the link nodes of the triples, one per triple and in order |
| `Markdown.SegmentsUrls` | src/markdown.rs:80-97 | the segments' link urls are the triples' urls, in order |
| `Markdown.SegmentsVisible` | src/markdown.rs:79-98 | for non-overlapping links, the segments spell out the text up to the cursor |
| `Markdown.SegmentsLinkSpans` | src/markdown.rs:79-98 | for non-overlapping links, each link element sits exactly at its triple's start and length |
| `Markdown.SplicedNone` | src/markdown.rs:63-68 | the splice answers `None` exactly when the link list is empty |
| `Markdown.SplicedShape` | src/markdown.rs:63-108 | a splice holds no empty text segment, and one link node per sorted triple, with its url, an empty title and the linked text as its only child |
| `Markdown.SplicedReassembles` | src/markdown.rs:79-102 | for sorted non-overlapping links, the segments spell out the whole text, and reading the links back gives the sorted triples |
| `Markdown.SeparatedSortedChained` | src/markdown.rs:63-64 | sorting links of which no two overlap leaves each one ending before the next begins |
| `Markdown.UrlsPermutation` | src/markdown.rs:63-64 | reordering links keeps their urls, counted with multiplicity |
| `Markdown.SpliceAll` | src/markdown.rs:60-109 | running the closure on each eligible text in turn gives `Splices(texts, lists)` |
| `Markdown.AddLinks` | src/markdown.rs:56-110 | `add_links` leaves `Rewrite(n, Splices(EligibleTexts(n), lists))` |
| `Markdown.SplicesUrls` | src/markdown.rs:60-109 | the splices bring in exactly the urls of the links, each as often as it was chosen |
| `Markdown.AddLinksSound` | src/markdown.rs:56-110 | for in-bounds links of which no two overlap, the document's text is unchanged, and the tree keeps its links and gains exactly the chosen ones |
| `Write.Candidate.End` | src/write.rs:20-22 | `end` is `length` characters after `start` |
| `Write.Candidate.Tuple` | src/write.rs:24-26 | `tuple` keeps the candidate's start, end and url |
| `Write.CollectWindows` | src/write.rs:37-66 | each window whose phrase has an owner other than the document gives one candidate, realizing that window's hit, in window order |
| `Write.GenerateCandidates` | src/write.rs:29-70 | the candidates realize `AllHits`, one each and in order: their span and phrase are the hit's, and their url is one of its targets |
| `Write.WindowHitsSound` | src/write.rs:37-66 | every hit comes from some window |
| `Write.WindowHitsComplete` | src/write.rs:37-66 | every window with a hit contributes it |
| `Write.WindowHitFacts` | src/write.rs:41-57 | a window's hit: its phrase is a key; its targets are that key's owners minus the document; its span runs from the first word's offset to the last word's end |
| `Write.WindowFacts` | src/write.rs:41-57 | the same for any well-formed token list of the text |
| `Write.WindowsSpan` | src/write.rs:37-40 | every window of well-formed tokens runs forwards, from its first word's offset to its last word's end |
| `Write.HitsOfSizeSound` | src/write.rs:37-66 | every hit of size `n` comes from a window of `n` words and is grounded in the index and the text |
| `Write.AllHitsBySize` | src/write.rs:36 | the hits are those of 4 words, then 3, then 2 |
| `Write.AllHitsSound` | src/write.rs:36-66 | every hit comes from a window of 2 to 4 words; it has a non-empty target set taken from the index; it never targets the document itself |
| `Write.AllHitsComplete` | src/write.rs:36-66 | every window of 2 to 4 words whose phrase another document owns gives a hit |
| `Write.HitsOfSizeComplete` | src/write.rs:37-66 | every window of `n` words whose phrase another document owns gives a hit of size `n` |
| `Write.CandidatesGenuine` | src/write.rs:41-65 | every candidate's phrase is a key; its url is an owner of that key and not the document; its span is non-empty and inside the paragraph |
| `Write.CandidateLeTotalPreorder` | src/write.rs:95-98 | the sort key (start ascending, then length descending) is a total preorder |
| `Write.Sweep` | src/write.rs:105-120 | the sweep's loop returns `Swept(sorted, added keywords, added urls)` |
| `Write.SweptSub` | src/write.rs:105-120 | the sweep keeps a sub-multiset of its input |
| `Write.SweptOrdered` | src/write.rs:105-120 | each accepted candidate ends before the next accepted one starts |
| `Write.SweptDistinct` | src/write.rs:105-120 | no phrase and no url is accepted twice |
| `Write.SweptFresh` | src/write.rs:105-120 | nothing whose phrase or url the document has already linked is accepted |
| `Write.SweptCompatible` | src/write.rs:105-120 | the accepted candidates pairwise differ in phrase and url, and do not overlap |
| `Write.SweptMaximal` | src/write.rs:105-120 | over sorted non-empty candidates, every rejected candidate was linked elsewhere already, or clashes with an accepted one (same phrase, same url, or overlapping) |
| `Write.RejectedClashes` | src/write.rs:106-118 | the same for the last candidate the sweep turns away |
| `Write.Shuffle` | src/write.rs:122 | the shuffle is a permutation |
| `Write.TuplesSeparated` | src/write.rs:24-26 | triples of compatible candidates do not overlap |
| `Write.TuplesInBounds` | src/write.rs:24-26 | triples of genuine candidates lie inside the paragraph |
| `Write.ShuffleAndCap` | src/write.rs:122-125 | the result is a sub-multiset of the accepted list, with `min(len, 4)` entries |
| `Write.Pick` | src/write.rs:88-125 | `Selection`: the candidates realize the paragraph's hits; the accepted list is the sweep over the sorted candidates against the document's sets; the links are a sub-multiset of it with `min(len, 4)` entries; each is genuine and new to the document; they are pairwise compatible |
| `Write.Selector.constructor` | src/write.rs:86-87 | the document-wide sets start empty |
| `Write.Selector.Select` | src/write.rs:88-130 | `Selection` against the sets as they were; no link when the paragraph has no hit; the sets grow by exactly the links' urls and phrases |
| `Write.ChosenFacts` | src/write.rs:105-125 | what survives the sweep, the shuffle and the cap is genuine, new to the document, and pairwise compatible |
| `Write.DistinctAppend` | src/write.rs:127-128 | links new to the document, and distinct among themselves, keep the document's phrases and urls distinct |
| `Write.SelectAll` | src/write.rs:86-130 | `Selections`: each paragraph's links are its `Selection` against the links of the paragraphs before it, and its triples are theirs; no phrase or url is linked twice in the whole document |
| `Write.SelectionsExtend` | src/write.rs:88-130 | one more paragraph selected against the links chosen so far extends the selections |
| `Write.SelectionsSplice` | src/write.rs:88-130 | the selected links meet the splicer's precondition: inside their text, no two overlapping |
| `Write.LinkDocument` | src/write.rs:88-130 | the lists are the `Selections` of the eligible texts with no repeated phrase or url; the linked tree is the rewrite with their splices; its text is unchanged; it has its old links plus exactly the selected ones |
| `Write.UpdateContent` | src/write.rs:73-137 | a parse failure is returned as is; otherwise the lists are the `Selections` of the parsed body's eligible texts for the document's slug, the linked tree is the rewrite with their splices, and the output is `---\n` + the trimmed front matter + `\n---\n` + the rendered linked tree, whose text equals the parsed body's text (corrected split, see Findings: on `""` it returns the parse failure where the source panics) |

## Left out

- File I/O, globbing, output directories and the CLI (`write_glob`, `index::index`, `main`) are plumbing around the engine.
- comrak's parser and renderer are foreign code. They are parameters of `UpdateContent` (`parse`, `render`), and the tree is a datatype.
- The YAML decoding of the front matter (`serde_yaml`) is foreign code. It is the `decode` parameter of `Document.Parse`.
- `write_glob`'s fallback, which keeps a file unchanged when `update_content` fails with a document error, is outside the core.
- `String::from_utf8` on the rendered output cannot fail on a `string` model; that error path is not modelled.
- `src/bigram.rs` is never called, and it works on floating-point probabilities.
- Strings.LowerChar: lower-cases ASCII letters only, not the full Unicode mapping of `to_lowercase`.
- Offsets are character indices, not UTF-8 byte offsets. The char-boundary panics of byte slicing are therefore not modelled, including the one in `split_at(3)`.
- `positioned`'s pointer arithmetic is replaced by computing the offsets directly (`Ngram.PositionedFrom`).
- Randomness is a free choice (`:|`). The uniformity of the pick and of the shuffle is not modelled.
- The stability of the library sorts is not proved. It cannot affect the result: no two candidates have the same start and length, and equal triples are identical.
- `alter_text`'s in-place `insert_before`/`detach` on arena nodes is modelled as rebuilding the children as values. Node identity and aliasing are not captured.
- The helper's calls and the rewrite are modelled as two phases (all selections, then the rewrite). The order of calls and the state they see are the same as in the interleaved original.
- The closure's final `new_nodes.is_empty()` test and `grams.first()`/`grams.last()` returning `None` cannot happen. They have no branch of their own.
- Sorting.SortBy: stated as a permutation only; the sortedness is the separate lemma `Sorting.SortBySorted`.

## Findings

| source | as written | input that shows it | evidently intended | confidence | as-written member | corrected member |
|---|---|---|---|---|---|---|
| src/front_matter.rs:2 | `input.trim_start().split_at(3)` runs before the pattern `("---", next)` is tested, and it panics when the trimmed input is shorter than three bytes (for ASCII input: three characters) | an empty markdown file, `""` (or `"\n--"`) | a document too short to open with `---` has no front matter, so the function returns `None` | not executed | `FrontMatter.EmptyInputPanics` | `FrontMatter.SplitFrontMatterIff` |
