/**
 * Choosing the links of one document: candidate phrases from the keyword index, the greedy
 * selection of each paragraph's links, and the rewriting of the whole file.
 */
module Write {
  import opened Wrappers
  import opened Strings
  import opened Sorting
  import opened Pairs
  import opened Keyword
  import opened Ngram
  import opened Markdown
  import opened FrontMatter
  import opened Document

  /** A phrase of a paragraph that names another document: its span, the phrase and the chosen target. */
  datatype Candidate = Candidate(start: nat, length: nat, keyword: string, url: string) {
    /** The exclusive end: the candidate covers `length` characters from `start`. */
    function End(): (e: nat)
      ensures start <= e && e - start == length
    {
      start + length
    }

    /** The `(start, length, url)` triple handed to the splicer: the same span and url. */
    function Tuple(): (t: LinkSpan)
      ensures t.start == start && t.End() == End() && t.url == url
    {
      LinkSpan(start, length, url)
    }
  }

  /** The lower-cased words of a window. */
  function Words(grams: seq<Token>): (r: seq<string>)
    ensures |r| == |grams|
  {
    seq(|grams|, i requires 0 <= i < |grams| => Lower(grams[i].word))
  }

  /** The key a window is looked up under: its words lower-cased and joined by single spaces. */
  function Phrase(grams: seq<Token>): string {
    Join(Words(grams), " ")
  }

  /** The index's owners of a phrase other than the document itself. */
  function Others(entries: map<string, set<string>>, phrase: string, docSlug: string): set<string> {
    Owners(entries, phrase) - {docSlug}
  }

  /** What one window contributes: its span, its phrase and the documents it may link to. */
  datatype Hit = Hit(start: nat, length: nat, keyword: string, urls: set<string>)

  /** A window runs from its first token's offset to its last token's end. */
  ghost predicate Span(w: seq<Token>) {
    w != [] && w[0].offset <= w[|w| - 1].End()
  }

  ghost predicate Spans(ws: seq<seq<Token>>) {
    forall k :: 0 <= k < |ws| ==> Span(ws[k])
  }

  /** The hit of a window: present when its phrase has an owner other than the document. */
  function WindowHit(entries: map<string, set<string>>, w: seq<Token>, docSlug: string): Option<Hit>
    requires Span(w)
  {
    var p := Phrase(w);
    if Others(entries, p, docSlug) == {} then None
    else Some(Hit(w[0].offset, w[|w| - 1].End() - w[0].offset, p, Others(entries, p, docSlug)))
  }

  /** The hits of a run of windows, in order. */
  function WindowHits(entries: map<string, set<string>>, ws: seq<seq<Token>>, docSlug: string): seq<Hit>
    requires Spans(ws)
  {
    if ws == [] then []
    else
      var init := ws[..|ws| - 1];
      assert Spans(init) by {
        forall k | 0 <= k < |init| ensures Span(init[k]) {
          assert init[k] == ws[k];
        }
      }
      WindowHits(entries, init, docSlug) +
        match WindowHit(entries, ws[|ws| - 1], docSlug)
        case None => []
        case Some(h) => [h]
  }

  /** The windows of `n` consecutive tokens each span from their first token to their last. */
  lemma TokenWindows(text: string, n: nat)
    requires n >= 1
    ensures Spans(Windows(Positioned(text), n))
  {
    PositionedWellFormed(text);
    WindowsSpan(Positioned(text), |text|, n);
  }

  /** Every window of a well-formed token list spans forwards. */
  lemma WindowsSpan(toks: seq<Token>, bound: nat, n: nat)
    requires n >= 1 && WellFormed(toks, bound)
    ensures Spans(Windows(toks, n))
  {
    WindowsAt(toks, n);
    var ws := Windows(toks, n);
    forall k | 0 <= k < |ws| ensures Span(ws[k]) {
      assert ws[k][0] == toks[k] && ws[k][|ws[k]| - 1] == toks[k + n - 1];
      assert toks[k] in toks && toks[k + n - 1] in toks;
      if n > 1 {
        assert toks[k].End() < toks[k + n - 1].offset;
      }
    }
  }

  /** The hits of the windows of `n` tokens. */
  function HitsOfSize(entries: map<string, set<string>>, text: string, n: nat, docSlug: string): seq<Hit>
    requires n >= 1
  {
    TokenWindows(text, n);
    WindowHits(entries, Windows(Positioned(text), n), docSlug)
  }

  /** The hits of each window size in turn. */
  function HitsOfSizes(entries: map<string, set<string>>, text: string, sizes: seq<nat>, docSlug: string): seq<Hit>
    requires forall k :: 0 <= k < |sizes| ==> sizes[k] >= 1
  {
    if sizes == [] then []
    else HitsOfSizes(entries, text, sizes[..|sizes| - 1], docSlug) + HitsOfSize(entries, text, sizes[|sizes| - 1], docSlug)
  }

  /** `generate_candidates` tries the windows of 4, then 3, then 2 tokens. */
  const Sizes: seq<nat> := [4, 3, 2]

  function AllHits(entries: map<string, set<string>>, text: string, docSlug: string): seq<Hit> {
    HitsOfSizes(entries, text, Sizes, docSlug)
  }

  /** A candidate takes its hit's span and phrase, and one of its hit's targets. */
  predicate Realizes(c: Candidate, h: Hit) {
    c.start == h.start && c.length == h.length && c.keyword == h.keyword && c.url in h.urls
  }

  predicate RealizesAll(cands: seq<Candidate>, hits: seq<Hit>) {
    |cands| == |hits| && forall k :: 0 <= k < |cands| ==> Realizes(cands[k], hits[k])
  }

  lemma RealizesAppend(a: seq<Candidate>, b: seq<Candidate>, g: seq<Hit>, h: seq<Hit>)
    requires RealizesAll(a, g) && RealizesAll(b, h)
    ensures RealizesAll(a + b, g + h)
  {
  }

  /** The candidates of one run of windows, appended to `prior`. */
  method CollectWindows(index: Keywords, windows: seq<seq<Token>>, docSlug: string, prior: seq<Candidate>)
    returns (cands: seq<Candidate>)
    requires index.Valid() && Spans(windows)
    ensures forall hits :: RealizesAll(prior, hits) ==> RealizesAll(cands, hits + WindowHits(index.entries, windows, docSlug))
  {
    cands := prior;
    for w := 0 to |windows|
      invariant forall hits :: RealizesAll(prior, hits) ==>
        RealizesAll(cands, hits + WindowHits(index.entries, windows[..w], docSlug))
    {
      var grams := windows[w];
      assert windows[..w + 1][..w] == windows[..w];
      assert Span(grams);
      var word := Phrase(grams);
      var slugs := index.Get(word);
      if slugs.Some? {
        var others := slugs.value - {docSlug};
        if others != {} {
          var url :| url in others;
          cands := cands + [Candidate(grams[0].offset, grams[|grams| - 1].End() - grams[0].offset, word, url)];
        }
      }
    }
    assert windows[..|windows|] == windows;
  }

  /**
   * `generate_candidates`: for the windows of 4, 3 and 2 tokens of the paragraph, in that order,
   * every window whose phrase some other document owns gives a candidate linking to one of them.
   */
  method GenerateCandidates(index: Keywords, paragraph: string, docSlug: string) returns (cands: seq<Candidate>)
    requires index.Valid()
    ensures RealizesAll(cands, AllHits(index.entries, paragraph, docSlug))
  {
    var toks := Positioned(paragraph);
    cands := [];
    for k := 0 to |Sizes|
      invariant RealizesAll(cands, HitsOfSizes(index.entries, paragraph, Sizes[..k], docSlug))
    {
      var n := Sizes[k];
      var r := Ngram.Ngram(toks, n);
      var windows := if r.Success? then r.value else [];
      TokenWindows(paragraph, n);
      SizesStep(index.entries, paragraph, docSlug, k);
      cands := CollectWindows(index, windows, docSlug, cands);
    }
    assert Sizes[..|Sizes|] == Sizes;
  }

  /** Taking one more size appends that size's hits. */
  lemma SizesStep(entries: map<string, set<string>>, text: string, docSlug: string, k: nat)
    requires k < |Sizes|
    ensures HitsOfSizes(entries, text, Sizes[..k + 1], docSlug) ==
      HitsOfSizes(entries, text, Sizes[..k], docSlug) + HitsOfSize(entries, text, Sizes[k], docSlug)
  {
    assert Sizes[..k + 1][..k] == Sizes[..k];
  }

  /** Window `i` of `n` tokens gives this hit's span and phrase. */
  ghost predicate FromWindow(h: Hit, toks: seq<Token>, n: nat, i: nat) {
    && 1 <= n && i + n <= |toks|
    && h.start == toks[i].offset
    && h.start + h.length == toks[i + n - 1].End()
    && h.keyword == Phrase(toks[i..i + n])
  }

  /** A hit's phrase is a key of the index, its targets are that key's owners but the document, and its span is a non-empty part of the text. */
  ghost predicate Grounded(h: Hit, entries: map<string, set<string>>, text: string, docSlug: string) {
    && h.keyword in entries
    && h.urls == entries[h.keyword] - {docSlug}
    && h.urls != {}
    && 0 < h.length
    && h.start + h.length <= |text|
  }

  lemma {:induction false} WindowHitsSound(entries: map<string, set<string>>, ws: seq<seq<Token>>, docSlug: string)
    requires Spans(ws)
    ensures forall h :: h in WindowHits(entries, ws, docSlug) ==>
      exists k :: 0 <= k < |ws| && WindowHit(entries, ws[k], docSlug) == Some(h)
  {
    if ws != [] {
      var init := ws[..|ws| - 1];
      WindowHitsSound(entries, init, docSlug);
      forall h | h in WindowHits(entries, init, docSlug)
        ensures exists k :: 0 <= k < |ws| && WindowHit(entries, ws[k], docSlug) == Some(h)
      {
        var k :| 0 <= k < |init| && WindowHit(entries, init[k], docSlug) == Some(h);
        assert init[k] == ws[k];
      }
    }
  }

  lemma {:induction false} WindowHitsComplete(entries: map<string, set<string>>, ws: seq<seq<Token>>, docSlug: string, k: nat)
    requires Spans(ws) && k < |ws|
    requires WindowHit(entries, ws[k], docSlug).Some?
    ensures WindowHit(entries, ws[k], docSlug).value in WindowHits(entries, ws, docSlug)
  {
    var init := ws[..|ws| - 1];
    if k < |init| {
      assert init[k] == ws[k];
      WindowHitsComplete(entries, init, docSlug, k);
    }
  }

  /** The hit of window `i` of `n` tokens is grounded and spans that window. */
  lemma WindowHitFacts(entries: map<string, set<string>>, text: string, n: nat, docSlug: string, i: nat)
    requires n >= 1 && i + n <= |Positioned(text)|
    requires Span(Positioned(text)[i..i + n])
    requires WindowHit(entries, Positioned(text)[i..i + n], docSlug).Some?
    ensures var h := WindowHit(entries, Positioned(text)[i..i + n], docSlug).value;
      Grounded(h, entries, text, docSlug) && FromWindow(h, Positioned(text), n, i)
  {
    PositionedWellFormed(text);
    WindowFacts(entries, text, Positioned(text), n, docSlug, i);
  }

  /** The facts above for any well-formed token list of `text`. */
  lemma WindowFacts(entries: map<string, set<string>>, text: string, toks: seq<Token>, n: nat, docSlug: string, i: nat)
    requires WellFormed(toks, |text|)
    requires n >= 1 && i + n <= |toks|
    requires Span(toks[i..i + n])
    requires WindowHit(entries, toks[i..i + n], docSlug).Some?
    ensures var h := WindowHit(entries, toks[i..i + n], docSlug).value;
      Grounded(h, entries, text, docSlug) && FromWindow(h, toks, n, i)
  {
    var first, last := toks[i], toks[i + n - 1];
    assert first in toks && last in toks;
    if n > 1 {
      assert first.End() < last.offset;
    }
  }

  /** Every hit of size `n` comes from a window of `n` tokens and is grounded. */
  lemma HitsOfSizeSound(entries: map<string, set<string>>, text: string, n: nat, docSlug: string)
    requires n >= 1
    ensures forall h :: h in HitsOfSize(entries, text, n, docSlug) ==>
      Grounded(h, entries, text, docSlug) && exists i :: FromWindow(h, Positioned(text), n, i)
  {
    var toks := Positioned(text);
    var ws := Windows(toks, n);
    TokenWindows(text, n);
    WindowsAt(toks, n);
    WindowHitsSound(entries, ws, docSlug);
    assert HitsOfSize(entries, text, n, docSlug) == WindowHits(entries, ws, docSlug);
    forall h | h in HitsOfSize(entries, text, n, docSlug)
      ensures Grounded(h, entries, text, docSlug) && FromWindow(h, toks, n, WindowOf(entries, ws, docSlug, h))
    {
      var i := WindowOf(entries, ws, docSlug, h);
      assert ws[i] == toks[i..i + n];
      WindowHitFacts(entries, text, n, docSlug, i);
    }
  }

  /** The window a hit of `ws` comes from. */
  ghost function WindowOf(entries: map<string, set<string>>, ws: seq<seq<Token>>, docSlug: string, h: Hit): (k: nat)
    requires Spans(ws)
    requires exists k :: 0 <= k < |ws| && WindowHit(entries, ws[k], docSlug) == Some(h)
    ensures k < |ws| && WindowHit(entries, ws[k], docSlug) == Some(h)
  {
    var k :| 0 <= k < |ws| && WindowHit(entries, ws[k], docSlug) == Some(h); k
  }

  /** The hits of all sizes, one size after another. */
  lemma AllHitsBySize(entries: map<string, set<string>>, text: string, docSlug: string)
    ensures AllHits(entries, text, docSlug) ==
      HitsOfSize(entries, text, 4, docSlug) + HitsOfSize(entries, text, 3, docSlug) + HitsOfSize(entries, text, 2, docSlug)
  {
    assert Sizes[..2] == [4, 3] && [4, 3][..1] == [4] && [4][..0] == [];
    assert HitsOfSizes(entries, text, [4], docSlug) == HitsOfSize(entries, text, 4, docSlug);
    assert HitsOfSizes(entries, text, [4, 3], docSlug) ==
      HitsOfSize(entries, text, 4, docSlug) + HitsOfSize(entries, text, 3, docSlug);
  }

  /**
   * Every hit comes from a window of 2, 3 or 4 tokens, its phrase is a key of the index and its
   * targets are that key's owners other than the document; so none links the document to itself.
   */
  lemma AllHitsSound(entries: map<string, set<string>>, text: string, docSlug: string)
    ensures forall h :: h in AllHits(entries, text, docSlug) ==>
      && Grounded(h, entries, text, docSlug)
      && docSlug !in h.urls
      && exists n, i :: 2 <= n <= 4 && FromWindow(h, Positioned(text), n, i)
  {
    AllHitsBySize(entries, text, docSlug);
    HitsOfSizeSound(entries, text, 4, docSlug);
    HitsOfSizeSound(entries, text, 3, docSlug);
    HitsOfSizeSound(entries, text, 2, docSlug);
  }

  /** Every window of 2 to 4 tokens whose phrase another document owns gives a hit. */
  lemma AllHitsComplete(entries: map<string, set<string>>, text: string, docSlug: string, n: nat, i: nat)
    requires 2 <= n <= 4 && i + n <= |Positioned(text)|
    requires Others(entries, Phrase(Positioned(text)[i..i + n]), docSlug) != {}
    ensures exists h :: h in AllHits(entries, text, docSlug) && FromWindow(h, Positioned(text), n, i)
  {
    var h := HitsOfSizeComplete(entries, text, n, docSlug, i);
    assert h in AllHits(entries, text, docSlug) by {
      var h4, h3, h2 := HitsOfSize(entries, text, 4, docSlug), HitsOfSize(entries, text, 3, docSlug), HitsOfSize(entries, text, 2, docSlug);
      AllHitsBySize(entries, text, docSlug);
      if n == 4 {
        assert h in h4;
      } else if n == 3 {
        assert h in h3;
      } else {
        assert h in h2;
      }
    }
  }

  /** Window `i` of `n` tokens, when its phrase another document owns, gives a hit of size `n`. */
  lemma HitsOfSizeComplete(entries: map<string, set<string>>, text: string, n: nat, docSlug: string, i: nat)
    returns (h: Hit)
    requires n >= 1 && i + n <= |Positioned(text)|
    requires Others(entries, Phrase(Positioned(text)[i..i + n]), docSlug) != {}
    ensures h in HitsOfSize(entries, text, n, docSlug) && FromWindow(h, Positioned(text), n, i)
  {
    var toks := Positioned(text);
    var ws := Windows(toks, n);
    TokenWindows(text, n);
    WindowsAt(toks, n);
    assert ws[i] == toks[i..i + n];
    WindowHitsComplete(entries, ws, docSlug, i);
    WindowHitFacts(entries, text, n, docSlug, i);
    h := WindowHit(entries, ws[i], docSlug).value;
    assert HitsOfSize(entries, text, n, docSlug) == WindowHits(entries, ws, docSlug);
  }

  /** A candidate's phrase is a key of the index, it links to one of that key's owners but never to the document itself, and its span is a non-empty part of the paragraph. */
  ghost predicate Genuine(c: Candidate, entries: map<string, set<string>>, text: string, docSlug: string) {
    && c.keyword in entries
    && c.url in entries[c.keyword]
    && c.url != docSlug
    && 0 < c.length
    && c.End() <= |text|
  }

  lemma CandidatesGenuine(cands: seq<Candidate>, entries: map<string, set<string>>, text: string, docSlug: string)
    requires RealizesAll(cands, AllHits(entries, text, docSlug))
    ensures forall c :: c in cands ==> Genuine(c, entries, text, docSlug)
  {
    var hits := AllHits(entries, text, docSlug);
    AllHitsSound(entries, text, docSlug);
    forall c | c in cands ensures Genuine(c, entries, text, docSlug) {
      var k :| 0 <= k < |cands| && cands[k] == c;
      assert hits[k] in hits;
    }
  }

  // ---------------------------------------------------------------------------------------
  // The selection of one paragraph's links

  /** `sort_by`'s comparison: by start, and at the same start the longer phrase first. */
  predicate CandidateLe(a: Candidate, b: Candidate) {
    a.start < b.start || (a.start == b.start && a.length >= b.length)
  }

  lemma CandidateLeTotalPreorder()
    ensures TotalPreorder(CandidateLe)
  {
  }

  function UrlsOf(cs: seq<Candidate>): set<string> {
    set c | c in cs :: c.url
  }

  function KeywordsOf(cs: seq<Candidate>): set<string> {
    set c | c in cs :: c.keyword
  }

  /** `is_already_seen`: the url or the phrase is among those seen. */
  predicate Seen(c: Candidate, keywords: set<string>, urls: set<string>) {
    c.url in urls || c.keyword in keywords
  }

  /**
   * The greedy test: the candidate is new to the paragraph and to the document, and starts no
   * earlier than the end of the last one accepted.
   */
  predicate Admits(res: seq<Candidate>, c: Candidate, addedKeywords: set<string>, addedUrls: set<string>) {
    && !Seen(c, KeywordsOf(res), UrlsOf(res))
    && !Seen(c, addedKeywords, addedUrls)
    && (res == [] || res[|res| - 1].End() <= c.start)
  }

  /** The candidates the sweep accepts, in the order it meets them. */
  function Swept(cands: seq<Candidate>, addedKeywords: set<string>, addedUrls: set<string>): seq<Candidate> {
    if cands == [] then []
    else
      var prev := Swept(cands[..|cands| - 1], addedKeywords, addedUrls);
      var c := cands[|cands| - 1];
      if Admits(prev, c, addedKeywords, addedUrls) then prev + [c] else prev
  }

  lemma SeenAppend(cs: seq<Candidate>, c: Candidate)
    ensures UrlsOf(cs + [c]) == UrlsOf(cs) + {c.url}
    ensures KeywordsOf(cs + [c]) == KeywordsOf(cs) + {c.keyword}
  {
    assert forall x :: x in cs + [c] <==> x in cs || x == c;
  }

  /** The sweep over the sorted candidates. */
  method Sweep(sorted: seq<Candidate>, addedKeywords: set<string>, addedUrls: set<string>) returns (res: seq<Candidate>)
    ensures res == Swept(sorted, addedKeywords, addedUrls)
  {
    res := [];
    var seenKeywords: set<string> := {};
    var seenUrls: set<string> := {};
    for i := 0 to |sorted|
      invariant res == Swept(sorted[..i], addedKeywords, addedUrls)
      invariant seenKeywords == KeywordsOf(res) && seenUrls == UrlsOf(res)
    {
      var candidate := sorted[i];
      assert sorted[..i + 1][..i] == sorted[..i];
      if Seen(candidate, seenKeywords, seenUrls) || Seen(candidate, addedKeywords, addedUrls) {
        continue;
      }
      if res != [] && res[|res| - 1].End() > candidate.start {
        continue;
      }
      SeenAppend(res, candidate);
      seenUrls := seenUrls + {candidate.url};
      seenKeywords := seenKeywords + {candidate.keyword};
      res := res + [candidate];
    }
    assert sorted[..|sorted|] == sorted;
  }

  /** Two accepted candidates share neither phrase nor url. */
  predicate Distinct(a: Candidate, b: Candidate) {
    a.keyword != b.keyword && a.url != b.url
  }

  /** Two candidates can both be links: different phrases, different urls, spans that do not overlap. */
  predicate Compatible(a: Candidate, b: Candidate) {
    Distinct(a, b) && Apart(a.Tuple(), b.Tuple())
  }

  /** The sweep keeps some of its input, in order. */
  lemma {:induction false} SweptSub(cands: seq<Candidate>, addedKeywords: set<string>, addedUrls: set<string>)
    ensures multiset(Swept(cands, addedKeywords, addedUrls)) <= multiset(cands)
  {
    if cands != [] {
      var init := cands[..|cands| - 1];
      SweptSub(init, addedKeywords, addedUrls);
      InitLast(cands);
    }
  }

  /** Each candidate ends before any later one starts. */
  ghost predicate Ordered(cs: seq<Candidate>) {
    forall i, j :: 0 <= i < j < |cs| ==> cs[i].End() <= cs[j].start
  }

  /** Each accepted candidate ends before the next one accepted starts. */
  lemma {:induction false} SweptOrdered(cands: seq<Candidate>, addedKeywords: set<string>, addedUrls: set<string>)
    ensures Ordered(Swept(cands, addedKeywords, addedUrls))
  {
    if cands != [] {
      var init := cands[..|cands| - 1];
      var prev := Swept(init, addedKeywords, addedUrls);
      var c := cands[|cands| - 1];
      SweptOrdered(init, addedKeywords, addedUrls);
      if Admits(prev, c, addedKeywords, addedUrls) {
        var res := prev + [c];
        forall i, j | 0 <= i < j < |res| ensures res[i].End() <= res[j].start {
          if j == |prev| {
            var last := prev[|prev| - 1];
            if i < |prev| - 1 {
              assert prev[i].End() <= last.start;
            }
            assert res[i].End() <= last.End() <= c.start;
          } else {
            assert res[i] == prev[i] && res[j] == prev[j];
          }
        }
      }
    }
  }

  /** No phrase and no url is accepted twice. */
  lemma {:induction false} SweptDistinct(cands: seq<Candidate>, addedKeywords: set<string>, addedUrls: set<string>)
    ensures PairwiseAt(Swept(cands, addedKeywords, addedUrls), Distinct)
  {
    if cands != [] {
      var init := cands[..|cands| - 1];
      var prev := Swept(init, addedKeywords, addedUrls);
      var c := cands[|cands| - 1];
      SweptDistinct(init, addedKeywords, addedUrls);
      if Admits(prev, c, addedKeywords, addedUrls) {
        var res := prev + [c];
        forall i, j | 0 <= i < |res| && 0 <= j < |res| && i != j ensures Distinct(res[i], res[j]) {
          if i < |prev| && j < |prev| {
            assert Distinct(prev[i], prev[j]);
          } else if i < |prev| {
            assert prev[i] in prev;
          } else {
            assert prev[j] in prev;
          }
        }
      }
    }
  }

  /** Nothing already linked elsewhere in the document is accepted. */
  lemma {:induction false} SweptFresh(cands: seq<Candidate>, addedKeywords: set<string>, addedUrls: set<string>)
    ensures forall c :: c in Swept(cands, addedKeywords, addedUrls) ==> !Seen(c, addedKeywords, addedUrls)
  {
    if cands != [] {
      SweptFresh(cands[..|cands| - 1], addedKeywords, addedUrls);
    }
  }

  /** The accepted candidates can all be links together. */
  lemma SweptCompatible(cands: seq<Candidate>, addedKeywords: set<string>, addedUrls: set<string>)
    ensures PairwiseAt(Swept(cands, addedKeywords, addedUrls), Compatible)
  {
    var res := Swept(cands, addedKeywords, addedUrls);
    SweptOrdered(cands, addedKeywords, addedUrls);
    SweptDistinct(cands, addedKeywords, addedUrls);
    forall i, j | 0 <= i < |res| && 0 <= j < |res| && i != j ensures Compatible(res[i], res[j]) {
      assert Distinct(res[i], res[j]);
    }
  }

  /** A candidate rejected by the sweep clashes with an accepted one: same phrase, same url or overlapping span. */
  predicate Clash(a: Candidate, b: Candidate) {
    a.keyword == b.keyword || a.url == b.url || !Apart(a.Tuple(), b.Tuple())
  }

  /**
   * The sweep is maximal: over candidates sorted by start and none of them empty, every
   * candidate it rejects was linked elsewhere in the document or clashes with one it accepted.
   */
  lemma {:induction false} SweptMaximal(cands: seq<Candidate>, addedKeywords: set<string>, addedUrls: set<string>)
    requires SortedBy(cands, CandidateLe)
    requires forall k :: 0 <= k < |cands| ==> cands[k].length > 0
    ensures var res := Swept(cands, addedKeywords, addedUrls);
      forall k :: 0 <= k < |cands| ==>
        cands[k] in res || Seen(cands[k], addedKeywords, addedUrls) || exists a :: a in res && Clash(a, cands[k])
  {
    if cands != [] {
      var init := cands[..|cands| - 1];
      var prev := Swept(init, addedKeywords, addedUrls);
      var c := cands[|cands| - 1];
      var res := Swept(cands, addedKeywords, addedUrls);
      SweptMaximal(init, addedKeywords, addedUrls);
      assert forall a :: a in prev ==> a in res;
      if !Admits(prev, c, addedKeywords, addedUrls) {
        RejectedClashes(cands, addedKeywords, addedUrls);
      }
      forall k | 0 <= k < |init|
        ensures cands[k] in res || Seen(cands[k], addedKeywords, addedUrls) || exists a :: a in res && Clash(a, cands[k])
      {
        assert cands[k] == init[k];
      }
    }
  }

  /** The last candidate, when the sweep turns it away, was linked elsewhere or clashes with one accepted before it. */
  lemma RejectedClashes(cands: seq<Candidate>, addedKeywords: set<string>, addedUrls: set<string>)
    requires cands != [] && SortedBy(cands, CandidateLe)
    requires cands[|cands| - 1].length > 0
    requires !Admits(Swept(cands[..|cands| - 1], addedKeywords, addedUrls), cands[|cands| - 1], addedKeywords, addedUrls)
    ensures var c := cands[|cands| - 1];
      Seen(c, addedKeywords, addedUrls) || exists a :: a in Swept(cands[..|cands| - 1], addedKeywords, addedUrls) && Clash(a, c)
  {
    var init := cands[..|cands| - 1];
    var prev := Swept(init, addedKeywords, addedUrls);
    var c := cands[|cands| - 1];
    if !Seen(c, addedKeywords, addedUrls) {
      if Seen(c, KeywordsOf(prev), UrlsOf(prev)) {
        var a :| a in prev && (a.url == c.url || a.keyword == c.keyword);
        assert Clash(a, c);
      } else {
        var a := prev[|prev| - 1];
        SweptSub(init, addedKeywords, addedUrls);
        assert a in multiset(init);
        var k :| 0 <= k < |init| && init[k] == a;
        assert CandidateLe(cands[k], c);
        assert Clash(a, c);
      }
    }
  }

  /** `SliceRandom::shuffle`: Fisher-Yates, where each step swaps position `i` with any `j <= i`. */
  method Shuffle<T>(s: seq<T>) returns (r: seq<T>)
    ensures |r| == |s| && multiset(r) == multiset(s)
  {
    r := s;
    var i := |r|;
    while i > 1
      invariant 0 <= i <= |r| == |s|
      invariant multiset(r) == multiset(s)
    {
      i := i - 1;
      var j :| 0 <= j <= i;
      r := r[i := r[j]][j := r[i]];
    }
  }

  /** `Candidate::tuple` over a list. */
  function Tuples(cs: seq<Candidate>): (links: seq<LinkSpan>)
    ensures |links| == |cs|
  {
    seq(|cs|, i requires 0 <= i < |cs| => cs[i].Tuple())
  }

  /** Compatible candidates give links no two of which overlap. */
  lemma TuplesSeparated(cs: seq<Candidate>)
    requires PairwiseAt(cs, Compatible)
    ensures Separated(multiset(Tuples(cs)))
  {
    var links := Tuples(cs);
    assert PairwiseAt(links, Apart) by {
      forall i, j | 0 <= i < |links| && 0 <= j < |links| && i != j ensures Apart(links[i], links[j]) {
        assert Compatible(cs[i], cs[j]);
      }
    }
    PairwiseAtMultiset(links, Apart);
  }

  /** Genuine candidates give links inside the paragraph. */
  lemma TuplesInBounds(cs: seq<Candidate>, entries: map<string, set<string>>, text: string, docSlug: string)
    requires forall c :: c in cs ==> Genuine(c, entries, text, docSlug)
    ensures InBounds(text, Tuples(cs))
  {
    forall i | 0 <= i < |cs| ensures Tuples(cs)[i].End() <= |text| {
      assert cs[i] in cs;
    }
  }

  /** How many links one paragraph may get. */
  const MaxLinks: nat := 4

  lemma PrefixSub<T>(s: seq<T>, k: nat)
    requires k <= |s|
    ensures multiset(s[..k]) <= multiset(s)
  {
    assert s == s[..k] + s[k..];
  }

  /** `res.shuffle(..)` and `res.drain(4..)`: any at most four of the accepted candidates, in any order. */
  method ShuffleAndCap(accepted: seq<Candidate>) returns (chosen: seq<Candidate>)
    ensures multiset(chosen) <= multiset(accepted)
    ensures |chosen| == if |accepted| <= MaxLinks then |accepted| else MaxLinks
  {
    chosen := Shuffle(accepted);
    if |chosen| > MaxLinks {
      PrefixSub(chosen, MaxLinks);
      chosen := chosen[..MaxLinks];
    }
  }

  /**
   * What the selection does with one paragraph, given the phrases and urls the document has
   * already linked: `cands` realize the paragraph's hits; `accepted` is the sweep over them,
   * sorted; `chosen` is any `min(|accepted|, 4)` of the accepted ones. The chosen links are
   * genuine, new to the document and pairwise compatible.
   */
  ghost predicate Selection(entries: map<string, set<string>>, text: string, docSlug: string,
                            addedKeywords: set<string>, addedUrls: set<string>,
                            cands: seq<Candidate>, accepted: seq<Candidate>, chosen: seq<Candidate>) {
    && RealizesAll(cands, AllHits(entries, text, docSlug))
    && accepted == Swept(SortBy(cands, CandidateLe), addedKeywords, addedUrls)
    && multiset(chosen) <= multiset(accepted)
    && |chosen| == (if |accepted| <= MaxLinks then |accepted| else MaxLinks)
    && (forall c :: c in chosen ==> Genuine(c, entries, text, docSlug))
    && (forall c :: c in chosen ==> !Seen(c, addedKeywords, addedUrls))
    && PairwiseAt(chosen, Compatible)
  }

  /**
   * The choice of one paragraph's links, given the urls and phrases the document has already
   * linked: generate, sort, sweep, shuffle and cap. `cands` are the generated candidates and
   * `accepted` what the sweep kept of them.
   */
  method Pick(index: Keywords, paragraph: string, docSlug: string, addedKeywords: set<string>, addedUrls: set<string>)
    returns (chosen: seq<Candidate>, ghost cands: seq<Candidate>, ghost accepted: seq<Candidate>)
    requires index.Valid()
    ensures Selection(index.entries, paragraph, docSlug, addedKeywords, addedUrls, cands, accepted, chosen)
  {
    var candidates := GenerateCandidates(index, paragraph, docSlug);
    cands := candidates;
    if candidates == [] {
      accepted := [];
      return [], cands, accepted;
    }
    var sorted := SortBy(candidates, CandidateLe);
    var res := Sweep(sorted, addedKeywords, addedUrls);
    accepted := res;
    chosen := ShuffleAndCap(res);
    ChosenFacts(candidates, sorted, accepted, chosen, index.entries, paragraph, docSlug, addedKeywords, addedUrls);
  }

  /**
   * The selection closure of `update_content`, with the document-wide sets of urls and phrases
   * already linked as its state.
   */
  class Selector {
    var addedUrls: set<string>
    var addedKeywords: set<string>

    constructor ()
      ensures addedUrls == {} && addedKeywords == {}
    {
      addedUrls := {};
      addedKeywords := {};
    }

    /** Chooses the links of one paragraph and records their urls and phrases as linked. */
    method Select(index: Keywords, paragraph: string, docSlug: string)
      returns (chosen: seq<Candidate>, ghost cands: seq<Candidate>, ghost accepted: seq<Candidate>)
      requires index.Valid()
      modifies this
      ensures Selection(index.entries, paragraph, docSlug, old(addedKeywords), old(addedUrls), cands, accepted, chosen)
      ensures AllHits(index.entries, paragraph, docSlug) == [] ==> chosen == []
      ensures addedUrls == old(addedUrls) + UrlsOf(chosen)
      ensures addedKeywords == old(addedKeywords) + KeywordsOf(chosen)
    {
      chosen, cands, accepted := Pick(index, paragraph, docSlug, addedKeywords, addedUrls);
      addedUrls := addedUrls + UrlsOf(chosen);
      addedKeywords := addedKeywords + KeywordsOf(chosen);
    }
  }

  /** What the selection's choice inherits from the sweep and the candidates. */
  lemma ChosenFacts(cands: seq<Candidate>, sorted: seq<Candidate>, accepted: seq<Candidate>, chosen: seq<Candidate>,
                    entries: map<string, set<string>>, text: string, docSlug: string,
                    addedKeywords: set<string>, addedUrls: set<string>)
    requires RealizesAll(cands, AllHits(entries, text, docSlug))
    requires sorted == SortBy(cands, CandidateLe)
    requires accepted == Swept(sorted, addedKeywords, addedUrls)
    requires multiset(chosen) <= multiset(accepted)
    ensures forall c :: c in chosen ==> Genuine(c, entries, text, docSlug)
    ensures forall c :: c in chosen ==> !Seen(c, addedKeywords, addedUrls)
    ensures PairwiseAt(chosen, Compatible)
  {
    CandidatesGenuine(cands, entries, text, docSlug);
    SweptSub(sorted, addedKeywords, addedUrls);
    SweptFresh(sorted, addedKeywords, addedUrls);
    SweptCompatible(sorted, addedKeywords, addedUrls);
    PairwiseAtSub(accepted, chosen, Compatible);
    forall c | c in chosen ensures c in accepted && c in cands {
      assert c in multiset(chosen);
      assert c in multiset(accepted);
      assert c in multiset(sorted);
    }
  }

  // ---------------------------------------------------------------------------------------
  // The whole document

  function Flatten<T>(ss: seq<seq<T>>): seq<T> {
    if ss == [] then [] else Flatten(ss[..|ss| - 1]) + ss[|ss| - 1]
  }

  lemma FlattenAppend<T>(ss: seq<seq<T>>, s: seq<T>)
    ensures Flatten(ss + [s]) == Flatten(ss) + s
  {
    assert (ss + [s])[..|ss|] == ss;
  }

  lemma SeenOfAppend(a: seq<Candidate>, b: seq<Candidate>)
    ensures UrlsOf(a + b) == UrlsOf(a) + UrlsOf(b)
    ensures KeywordsOf(a + b) == KeywordsOf(a) + KeywordsOf(b)
  {
    assert forall x :: x in a + b <==> x in a || x in b;
  }

  /** Candidates new to the document, and distinct among themselves, keep the document's phrases and urls distinct. */
  lemma DistinctAppend(prev: seq<Candidate>, next: seq<Candidate>)
    requires PairwiseAt(prev, Distinct) && PairwiseAt(next, Compatible)
    requires forall c :: c in next ==> !Seen(c, KeywordsOf(prev), UrlsOf(prev))
    ensures PairwiseAt(prev + next, Distinct)
  {
    var all := prev + next;
    forall i, j | 0 <= i < |all| && 0 <= j < |all| && i != j ensures Distinct(all[i], all[j]) {
      if i < |prev| && j < |prev| {
        assert Distinct(prev[i], prev[j]);
      } else if i >= |prev| && j >= |prev| {
        assert Compatible(next[i - |prev|], next[j - |prev|]);
      } else if i < |prev| {
        assert prev[i] in prev && next[j - |prev|] in next;
      } else {
        assert prev[j] in prev && next[i - |prev|] in next;
      }
    }
  }

  lemma TakeAppend<T>(s: seq<T>, x: T, k: nat)
    requires k <= |s|
    ensures (s + [x])[..k] == s[..k]
  {
  }

  /**
   * The selections of the first `|chosen|` texts, made in turn with one document-wide state:
   * text `i` is selected against the phrases and urls of the links chosen before it, and its
   * links are the triples of what was chosen.
   */
  ghost predicate Selections(entries: map<string, set<string>>, texts: seq<string>, docSlug: string,
                             lists: seq<seq<LinkSpan>>, chosen: seq<seq<Candidate>>,
                             cands: seq<seq<Candidate>>, accepted: seq<seq<Candidate>>) {
    && |lists| == |chosen| == |cands| == |accepted| <= |texts|
    && forall i :: 0 <= i < |chosen| ==>
      && lists[i] == Tuples(chosen[i])
      && Selection(entries, texts[i], docSlug, KeywordsOf(Flatten(chosen[..i])), UrlsOf(Flatten(chosen[..i])),
                   cands[i], accepted[i], chosen[i])
  }

  /** One more text selected against the links chosen so far extends the selections. */
  lemma SelectionsExtend(entries: map<string, set<string>>, texts: seq<string>, docSlug: string,
                         lists: seq<seq<LinkSpan>>, chosen: seq<seq<Candidate>>,
                         cands: seq<seq<Candidate>>, accepted: seq<seq<Candidate>>,
                         picked: seq<Candidate>, c: seq<Candidate>, a: seq<Candidate>)
    requires Selections(entries, texts, docSlug, lists, chosen, cands, accepted) && |chosen| < |texts|
    requires Selection(entries, texts[|chosen|], docSlug, KeywordsOf(Flatten(chosen)), UrlsOf(Flatten(chosen)), c, a, picked)
    ensures Selections(entries, texts, docSlug, lists + [Tuples(picked)], chosen + [picked], cands + [c], accepted + [a])
  {
    var lists', chosen', cands', accepted' := lists + [Tuples(picked)], chosen + [picked], cands + [c], accepted + [a];
    forall i | 0 <= i < |chosen'|
      ensures lists'[i] == Tuples(chosen'[i])
      ensures Selection(entries, texts[i], docSlug, KeywordsOf(Flatten(chosen'[..i])), UrlsOf(Flatten(chosen'[..i])),
                        cands'[i], accepted'[i], chosen'[i])
    {
      if i < |chosen| {
        TakeAppend(chosen, picked, i);
        assert lists'[i] == lists[i] && chosen'[i] == chosen[i] && cands'[i] == cands[i] && accepted'[i] == accepted[i];
      } else {
        assert chosen'[..i] == chosen;
      }
    }
  }

  /**
   * Runs the selection on each eligible text in turn with one document-wide state; `chosen[i]`
   * are the candidates behind `lists[i]`. No phrase and no url is linked twice in the document.
   */
  method SelectAll(index: Keywords, texts: seq<string>, docSlug: string)
    returns (lists: seq<seq<LinkSpan>>, ghost chosen: seq<seq<Candidate>>,
             ghost cands: seq<seq<Candidate>>, ghost accepted: seq<seq<Candidate>>)
    requires index.Valid()
    ensures |lists| == |texts|
    ensures Selections(index.entries, texts, docSlug, lists, chosen, cands, accepted)
    ensures PairwiseAt(Flatten(chosen), Distinct)
  {
    var selector := new Selector();
    lists, chosen, cands, accepted := [], [], [], [];
    for i := 0 to |texts|
      invariant |lists| == i
      invariant Selections(index.entries, texts, docSlug, lists, chosen, cands, accepted)
      invariant PairwiseAt(Flatten(chosen), Distinct)
      invariant selector.addedUrls == UrlsOf(Flatten(chosen))
      invariant selector.addedKeywords == KeywordsOf(Flatten(chosen))
    {
      ghost var prev := Flatten(chosen);
      var picked, c, a := selector.Select(index, texts[i], docSlug);
      SelectionsExtend(index.entries, texts, docSlug, lists, chosen, cands, accepted, picked, c, a);
      DistinctAppend(prev, picked);
      SeenOfAppend(prev, picked);
      FlattenAppend(chosen, picked);
      lists := lists + [Tuples(picked)];
      chosen, cands, accepted := chosen + [picked], cands + [c], accepted + [a];
    }
  }

  /** The selected links meet what the splicer needs: inside their text, and no two overlapping. */
  lemma SelectionsSplice(entries: map<string, set<string>>, texts: seq<string>, docSlug: string,
                         lists: seq<seq<LinkSpan>>, chosen: seq<seq<Candidate>>,
                         cands: seq<seq<Candidate>>, accepted: seq<seq<Candidate>>)
    requires Selections(entries, texts, docSlug, lists, chosen, cands, accepted) && |lists| == |texts|
    ensures forall i :: 0 <= i < |texts| ==> InBounds(texts[i], lists[i]) && Separated(multiset(lists[i]))
  {
    forall i | 0 <= i < |texts| ensures InBounds(texts[i], lists[i]) && Separated(multiset(lists[i])) {
      TuplesInBounds(chosen[i], entries, texts[i], docSlug);
      TuplesSeparated(chosen[i]);
    }
  }

  /**
   * The links of a whole markdown tree: the selection over its eligible texts, in document
   * order, then `add_links`. The text reads as before and the tree gains exactly the chosen links.
   */
  method LinkDocument(index: Keywords, tree: Node, docSlug: string)
    returns (linked: Node, lists: seq<seq<LinkSpan>>, ghost chosen: seq<seq<Candidate>>,
             ghost cands: seq<seq<Candidate>>, ghost accepted: seq<seq<Candidate>>)
    requires index.Valid()
    ensures |lists| == |EligibleTexts(tree)|
    ensures Selections(index.entries, EligibleTexts(tree), docSlug, lists, chosen, cands, accepted)
    ensures PairwiseAt(Flatten(chosen), Distinct)
    ensures forall i :: 0 <= i < |lists| ==> InBounds(EligibleTexts(tree)[i], lists[i])
    ensures linked == Rewrite(tree, Splices(EligibleTexts(tree), lists))
    ensures Visible(linked) == Visible(tree)
    ensures multiset(LinkUrls(linked)) == multiset(LinkUrls(tree)) + ListUrls(lists)
  {
    var texts := EligibleTexts(tree);
    lists, chosen, cands, accepted := SelectAll(index, texts, docSlug);
    SelectionsSplice(index.entries, texts, docSlug, lists, chosen, cands, accepted);
    linked := AddLinks(tree, lists);
    AddLinksSound(tree, lists);
  }

  /**
   * `update_content`, with comrak's parser and renderer given as `parse` and `render`: the
   * output is the trimmed front matter framed by `---` lines, then the rendered linked tree.
   * `linked` is that tree (an empty document when parsing fails): the parsed body rewritten
   * with the splices of the links selected for its eligible texts, against the document's slug.
   * Parsing uses the corrected `SplitFrontMatter`, so on `""` this returns the parse failure
   * where the source panics.
   */
  method UpdateContent(index: Keywords, content: string, decode: string -> Option<Header>,
                       parse: string -> Node, render: Node -> string)
    returns (r: Result<string, DocError>, linked: Node, lists: seq<seq<LinkSpan>>,
             ghost chosen: seq<seq<Candidate>>, ghost cands: seq<seq<Candidate>>, ghost accepted: seq<seq<Candidate>>)
    requires index.Valid()
    ensures Parse(content, decode).Failure? ==> r == Failure(Parse(content, decode).error)
    ensures Parse(content, decode).Success? ==>
      var d := Parse(content, decode).value;
      var tree := parse(d.body);
      && |lists| == |EligibleTexts(tree)|
      && Selections(index.entries, EligibleTexts(tree), d.header.slug, lists, chosen, cands, accepted)
      && PairwiseAt(Flatten(chosen), Distinct)
      && (forall i :: 0 <= i < |lists| ==> InBounds(EligibleTexts(tree)[i], lists[i]))
      && linked == Rewrite(tree, Splices(EligibleTexts(tree), lists))
      && r == Success(Frame(d.frontMatterAll, render(linked)))
      && Visible(linked) == Visible(tree)
      && multiset(LinkUrls(linked)) == multiset(LinkUrls(tree)) + ListUrls(lists)
  {
    var doc := Parse(content, decode);
    if doc.Failure? {
      return Failure(doc.error), Element(NodeValue.Document, []), [], [], [], [];
    }
    var d := doc.value;
    var tree := parse(d.body);
    linked, lists, chosen, cands, accepted := LinkDocument(index, tree, d.header.slug);
    var out := Open + "\n" + Trim(d.frontMatterAll) + Close;
    r := Success(out + render(linked));
  }
}
