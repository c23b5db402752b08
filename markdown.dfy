/**
 * The markdown side of the auto-linker: the parsed document tree, `alter_text` (which text
 * nodes the linker may rewrite, and how a rewrite replaces them) and the splice closure of
 * `add_links` (which turns `(start, length, url)` triples into text and link segments).
 *
 * The tree is a value: `alter_text`'s in-place `insert_before`/`detach` is modelled as
 * rebuilding the children of each paragraph in order.
 */
module Markdown {
  import opened Wrappers
  import opened Strings
  import opened Sorting
  import opened Pairs

  /** The node kinds of the markdown tree that the traversal tells apart. */
  datatype NodeValue =
    | Document
    | Paragraph
    | Heading(level: nat)
    | BlockQuote
    | List
    | Item
    | DescriptionList
    | DescriptionItem
    | DescriptionTerm
    | DescriptionDetails
    | CodeBlock(info: string, literal: string)
    | HtmlBlock(literal: string)
    | Table
    | ThematicBreak
    | Strong
    | Emph
    | Link(url: string, title: string)
    | Image(url: string, title: string)
    | Code(literal: string)
    | SoftBreak
    | LineBreak
    | Other(kind: string)

  /** A text leaf, or an element with its children in document order. */
  datatype Node = Text(literal: string) | Element(value: NodeValue, children: seq<Node>)

  /** The kinds `alter_text` neither rewrites nor descends into. */
  predicate Ignored(v: NodeValue) {
    || v.BlockQuote? || v.List? || v.Item?
    || v.DescriptionItem? || v.DescriptionTerm? || v.DescriptionDetails? || v.DescriptionList?
    || v.CodeBlock? || v.HtmlBlock? || v.Table? || v.ThematicBreak?
    || v.Strong? || v.Emph? || v.Link? || v.Image?
  }

  /** The text of a tree: its Text literals, concatenated in document order. */
  function Visible(n: Node): string {
    match n
    case Text(literal) => literal
    case Element(_, children) => VisibleSeq(children)
  }

  function VisibleSeq(ns: seq<Node>): string {
    if ns == [] then "" else VisibleSeq(ns[..|ns| - 1]) + Visible(ns[|ns| - 1])
  }

  /** The url of every link of a tree, in document order, including those under ignored nodes. */
  function LinkUrls(n: Node): seq<string> {
    match n
    case Text(_) => []
    case Element(v, children) => (if v.Link? then [v.url] else []) + LinkUrlsSeq(children)
  }

  function LinkUrlsSeq(ns: seq<Node>): seq<string> {
    if ns == [] then [] else LinkUrlsSeq(ns[..|ns| - 1]) + LinkUrls(ns[|ns| - 1])
  }

  /** The literals of the Text children of a paragraph, in order. */
  function ParagraphTexts(children: seq<Node>): seq<string> {
    if children == [] then []
    else
      var last := children[|children| - 1];
      ParagraphTexts(children[..|children| - 1]) + (if last.Text? then [last.literal] else [])
  }

  /**
   * The texts `alter_text` hands to its helper, in the order it does so: the Text children of
   * every paragraph reached without passing through an ignored node. Text anywhere else (in a
   * heading, under emphasis, inside a link) is never handed over.
   */
  function EligibleTexts(n: Node): seq<string> {
    match n
    case Text(_) => []
    case Element(v, children) =>
      if Ignored(v) then []
      else if v.Paragraph? then ParagraphTexts(children)
      else EligibleTextsSeq(children)
  }

  function EligibleTextsSeq(ns: seq<Node>): seq<string> {
    if ns == [] then [] else EligibleTextsSeq(ns[..|ns| - 1]) + EligibleTexts(ns[|ns| - 1])
  }

  /** What the helper answers for one text: None keeps the node, Some(v) replaces it by `v`. */
  type Reply = Option<seq<Node>>

  /** The children of a paragraph after each Text child is replaced as its reply says. */
  function RewriteParagraph(children: seq<Node>, replies: seq<Reply>): seq<Node>
    requires |replies| == |ParagraphTexts(children)|
  {
    if children == [] then []
    else
      var init, last := children[..|children| - 1], children[|children| - 1];
      var m := |ParagraphTexts(init)|;
      RewriteParagraph(init, replies[..m])
        + (if last.Text? && replies[m].Some? then replies[m].value else [last])
  }

  /** The tree `alter_text` leaves behind when the helper's answers are `replies`, in call order. */
  function Rewrite(n: Node, replies: seq<Reply>): Node
    requires |replies| == |EligibleTexts(n)|
  {
    match n
    case Text(_) => n
    case Element(v, children) =>
      if Ignored(v) then n
      else if v.Paragraph? then Element(v, RewriteParagraph(children, replies))
      else Element(v, RewriteSeq(children, replies))
  }

  function RewriteSeq(ns: seq<Node>, replies: seq<Reply>): seq<Node>
    requires |replies| == |EligibleTextsSeq(ns)|
  {
    if ns == [] then []
    else
      var init, last := ns[..|ns| - 1], ns[|ns| - 1];
      var m := |EligibleTextsSeq(init)|;
      RewriteSeq(init, replies[..m]) + [Rewrite(last, replies[m..])]
  }

  lemma {:induction false} EligibleTextsSeqAppend(a: seq<Node>, b: seq<Node>)
    decreases |b|
    ensures EligibleTextsSeq(a + b) == EligibleTextsSeq(a) + EligibleTextsSeq(b)
  {
    if b != [] {
      var init := b[..|b| - 1];
      assert (a + b)[..|a + b| - 1] == a + init;
      EligibleTextsSeqAppend(a, init);
    } else {
      assert a + b == a;
    }
  }

  /**
   * `alter_text`: ignored nodes are left alone; in a paragraph each Text child is handed to the
   * helper and, when it answers `Some(v)`, replaced where it stood by the nodes of `v`; every
   * other node is descended into. The helper's answers arrive as `replies`, one per call.
   */
  method AlterText(n: Node, replies: seq<Reply>) returns (r: Node)
    requires |replies| == |EligibleTexts(n)|
    ensures r == Rewrite(n, replies)
  {
    match n {
      case Text(_) =>
        r := n;
      case Element(v, children) =>
        if Ignored(v) {
          r := n;
        } else if v.Paragraph? {
          var out := AlterParagraph(children, replies);
          r := Element(v, out);
        } else {
          var out := AlterChildren(children, replies);
          r := Element(v, out);
        }
    }
  }

  /** The paragraph arm: each Text child is replaced by its reply's nodes, if there is one. */
  method AlterParagraph(children: seq<Node>, replies: seq<Reply>) returns (out: seq<Node>)
    requires |replies| == |ParagraphTexts(children)|
    ensures out == RewriteParagraph(children, replies)
  {
    out := [];
    var used := 0;
    for i := 0 to |children|
      invariant used == |ParagraphTexts(children[..i])| && used <= |replies|
      invariant out == RewriteParagraph(children[..i], replies[..used])
    {
      var c := children[i];
      ParagraphStep(children, replies, i);
      if c.Text? {
        match replies[used] {
          case Some(nodes) => out := out + nodes;
          case None => out := out + [c];
        }
        used := used + 1;
      } else {
        out := out + [c];
      }
    }
    assert children[..|children|] == children;
    ParagraphTextsSplit(children, |children|);
    assert replies[..used] == replies;
  }

  /** One more child of the paragraph: its replacement follows the rewritten children before it. */
  lemma ParagraphStep(children: seq<Node>, replies: seq<Reply>, i: nat)
    requires i < |children| && |replies| == |ParagraphTexts(children)|
    ensures |ParagraphTexts(children[..i + 1])| == |ParagraphTexts(children[..i])| + (if children[i].Text? then 1 else 0)
    ensures |ParagraphTexts(children[..i + 1])| <= |replies|
    ensures RewriteParagraph(children[..i + 1], replies[..|ParagraphTexts(children[..i + 1])|]) ==
      RewriteParagraph(children[..i], replies[..|ParagraphTexts(children[..i])|])
        + Replacement(children[i], replies[|ParagraphTexts(children[..i])|..])
  {
    var pre := children[..i + 1];
    assert pre[..i] == children[..i];
    ParagraphTextsSplit(children, i + 1);
    var m := |ParagraphTexts(children[..i])|;
    var r := replies[..|ParagraphTexts(pre)|];
    assert r[..m] == replies[..m];
  }

  /** The recursive arm: every child is traversed in turn, consuming the replies of its texts. */
  method AlterChildren(children: seq<Node>, replies: seq<Reply>) returns (out: seq<Node>)
    requires |replies| == |EligibleTextsSeq(children)|
    ensures out == RewriteSeq(children, replies)
  {
    out := [];
    var used := 0;
    for i := 0 to |children|
      invariant used == |EligibleTextsSeq(children[..i])| && used <= |replies|
      invariant out == RewriteSeq(children[..i], replies[..used])
    {
      var c := children[i];
      ChildrenStep(children, replies, i);
      var m := |EligibleTexts(c)|;
      var rc := AlterText(c, replies[used..used + m]);
      out := out + [rc];
      used := used + m;
    }
    assert children[..|children|] == children;
    assert replies[..used] == replies;
  }

  /** One more child: its rewrite, with the replies of its own texts, follows the rewritten children before it. */
  lemma ChildrenStep(children: seq<Node>, replies: seq<Reply>, i: nat)
    requires i < |children| && |replies| == |EligibleTextsSeq(children)|
    ensures |EligibleTextsSeq(children[..i + 1])| == |EligibleTextsSeq(children[..i])| + |EligibleTexts(children[i])|
    ensures |EligibleTextsSeq(children[..i + 1])| <= |replies|
    ensures var used := |EligibleTextsSeq(children[..i])|;
      RewriteSeq(children[..i + 1], replies[..used + |EligibleTexts(children[i])|]) ==
        RewriteSeq(children[..i], replies[..used]) + [Rewrite(children[i], replies[used..used + |EligibleTexts(children[i])|])]
  {
    var pre := children[..i + 1];
    assert pre[..i] == children[..i];
    assert pre + children[i + 1..] == children;
    EligibleTextsSeqAppend(pre, children[i + 1..]);
    var used := |EligibleTextsSeq(children[..i])|;
    var r := replies[..used + |EligibleTexts(children[i])|];
    assert r[..used] == replies[..used];
    assert r[used..] == replies[used..used + |EligibleTexts(children[i])|];
  }

  lemma {:induction false} ParagraphTextsSplit(children: seq<Node>, i: nat)
    requires i <= |children|
    decreases |children|
    ensures ParagraphTexts(children) == ParagraphTexts(children[..i]) + ParagraphTexts(children[i..])
  {
    if i < |children| {
      var init := children[..|children| - 1];
      ParagraphTextsSplit(init, i);
      assert init[..i] == children[..i];
      assert children[i..][..|children[i..]| - 1] == init[i..];
    } else {
      assert children[..i] == children;
    }
  }

  lemma ParagraphTextsAppend(a: seq<Node>, b: seq<Node>)
    ensures ParagraphTexts(a + b) == ParagraphTexts(a) + ParagraphTexts(b)
  {
    ParagraphTextsSplit(a + b, |a|);
    assert (a + b)[..|a|] == a && (a + b)[|a|..] == b;
  }

  lemma {:induction false} VisibleSeqAppend(a: seq<Node>, b: seq<Node>)
    decreases |b|
    ensures VisibleSeq(a + b) == VisibleSeq(a) + VisibleSeq(b)
  {
    if b != [] {
      var init := b[..|b| - 1];
      assert (a + b)[..|a + b| - 1] == a + init;
      VisibleSeqAppend(a, init);
    } else {
      assert a + b == a;
    }
  }

  lemma {:induction false} LinkUrlsSeqAppend(a: seq<Node>, b: seq<Node>)
    decreases |b|
    ensures LinkUrlsSeq(a + b) == LinkUrlsSeq(a) + LinkUrlsSeq(b)
  {
    if b != [] {
      var init := b[..|b| - 1];
      assert (a + b)[..|a + b| - 1] == a + init;
      LinkUrlsSeqAppend(a, init);
    } else {
      assert a + b == a;
    }
  }

  /** Every replacement the helper returns spells out exactly the text it was handed. */
  ghost predicate Faithful(texts: seq<string>, replies: seq<Reply>) {
    && |replies| == |texts|
    && forall i :: 0 <= i < |replies| && replies[i].Some? ==> VisibleSeq(replies[i].value) == texts[i]
  }

  lemma FaithfulSlice(texts: seq<string>, replies: seq<Reply>, lo: nat, hi: nat)
    requires Faithful(texts, replies)
    requires lo <= hi <= |texts|
    ensures Faithful(texts[lo..hi], replies[lo..hi])
  {
    forall i | 0 <= i < hi - lo && replies[lo..hi][i].Some?
      ensures VisibleSeq(replies[lo..hi][i].value) == texts[lo..hi][i]
    {
      assert replies[lo..hi][i] == replies[lo + i];
    }
  }

  /** Faithful replacements leave the text of a tree as it was: linking only adds markup. */
  lemma {:induction false} RewriteVisible(n: Node, replies: seq<Reply>)
    requires Faithful(EligibleTexts(n), replies)
    ensures Visible(Rewrite(n, replies)) == Visible(n)
  {
    match n
    case Text(_) =>
    case Element(v, children) =>
      if Ignored(v) {
      } else if v.Paragraph? {
        RewriteParagraphVisible(children, replies);
      } else {
        RewriteSeqVisible(children, replies);
      }
  }

  lemma {:induction false} RewriteSeqVisible(ns: seq<Node>, replies: seq<Reply>)
    requires Faithful(EligibleTextsSeq(ns), replies)
    ensures VisibleSeq(RewriteSeq(ns, replies)) == VisibleSeq(ns)
  {
    if ns != [] {
      var init, last := ns[..|ns| - 1], ns[|ns| - 1];
      var texts := EligibleTextsSeq(ns);
      var m := |EligibleTextsSeq(init)|;
      FaithfulSlice(texts, replies, 0, m);
      FaithfulSlice(texts, replies, m, |texts|);
      assert texts[0..m] == EligibleTextsSeq(init) && texts[m..|texts|] == EligibleTexts(last);
      assert replies[0..m] == replies[..m] && replies[m..|texts|] == replies[m..];
      RewriteSeqVisible(init, replies[..m]);
      RewriteVisible(last, replies[m..]);
      var front := RewriteSeq(init, replies[..m]);
      assert (front + [Rewrite(last, replies[m..])])[..|front|] == front;
    }
  }

  lemma {:induction false} RewriteParagraphVisible(children: seq<Node>, replies: seq<Reply>)
    requires Faithful(ParagraphTexts(children), replies)
    ensures VisibleSeq(RewriteParagraph(children, replies)) == VisibleSeq(children)
  {
    if children != [] {
      var init, last := children[..|children| - 1], children[|children| - 1];
      var texts := ParagraphTexts(children);
      var m := |ParagraphTexts(init)|;
      FaithfulSlice(texts, replies, 0, m);
      assert texts[0..m] == ParagraphTexts(init) && replies[0..m] == replies[..m];
      RewriteParagraphVisible(init, replies[..m]);
      var tail := if last.Text? && replies[m].Some? then replies[m].value else [last];
      VisibleSeqAppend(RewriteParagraph(init, replies[..m]), tail);
      if last.Text? && replies[m].Some? {
        assert texts[m] == last.literal;
      } else {
        assert [last][..0] == [];
      }
    }
  }

  /** When the helper answers None for every text, the tree is unchanged. */
  lemma {:induction false} RewriteUnchanged(n: Node, replies: seq<Reply>)
    requires |replies| == |EligibleTexts(n)|
    requires forall i :: 0 <= i < |replies| ==> replies[i].None?
    ensures Rewrite(n, replies) == n
  {
    match n
    case Text(_) =>
    case Element(v, children) =>
      if Ignored(v) {
      } else if v.Paragraph? {
        RewriteParagraphUnchanged(children, replies);
      } else {
        RewriteSeqUnchanged(children, replies);
      }
  }

  lemma {:induction false} RewriteSeqUnchanged(ns: seq<Node>, replies: seq<Reply>)
    requires |replies| == |EligibleTextsSeq(ns)|
    requires forall i :: 0 <= i < |replies| ==> replies[i].None?
    ensures RewriteSeq(ns, replies) == ns
  {
    if ns != [] {
      var init, last := ns[..|ns| - 1], ns[|ns| - 1];
      var m := |EligibleTextsSeq(init)|;
      assert forall i :: 0 <= i < m ==> replies[..m][i] == replies[i];
      assert forall i :: 0 <= i < |replies| - m ==> replies[m..][i] == replies[m + i];
      RewriteSeqUnchanged(init, replies[..m]);
      RewriteUnchanged(last, replies[m..]);
      assert ns == init + [last];
    }
  }

  lemma {:induction false} RewriteParagraphUnchanged(children: seq<Node>, replies: seq<Reply>)
    requires |replies| == |ParagraphTexts(children)|
    requires forall i :: 0 <= i < |replies| ==> replies[i].None?
    ensures RewriteParagraph(children, replies) == children
  {
    if children != [] {
      var init, last := children[..|children| - 1], children[|children| - 1];
      var m := |ParagraphTexts(init)|;
      assert forall i :: 0 <= i < m ==> replies[..m][i] == replies[i];
      RewriteParagraphUnchanged(init, replies[..m]);
      assert children == init + [last];
    }
  }

  /** The link urls a list of replies brings in, counted with multiplicity. */
  function ReplyUrls(replies: seq<Reply>): multiset<string> {
    if replies == [] then multiset{}
    else
      var last := replies[|replies| - 1];
      ReplyUrls(replies[..|replies| - 1]) + (if last.Some? then multiset(LinkUrlsSeq(last.value)) else multiset{})
  }

  lemma {:induction false} ReplyUrlsAppend(a: seq<Reply>, b: seq<Reply>)
    decreases |b|
    ensures ReplyUrls(a + b) == ReplyUrls(a) + ReplyUrls(b)
  {
    if b != [] {
      var init := b[..|b| - 1];
      assert (a + b)[..|a + b| - 1] == a + init;
      ReplyUrlsAppend(a, init);
    } else {
      assert a + b == a;
    }
  }

  /**
   * A rewrite keeps every link the tree had and adds exactly the links of the replacements;
   * no link is lost or duplicated.
   */
  lemma {:induction false} RewriteLinkUrls(n: Node, replies: seq<Reply>)
    requires |replies| == |EligibleTexts(n)|
    ensures multiset(LinkUrls(Rewrite(n, replies))) == multiset(LinkUrls(n)) + ReplyUrls(replies)
  {
    match n
    case Text(_) =>
    case Element(v, children) =>
      if Ignored(v) {
      } else if v.Paragraph? {
        RewriteParagraphLinkUrls(children, replies);
      } else {
        RewriteSeqLinkUrls(children, replies);
      }
  }

  lemma {:induction false} RewriteSeqLinkUrls(ns: seq<Node>, replies: seq<Reply>)
    requires |replies| == |EligibleTextsSeq(ns)|
    ensures multiset(LinkUrlsSeq(RewriteSeq(ns, replies))) == multiset(LinkUrlsSeq(ns)) + ReplyUrls(replies)
  {
    if ns != [] {
      var init, last := ns[..|ns| - 1], ns[|ns| - 1];
      var m := |EligibleTextsSeq(init)|;
      RewriteSeqLinkUrls(init, replies[..m]);
      RewriteLinkUrls(last, replies[m..]);
      ReplyUrlsSplit(replies, m);
      RewriteSeqLastUrls(ns, replies);
    }
  }

  lemma ReplyUrlsSplit(replies: seq<Reply>, m: nat)
    requires m <= |replies|
    ensures ReplyUrls(replies) == ReplyUrls(replies[..m]) + ReplyUrls(replies[m..])
  {
    assert replies == replies[..m] + replies[m..];
    ReplyUrlsAppend(replies[..m], replies[m..]);
  }

  /** The links of a rewritten sequence: those of its rewritten front, then those of its rewritten last node. */
  lemma RewriteSeqLastUrls(ns: seq<Node>, replies: seq<Reply>)
    requires ns != [] && |replies| == |EligibleTextsSeq(ns)|
    ensures var m := |EligibleTextsSeq(ns[..|ns| - 1])|;
      LinkUrlsSeq(RewriteSeq(ns, replies)) ==
        LinkUrlsSeq(RewriteSeq(ns[..|ns| - 1], replies[..m])) + LinkUrls(Rewrite(ns[|ns| - 1], replies[m..]))
  {
    var m := |EligibleTextsSeq(ns[..|ns| - 1])|;
    var front := RewriteSeq(ns[..|ns| - 1], replies[..m]);
    var back := Rewrite(ns[|ns| - 1], replies[m..]);
    LinkUrlsSeqAppend(front, [back]);
    assert [back][..0] == [];
  }

  lemma {:induction false} RewriteParagraphLinkUrls(children: seq<Node>, replies: seq<Reply>)
    requires |replies| == |ParagraphTexts(children)|
    ensures multiset(LinkUrlsSeq(RewriteParagraph(children, replies))) == multiset(LinkUrlsSeq(children)) + ReplyUrls(replies)
  {
    if children != [] {
      var init, last := children[..|children| - 1], children[|children| - 1];
      var m := |ParagraphTexts(init)|;
      var front := LinkUrlsSeq(RewriteParagraph(init, replies[..m]));
      var tail := LinkUrlsSeq(Replacement(last, replies[m..]));
      RewriteParagraphLinkUrls(init, replies[..m]);
      RewriteParagraphLastUrls(children, replies);
      ParagraphLastUrls(children, replies);
      LinkUrlsSeqLast(children);
      TradeUrls(multiset(front), multiset(tail), multiset(LinkUrlsSeq(init)), multiset(LinkUrls(last)),
                ReplyUrls(replies[..m]), ReplyUrls(replies));
    }
  }

  lemma LinkUrlsSeqLast(ns: seq<Node>)
    requires ns != []
    ensures multiset(LinkUrlsSeq(ns)) == multiset(LinkUrlsSeq(ns[..|ns| - 1])) + multiset(LinkUrls(ns[|ns| - 1]))
  {
    assert LinkUrlsSeq(ns) == LinkUrlsSeq(ns[..|ns| - 1]) + LinkUrls(ns[|ns| - 1]);
  }

  /** The bookkeeping of one rewritten child: the front's links and the tail's add up. */
  lemma TradeUrls(front: multiset<string>, tail: multiset<string>, init: multiset<string>, last: multiset<string>,
                  before: multiset<string>, all: multiset<string>)
    requires front == init + before
    requires before + tail == all + last
    ensures front + tail == (init + last) + all
  {
    forall u ensures (front + tail)[u] == ((init + last) + all)[u] {
      assert front[u] == (init + before)[u];
      assert (before + tail)[u] == (all + last)[u];
    }
  }

  /** What the last child of a paragraph becomes. */
  function Replacement(last: Node, rest: seq<Reply>): seq<Node> {
    if last.Text? && rest != [] && rest[0].Some? then rest[0].value else [last]
  }

  /** The links of a rewritten paragraph: those of its rewritten front, then those of its last child's replacement. */
  lemma RewriteParagraphLastUrls(children: seq<Node>, replies: seq<Reply>)
    requires children != [] && |replies| == |ParagraphTexts(children)|
    ensures var m := |ParagraphTexts(children[..|children| - 1])|;
      LinkUrlsSeq(RewriteParagraph(children, replies)) ==
        LinkUrlsSeq(RewriteParagraph(children[..|children| - 1], replies[..m])) + LinkUrlsSeq(Replacement(children[|children| - 1], replies[m..]))
  {
    var init, last := children[..|children| - 1], children[|children| - 1];
    var m := |ParagraphTexts(init)|;
    LinkUrlsSeqAppend(RewriteParagraph(init, replies[..m]), Replacement(last, replies[m..]));
  }

  /** The last child of a paragraph trades its own links for those of its reply, if it has one. */
  lemma ParagraphLastUrls(children: seq<Node>, replies: seq<Reply>)
    requires children != [] && |replies| == |ParagraphTexts(children)|
    ensures var m := |ParagraphTexts(children[..|children| - 1])|;
      ReplyUrls(replies[..m]) + multiset(LinkUrlsSeq(Replacement(children[|children| - 1], replies[m..]))) ==
        ReplyUrls(replies) + multiset(LinkUrls(children[|children| - 1]))
  {
    var init, last := children[..|children| - 1], children[|children| - 1];
    var m := |ParagraphTexts(init)|;
    assert LinkUrlsSeq([last]) == LinkUrls(last) by {
      assert [last][..0] == [];
    }
    if last.Text? {
      assert |ParagraphTexts(children)| == m + 1;
      assert replies[..m] == replies[..|replies| - 1];
    } else {
      assert ParagraphTexts(children) == ParagraphTexts(init);
      assert replies == replies[..m];
    }
  }

  /** Rewriting a paragraph's children splits anywhere: each part consumes the replies of its own texts. */
  lemma RewriteParagraphAppend(a: seq<Node>, b: seq<Node>, replies: seq<Reply>)
    requires |replies| == |ParagraphTexts(a + b)|
    ensures ParagraphTexts(a + b) == ParagraphTexts(a) + ParagraphTexts(b)
    ensures RewriteParagraph(a + b, replies) ==
      RewriteParagraph(a, replies[..|ParagraphTexts(a)|]) + RewriteParagraph(b, replies[|ParagraphTexts(a)|..])
  {
    ParagraphTextsAppend(a, b);
    var k := |ParagraphTexts(a)|;
    assert replies == replies[..k] + replies[k..];
    RewriteParagraphConcat(a, b, replies[..k], replies[k..]);
  }

  /** The same split, with the replies given as the two parts' own lists. */
  lemma {:induction false} RewriteParagraphConcat(a: seq<Node>, b: seq<Node>, ra: seq<Reply>, rb: seq<Reply>)
    requires |ra| == |ParagraphTexts(a)| && |rb| == |ParagraphTexts(b)|
    decreases |b|
    ensures ParagraphTexts(a + b) == ParagraphTexts(a) + ParagraphTexts(b)
    ensures RewriteParagraph(a + b, ra + rb) == RewriteParagraph(a, ra) + RewriteParagraph(b, rb)
  {
    ParagraphTextsAppend(a, b);
    if b == [] {
      assert a + b == a && ra + rb == ra;
    } else {
      var init, last := b[..|b| - 1], b[|b| - 1];
      var j := |ParagraphTexts(init)|;
      var rInit, rLast := rb[..j], rb[j..];
      ParagraphTextsAppend(init, [last]);
      SnocParts(a, b);
      SplitParts(ra, rb, j);
      RewriteParagraphConcat(a, init, ra, rInit);
      RewriteParagraphSnoc(a + init, last, ra + rInit, rLast);
      RewriteParagraphSnoc(init, last, rInit, rLast);
      ConcatAssoc(RewriteParagraph(a, ra), RewriteParagraph(init, rInit), Replacement(last, rLast));
    }
  }

  /** A paragraph with one more child: its rewrite is followed by that child's replacement. */
  lemma RewriteParagraphSnoc(init: seq<Node>, last: Node, r: seq<Reply>, rLast: seq<Reply>)
    requires |r| == |ParagraphTexts(init)| && |rLast| == (if last.Text? then 1 else 0)
    ensures RewriteParagraph(init + [last], r + rLast) == RewriteParagraph(init, r) + Replacement(last, rLast)
  {
    var c := init + [last];
    assert c[..|c| - 1] == init && c[|c| - 1] == last;
    assert (r + rLast)[..|r|] == r;
  }

  /**
   * Each child of a paragraph is rewritten in place, after the rewritten children before it and
   * before those after it: a Text child is replaced by the nodes of its own reply when there is
   * one, and any other child (emphasis, a link, inline code) is kept as it is, subtree and all.
   */
  lemma RewriteParagraphAt(children: seq<Node>, replies: seq<Reply>, i: nat)
    requires i < |children| && |replies| == |ParagraphTexts(children)|
    ensures var m, m' := |ParagraphTexts(children[..i])|, |ParagraphTexts(children[..i])| + (if children[i].Text? then 1 else 0);
      && ParagraphTexts(children) ==
        ParagraphTexts(children[..i]) + (if children[i].Text? then [children[i].literal] else []) + ParagraphTexts(children[i + 1..])
      && RewriteParagraph(children, replies) ==
        RewriteParagraph(children[..i], replies[..m])
          + (if children[i].Text? && replies[m].Some? then replies[m].value else [children[i]])
          + RewriteParagraph(children[i + 1..], replies[m'..])
  {
    var upto := children[..i + 1];
    SplitParts([], children, i + 1);
    RewriteParagraphAppend(upto, children[i + 1..], replies);
    ParagraphTextsSplit(children, i + 1);
    ParagraphStep(children, replies, i);
    PrefixParts(children, i, i + 1);
  }

  lemma ConcatAssoc<T>(x: seq<T>, y: seq<T>, z: seq<T>)
    ensures x + (y + z) == (x + y) + z
  {
  }

  /** A non-empty `b` is its front followed by its last element, also behind any `a`. */
  lemma SnocParts<T>(a: seq<T>, b: seq<T>)
    requires b != []
    ensures b[..|b| - 1] + [b[|b| - 1]] == b && (a + b[..|b| - 1]) + [b[|b| - 1]] == a + b
  {
  }

  /** The first `i` elements of the first `j` are the first `i`; the others run from `i` to `j`. */
  lemma PrefixParts<T>(s: seq<T>, i: nat, j: nat)
    requires i <= j <= |s|
    ensures s[..j][..i] == s[..i] && s[..j][i..] == s[i..j]
  {
  }

  /** The first `j` elements are the first `i` followed by those from `i` to `j`. */
  lemma TakeParts<T>(s: seq<T>, i: nat, j: nat)
    requires i <= j <= |s|
    ensures s[..i] + s[i..j] == s[..j]
  {
  }

  /** The first `i + 1` elements are the first `i` followed by element `i`. */
  lemma TakeSnoc<T>(s: seq<T>, i: nat)
    requires i < |s|
    ensures s[..i] + [s[i]] == s[..i + 1]
  {
  }

  lemma EligibleTextsSeqOne(n: Node)
    ensures EligibleTextsSeq([n]) == EligibleTexts(n)
  {
    assert [n][..0] == [];
  }

  /** `b` is its first `j` elements followed by the rest, also behind any `a`. */
  lemma SplitParts<T>(a: seq<T>, b: seq<T>, j: nat)
    requires j <= |b|
    ensures b[..j] + b[j..] == b && (a + b[..j]) + b[j..] == a + b
  {
  }

  /** Rewriting a sequence of subtrees splits anywhere: each part consumes the replies of its own texts. */
  lemma RewriteSeqAppend(a: seq<Node>, b: seq<Node>, replies: seq<Reply>)
    requires |replies| == |EligibleTextsSeq(a + b)|
    ensures EligibleTextsSeq(a + b) == EligibleTextsSeq(a) + EligibleTextsSeq(b)
    ensures RewriteSeq(a + b, replies) ==
      RewriteSeq(a, replies[..|EligibleTextsSeq(a)|]) + RewriteSeq(b, replies[|EligibleTextsSeq(a)|..])
  {
    EligibleTextsSeqAppend(a, b);
    var k := |EligibleTextsSeq(a)|;
    assert replies == replies[..k] + replies[k..];
    RewriteSeqConcat(a, b, replies[..k], replies[k..]);
  }

  /** The same split, with the replies given as the two parts' own lists. */
  lemma {:induction false} RewriteSeqConcat(a: seq<Node>, b: seq<Node>, ra: seq<Reply>, rb: seq<Reply>)
    requires |ra| == |EligibleTextsSeq(a)| && |rb| == |EligibleTextsSeq(b)|
    decreases |b|
    ensures EligibleTextsSeq(a + b) == EligibleTextsSeq(a) + EligibleTextsSeq(b)
    ensures RewriteSeq(a + b, ra + rb) == RewriteSeq(a, ra) + RewriteSeq(b, rb)
  {
    if b == [] {
      EligibleTextsSeqAppend(a, b);
      assert a + b == a && ra + rb == ra;
    } else {
      var init := b[..|b| - 1];
      EligibleTextsSeqAppend(init, [b[|b| - 1]]);
      assert init + [b[|b| - 1]] == b;
      RewriteSeqConcat(a, init, ra, rb[..|EligibleTextsSeq(init)|]);
      RewriteSeqConcatStep(a, b, ra, rb);
    }
  }

  /** The inductive step of `RewriteSeqConcat`: the split holds for `b` once it holds without its last node. */
  lemma RewriteSeqConcatStep(a: seq<Node>, b: seq<Node>, ra: seq<Reply>, rb: seq<Reply>)
    requires b != [] && |ra| == |EligibleTextsSeq(a)| && |rb| == |EligibleTextsSeq(b)|
    requires var init := b[..|b| - 1];
      && |EligibleTextsSeq(init)| <= |rb|
      && EligibleTextsSeq(a + init) == EligibleTextsSeq(a) + EligibleTextsSeq(init)
      && RewriteSeq(a + init, ra + rb[..|EligibleTextsSeq(init)|]) ==
        RewriteSeq(a, ra) + RewriteSeq(init, rb[..|EligibleTextsSeq(init)|])
    ensures EligibleTextsSeq(a + b) == EligibleTextsSeq(a) + EligibleTextsSeq(b)
    ensures RewriteSeq(a + b, ra + rb) == RewriteSeq(a, ra) + RewriteSeq(b, rb)
  {
    EligibleTextsSeqAppend(a, b);
    var init, last := b[..|b| - 1], b[|b| - 1];
    var j := |EligibleTextsSeq(init)|;
    var rInit, rLast := rb[..j], rb[j..];
    EligibleTextsSeqAppend(init, [last]);
    SnocParts(a, b);
    SplitParts(ra, rb, j);
    RewriteSeqSnoc(a + init, last, ra + rInit, rLast);
    RewriteSeqSnoc(init, last, rInit, rLast);
    ConcatAssoc(RewriteSeq(a, ra), RewriteSeq(init, rInit), [Rewrite(last, rLast)]);
  }

  /** A sequence of nodes with one more node: its rewrite is followed by that node's rewrite. */
  lemma RewriteSeqSnoc(init: seq<Node>, last: Node, r: seq<Reply>, rLast: seq<Reply>)
    requires |r| == |EligibleTextsSeq(init)| && |rLast| == |EligibleTexts(last)|
    ensures RewriteSeq(init + [last], r + rLast) == RewriteSeq(init, r) + [Rewrite(last, rLast)]
  {
    var ns := init + [last];
    assert ns[..|ns| - 1] == init && ns[|ns| - 1] == last;
    assert (r + rLast)[..|r|] == r && (r + rLast)[|r|..] == rLast;
  }

  /**
   * A Text node outside a paragraph and an ignored subtree (a list, a quote, a table, emphasis,
   * a link) have no eligible text and come back unchanged.
   */
  lemma RewriteKeeps(n: Node)
    requires n.Text? || Ignored(n.value)
    ensures EligibleTexts(n) == [] && Rewrite(n, []) == n
  {
  }

  /** The eligible texts of a sequence of subtrees are those before subtree `i`, its own, then those after it. */
  lemma EligibleTextsSeqAt(ns: seq<Node>, i: nat)
    requires i < |ns|
    ensures EligibleTextsSeq(ns) == EligibleTextsSeq(ns[..i]) + EligibleTexts(ns[i]) + EligibleTextsSeq(ns[i + 1..])
  {
    var upto, post := ns[..i + 1], ns[i + 1..];
    SplitParts([], ns, i + 1);
    EligibleTextsSeqAppend(upto, post);
    TakeSnoc(ns, i);
    EligibleTextsSeqAppend(ns[..i], [ns[i]]);
    EligibleTextsSeqOne(ns[i]);
  }

  /**
   * Each subtree below a node that is neither ignored nor a paragraph is rewritten in place
   * with the replies of its own texts, between the subtrees before and after it.
   */
  lemma RewriteSeqAt(ns: seq<Node>, replies: seq<Reply>, i: nat)
    requires i < |ns| && |replies| == |EligibleTextsSeq(ns)|
    ensures EligibleTextsSeq(ns) == EligibleTextsSeq(ns[..i]) + EligibleTexts(ns[i]) + EligibleTextsSeq(ns[i + 1..])
    ensures var m, m' := |EligibleTextsSeq(ns[..i])|, |EligibleTextsSeq(ns[..i])| + |EligibleTexts(ns[i])|;
      RewriteSeq(ns, replies) ==
        RewriteSeq(ns[..i], replies[..m]) + [Rewrite(ns[i], replies[m..m'])] + RewriteSeq(ns[i + 1..], replies[m'..])
  {
    EligibleTextsSeqAt(ns, i);
    var upto := ns[..i + 1];
    var m, m' := |EligibleTextsSeq(ns[..i])|, |EligibleTextsSeq(ns[..i])| + |EligibleTexts(ns[i])|;
    SplitParts([], ns, i + 1);
    RewriteSeqAppend(upto, ns[i + 1..], replies);
    TakeSnoc(ns, i);
    EligibleTextsSeqAppend(ns[..i], [ns[i]]);
    EligibleTextsSeqOne(ns[i]);
    TakeParts(replies, m, m');
    RewriteSeqSnoc(ns[..i], ns[i], replies[..m], replies[m..m']);
  }

  /**
   * A paragraph of a text followed by any other inline node (strong text, emphasis, a link):
   * only the text is handed to the helper, and the other node stays after whatever replaces
   * the text, whatever the helper answers.
   */
  lemma TextThenInline(t: string, e: Node, reply: Reply)
    requires !e.Text?
    ensures EligibleTexts(Element(Paragraph, [Text(t), e])) == [t]
    ensures Rewrite(Element(Paragraph, [Text(t), e]), [reply]) ==
      Element(Paragraph, (if reply.Some? then reply.value else [Text(t)]) + [e])
  {
    var children := [Text(t), e];
    assert children[..1] == [Text(t)] && [Text(t)][..0] == [];
    assert ParagraphTexts([Text(t)]) == [t];
    assert [reply][..1] == [reply] && [reply][..0] == [];
    assert RewriteParagraph([Text(t)], [reply]) == Replacement(Text(t), [reply]);
  }

  /** A paragraph of one text: the text is handed over and replaced by its reply, if any. */
  lemma SingleText(t: string, reply: Reply)
    ensures EligibleTexts(Element(Paragraph, [Text(t)])) == [t]
    ensures Rewrite(Element(Paragraph, [Text(t)]), [reply]) ==
      Element(Paragraph, if reply.Some? then reply.value else [Text(t)])
  {
    assert [Text(t)][..0] == [] && [reply][..0] == [];
    assert ParagraphTexts([Text(t)]) == [t];
    assert RewriteParagraph([Text(t)], [reply]) == Replacement(Text(t), [reply]);
  }

  /**
   * The document of `alter_text`'s capitalisation test, a heading, then a paragraph of a text
   * and strong text ("Testing Testing"), then a paragraph of one text, whatever its strings
   * and whatever the helper answers for the two paragraphs: the heading and the strong text are
   * never handed over and come back unchanged; only the two plain texts are replaced.
   */
  lemma CapitalizeParagraphs(heading: string, text: string, strong: string, another: string, first: Reply, second: Reply)
    ensures var doc := Element(Document, [
        Element(Heading(1), [Text(heading)]),
        Element(Paragraph, [Text(text), Element(Strong, [Text(strong)])]),
        Element(Paragraph, [Text(another)])]);
      && EligibleTexts(doc) == [text, another]
      && Rewrite(doc, [first, second]) == Element(Document, [
        Element(Heading(1), [Text(heading)]),
        Element(Paragraph, (if first.Some? then first.value else [Text(text)]) + [Element(Strong, [Text(strong)])]),
        Element(Paragraph, if second.Some? then second.value else [Text(another)])])
  {
    var h := Element(Heading(1), [Text(heading)]);
    var p1 := Element(Paragraph, [Text(text), Element(Strong, [Text(strong)])]);
    var p2 := Element(Paragraph, [Text(another)]);
    TextThenInline(text, Element(Strong, [Text(strong)]), first);
    SingleText(another, second);
    OutsideParagraph(Heading(1), heading);
    ThreeUnderDocument(h, p1, p2, first, second);
  }

  /** A document of three subtrees, the first with no eligible text and the others with one each. */
  lemma ThreeUnderDocument(a: Node, b: Node, c: Node, first: Reply, second: Reply)
    requires EligibleTexts(a) == [] && |EligibleTexts(b)| == 1 && |EligibleTexts(c)| == 1
    ensures EligibleTexts(Element(Document, [a, b, c])) == EligibleTexts(b) + EligibleTexts(c)
    ensures Rewrite(Element(Document, [a, b, c]), [first, second]) ==
      Element(Document, [Rewrite(a, []), Rewrite(b, [first]), Rewrite(c, [second])])
  {
    RewriteSeqThree(a, b, c, [first, second]);
    RewriteUnder(Document, [a, b, c], [first, second]);
  }

  /** A node that is neither ignored nor a paragraph hands over its subtrees' texts and rewrites each subtree. */
  lemma RewriteUnder(v: NodeValue, ns: seq<Node>, replies: seq<Reply>)
    requires !Ignored(v) && !v.Paragraph? && |replies| == |EligibleTextsSeq(ns)|
    ensures EligibleTexts(Element(v, ns)) == EligibleTextsSeq(ns)
    ensures Rewrite(Element(v, ns), replies) == Element(v, RewriteSeq(ns, replies))
  {
  }

  /** Three subtrees, the first with no eligible text and the others with one each. */
  lemma RewriteSeqThree(a: Node, b: Node, c: Node, replies: seq<Reply>)
    requires EligibleTexts(a) == [] && |EligibleTexts(b)| == 1 && |EligibleTexts(c)| == 1 && |replies| == 2
    ensures EligibleTextsSeq([a, b, c]) == EligibleTexts(b) + EligibleTexts(c)
    ensures RewriteSeq([a, b, c], replies) == [Rewrite(a, []), Rewrite(b, [replies[0]]), Rewrite(c, [replies[1]])]
  {
    assert [a, b, c][..2] == [a, b] && [a, b][..1] == [a] && [a][..0] == [];
    assert EligibleTextsSeq([a]) == [];
    assert EligibleTextsSeq([a, b]) == EligibleTexts(b);
    assert replies[..1] == [replies[0]] && replies[1..] == [replies[1]];
    assert RewriteSeq([a, b], [replies[0]]) == [Rewrite(a, []), Rewrite(b, [replies[0]])] by {
      var r: seq<Reply> := [];
      assert RewriteSeq([a], r) == [Rewrite(a, r)] by {
        assert r[0..] == r;
      }
      assert [replies[0]][..0] == r && [replies[0]][0..] == [replies[0]];
    }
  }

  /** A text directly under a node other than a paragraph is never handed over and stays as it is. */
  lemma OutsideParagraph(v: NodeValue, t: string)
    requires !v.Paragraph?
    ensures EligibleTexts(Element(v, [Text(t)])) == [] && Rewrite(Element(v, [Text(t)]), []) == Element(v, [Text(t)])
  {
    assert [Text(t)][..0] == [];
    assert RewriteSeq([Text(t)], []) == [Text(t)];
  }

  /** A link to add: the `(start, length, url)` triple the selection hands to the splicer. */
  datatype LinkSpan = LinkSpan(start: nat, length: nat, url: string) {
    function End(): nat { start + length }
  }

  /** The derived order of `(usize, usize, String)`: by start, then length, then url. */
  predicate LinkLe(a: LinkSpan, b: LinkSpan) {
    || a.start < b.start
    || (a.start == b.start && (a.length < b.length || (a.length == b.length && StrLe(a.url, b.url))))
  }

  lemma LinkLeTotalPreorder()
    ensures TotalPreorder(LinkLe)
  {
    forall a, b ensures LinkLe(a, b) || LinkLe(b, a) {
      StrLeTotal(a.url, b.url);
    }
    forall a, b, c | LinkLe(a, b) && LinkLe(b, c) ensures LinkLe(a, c) {
      if a.start == b.start == c.start && a.length == b.length == c.length {
        StrLeTransitive(a.url, b.url, c.url);
      }
    }
  }

  /** Every link lies inside the text; slicing outside it would panic. */
  predicate InBounds(text: string, links: seq<LinkSpan>) {
    forall i :: 0 <= i < |links| ==> links[i].End() <= |text|
  }

  lemma SortedInBounds(text: string, links: seq<LinkSpan>)
    requires InBounds(text, links)
    ensures InBounds(text, SortBy(links, LinkLe))
  {
    var sorted := SortBy(links, LinkLe);
    forall i | 0 <= i < |sorted| ensures sorted[i].End() <= |text| {
      assert sorted[i] in multiset(sorted);
      var j :| 0 <= j < |links| && links[j] == sorted[i];
    }
  }

  /** The link node for one triple: the url, an empty title, and the linked text as its only child. */
  function LinkNode(text: string, l: LinkSpan): Node
    requires l.End() <= |text|
  {
    Element(Link(l.url, ""), [Text(text[l.start..l.End()])])
  }

  /** Where the cursor stands after a link: at its end. */
  function Cursor(links: seq<LinkSpan>): nat {
    if links == [] then 0 else links[|links| - 1].End()
  }

  /** The plain segment between the cursor and `start`, emitted only when the cursor is before it. */
  function Gap(text: string, cur: nat, start: nat): seq<Node>
    requires start <= |text|
  {
    if cur < start then [Text(text[cur..start])] else []
  }

  /** The segments emitted for `links` in turn: the gap before each link, then the link. */
  function Segments(text: string, links: seq<LinkSpan>): seq<Node>
    requires InBounds(text, links)
  {
    if links == [] then []
    else
      var init, l := links[..|links| - 1], links[|links| - 1];
      Segments(text, init) + Gap(text, Cursor(init), l.start) + [LinkNode(text, l)]
  }

  /**
   * The splice closure of `add_links`: None for an empty link list, otherwise the segments of
   * the sorted links followed by the rest of the text, if any.
   */
  function Spliced(text: string, links: seq<LinkSpan>): Reply
    requires InBounds(text, links)
  {
    var sorted := SortBy(links, LinkLe);
    if sorted == [] then None
    else
      SortedInBounds(text, links);
      Some(Segments(text, sorted) + Gap(text, Cursor(sorted), |text|))
  }

  /** The splice closure, walking the sorted links with a cursor. */
  method SpliceLinks(text: string, links: seq<LinkSpan>) returns (reply: Reply)
    requires InBounds(text, links)
    ensures reply == Spliced(text, links)
  {
    var sorted := SortBy(links, LinkLe);
    if sorted == [] {
      return None;
    }
    SortedInBounds(text, links);
    var nodes: seq<Node> := [];
    var cur := 0;
    for i := 0 to |sorted|
      invariant cur == Cursor(sorted[..i])
      invariant nodes == Segments(text, sorted[..i])
    {
      var l := sorted[i];
      assert sorted[..i + 1][..i] == sorted[..i];
      if cur < l.start {
        nodes := nodes + [Text(text[cur..l.start])];
      }
      nodes := nodes + [LinkNode(text, l)];
      cur := l.End();
    }
    assert sorted[..|sorted|] == sorted;
    ghost var segments := nodes;
    if cur < |text| {
      nodes := nodes + [Text(text[cur..|text|])];
      assert nodes == segments + Gap(text, cur, |text|);
    } else {
      assert nodes == segments + Gap(text, cur, |text|);
    }
    // The closure's final `new_nodes.is_empty()` test cannot succeed: every link added a node.
    return Some(nodes);
  }

  /** Consecutive links do not overlap: each starts at or after the end of the one before. */
  predicate Chained(links: seq<LinkSpan>) {
    forall i :: 0 < i < |links| ==> links[i - 1].End() <= links[i].start
  }

  /** The link elements among sibling nodes, in order. */
  function LinkElements(ns: seq<Node>): seq<Node> {
    if ns == [] then []
    else
      var last := ns[|ns| - 1];
      LinkElements(ns[..|ns| - 1]) + (if last.Element? && last.value.Link? then [last] else [])
  }

  /** The link node of each triple, in order. */
  function LinkNodes(text: string, links: seq<LinkSpan>): seq<Node>
    requires InBounds(text, links)
  {
    if links == [] then [] else LinkNodes(text, links[..|links| - 1]) + [LinkNode(text, links[|links| - 1])]
  }

  /** The urls of the triples, in order. */
  function Urls(links: seq<LinkSpan>): seq<string> {
    if links == [] then [] else Urls(links[..|links| - 1]) + [links[|links| - 1].url]
  }

  /**
   * The triples a list of sibling nodes encodes: for each link element, where its text starts
   * in the siblings' concatenated text, how long it is, and its url.
   */
  function LinkSpans(ns: seq<Node>): seq<LinkSpan> {
    if ns == [] then []
    else
      var init, last := ns[..|ns| - 1], ns[|ns| - 1];
      LinkSpans(init)
        + (if last.Element? && last.value.Link? then [LinkSpan(|VisibleSeq(init)|, |Visible(last)|, last.value.url)] else [])
  }

  lemma InitLast<T>(s: seq<T>)
    requires s != []
    ensures s == s[..|s| - 1] + [s[|s| - 1]]
  {
  }

  lemma SplitAt<T>(s: seq<T>, k: nat)
    requires k < |s|
    ensures s == s[..k] + [s[k]] + s[k + 1..]
  {
  }

  lemma SliceJoin(s: string, i: nat, j: nat, k: nat)
    requires i <= j <= k <= |s|
    ensures s[i..j] + s[j..k] == s[i..k]
  {
  }

  /** A link node spells out the linked text and carries one link. */
  lemma LinkNodeContent(text: string, l: LinkSpan)
    requires l.End() <= |text|
    ensures Visible(LinkNode(text, l)) == text[l.start..l.End()]
    ensures LinkUrls(LinkNode(text, l)) == [l.url]
  {
    var kids := [Text(text[l.start..l.End()])];
    assert kids[..0] == [];
    assert VisibleSeq(kids) == VisibleSeq(kids[..0]) + Visible(kids[0]);
    assert LinkUrlsSeq(kids) == LinkUrlsSeq(kids[..0]) + LinkUrls(kids[0]);
  }

  /** A gap adds the text between the cursor and `start`, and no link. */
  lemma AppendGap(ns: seq<Node>, text: string, cur: nat, start: nat)
    requires cur <= start <= |text|
    ensures VisibleSeq(ns + Gap(text, cur, start)) == VisibleSeq(ns) + text[cur..start]
    ensures LinkSpans(ns + Gap(text, cur, start)) == LinkSpans(ns)
    ensures LinkElements(ns + Gap(text, cur, start)) == LinkElements(ns)
    ensures LinkUrlsSeq(ns + Gap(text, cur, start)) == LinkUrlsSeq(ns)
  {
    if cur < start {
      var gap := Text(text[cur..start]);
      assert (ns + [gap])[..|ns|] == ns;
    } else {
      assert ns + [] == ns;
    }
  }

  /** A gap the cursor has already passed adds nothing. */
  lemma AppendEmptyGap(ns: seq<Node>, text: string, cur: nat, start: nat)
    requires start <= cur && start <= |text|
    ensures ns + Gap(text, cur, start) == ns
  {
    assert ns + [] == ns;
  }

  /** Appending a link node adds its text. */
  lemma AppendLinkNode(ns: seq<Node>, text: string, l: LinkSpan)
    requires l.End() <= |text|
    ensures VisibleSeq(ns + [LinkNode(text, l)]) == VisibleSeq(ns) + text[l.start..l.End()]
  {
    var x := LinkNode(text, l);
    assert (ns + [x])[..|ns|] == ns;
    LinkNodeContent(text, l);
  }

  /** Appending a link node adds its triple, at the current end of the text. */
  lemma AppendLinkNodeSpan(ns: seq<Node>, text: string, l: LinkSpan)
    requires l.End() <= |text|
    ensures LinkSpans(ns + [LinkNode(text, l)]) == LinkSpans(ns) + [LinkSpan(|VisibleSeq(ns)|, l.length, l.url)]
  {
    var x := LinkNode(text, l);
    assert (ns + [x])[..|ns|] == ns;
    LinkNodeContent(text, l);
  }

  /** Appending a link node adds the node itself and its url. */
  lemma AppendLinkNodeUrls(ns: seq<Node>, text: string, l: LinkSpan)
    requires l.End() <= |text|
    ensures LinkElements(ns + [LinkNode(text, l)]) == LinkElements(ns) + [LinkNode(text, l)]
    ensures LinkUrlsSeq(ns + [LinkNode(text, l)]) == LinkUrlsSeq(ns) + [l.url]
  {
    var x := LinkNode(text, l);
    assert (ns + [x])[..|ns|] == ns;
    LinkNodeContent(text, l);
  }

  /** The segments never hold an empty plain text. */
  lemma {:induction false} SegmentsNoEmptyText(text: string, links: seq<LinkSpan>)
    requires InBounds(text, links)
    ensures forall k :: 0 <= k < |Segments(text, links)| && Segments(text, links)[k].Text? ==>
      Segments(text, links)[k].literal != ""
  {
    if links != [] {
      SegmentsNoEmptyText(text, links[..|links| - 1]);
    }
  }

  /** The link elements of the segments are the link nodes of the triples, one each and in order. */
  lemma {:induction false} SegmentsLinkElements(text: string, links: seq<LinkSpan>)
    requires InBounds(text, links)
    ensures LinkElements(Segments(text, links)) == LinkNodes(text, links)
  {
    if links != [] {
      var init, l := links[..|links| - 1], links[|links| - 1];
      var cur := Cursor(init);
      SegmentsLinkElements(text, init);
      var front := Segments(text, init);
      if cur <= l.start {
        AppendGap(front, text, cur, l.start);
      } else {
        AppendEmptyGap(front, text, cur, l.start);
      }
      AppendLinkNodeUrls(front + Gap(text, cur, l.start), text, l);
    }
  }

  lemma {:induction false} SegmentsUrls(text: string, links: seq<LinkSpan>)
    requires InBounds(text, links)
    ensures LinkUrlsSeq(Segments(text, links)) == Urls(links)
  {
    if links != [] {
      var init, l := links[..|links| - 1], links[|links| - 1];
      var cur := Cursor(init);
      SegmentsUrls(text, init);
      var front := Segments(text, init);
      if cur <= l.start {
        AppendGap(front, text, cur, l.start);
      } else {
        AppendEmptyGap(front, text, cur, l.start);
      }
      AppendLinkNodeUrls(front + Gap(text, cur, l.start), text, l);
    }
  }

  /** For non-overlapping links, the segments spell out the text up to the cursor. */
  lemma {:induction false} SegmentsVisible(text: string, links: seq<LinkSpan>)
    requires InBounds(text, links)
    requires Chained(links)
    ensures Cursor(links) <= |text|
    ensures VisibleSeq(Segments(text, links)) == text[..Cursor(links)]
  {
    if links != [] {
      var init, l := links[..|links| - 1], links[|links| - 1];
      var cur := Cursor(init);
      SegmentsVisible(text, init);
      var front := Segments(text, init);
      AppendGap(front, text, cur, l.start);
      SliceJoin(text, 0, cur, l.start);
      AppendLinkNode(front + Gap(text, cur, l.start), text, l);
      SliceJoin(text, 0, l.start, l.End());
    }
  }

  /** For non-overlapping links, the link elements sit exactly at the triples' positions. */
  lemma {:induction false} SegmentsLinkSpans(text: string, links: seq<LinkSpan>)
    requires InBounds(text, links)
    requires Chained(links)
    ensures LinkSpans(Segments(text, links)) == links
  {
    if links != [] {
      var init, l := links[..|links| - 1], links[|links| - 1];
      var cur := Cursor(init);
      SegmentsLinkSpans(text, init);
      SegmentsVisible(text, init);
      var front := Segments(text, init);
      AppendGap(front, text, cur, l.start);
      SliceJoin(text, 0, cur, l.start);
      var mid := front + Gap(text, cur, l.start);
      assert |VisibleSeq(mid)| == l.start;
      AppendLinkNodeSpan(mid, text, l);
      assert l == LinkSpan(l.start, l.length, l.url);
      InitLast(links);
    }
  }

  /** A splice returns None exactly when there are no links. */
  lemma SplicedNone(text: string, links: seq<LinkSpan>)
    requires InBounds(text, links)
    ensures Spliced(text, links).None? <==> links == []
  {
  }

  /**
   * A splice emits no empty plain-text segment, one link node per triple in sorted order, each
   * with the triple's url, an empty title and the linked text as its only child.
   */
  lemma SplicedShape(text: string, links: seq<LinkSpan>)
    requires InBounds(text, links) && links != []
    ensures var sorted := SortBy(links, LinkLe);
      var v := Spliced(text, links).value;
      && InBounds(text, sorted)
      && (forall k :: 0 <= k < |v| && v[k].Text? ==> v[k].literal != "")
      && LinkElements(v) == LinkNodes(text, sorted)
      && LinkUrlsSeq(v) == Urls(sorted)
  {
    var sorted := SortBy(links, LinkLe);
    SortedInBounds(text, links);
    SegmentsNoEmptyText(text, sorted);
    SegmentsLinkElements(text, sorted);
    SegmentsUrls(text, sorted);
    var segs := Segments(text, sorted);
    AppendGap(segs, text, Cursor(sorted), |text|);
  }

  /**
   * When the sorted links do not overlap, the segments of a splice spell out the text exactly,
   * and their links sit at the triples' positions: splicing is undone by reading the links back.
   */
  lemma SplicedReassembles(text: string, links: seq<LinkSpan>)
    requires InBounds(text, links) && links != []
    requires Chained(SortBy(links, LinkLe))
    ensures VisibleSeq(Spliced(text, links).value) == text
    ensures LinkSpans(Spliced(text, links).value) == SortBy(links, LinkLe)
  {
    var sorted := SortBy(links, LinkLe);
    SortedInBounds(text, links);
    SegmentsVisible(text, sorted);
    SegmentsLinkSpans(text, sorted);
    var segs := Segments(text, sorted);
    var cur := Cursor(sorted);
    AppendGap(segs, text, cur, |text|);
    SliceJoin(text, 0, cur, |text|);
  }

  /** Two links do not overlap. */
  predicate Apart(a: LinkSpan, b: LinkSpan) {
    a.End() <= b.start || b.End() <= a.start
  }

  /** No two links of a collection overlap; a link listed twice overlaps itself unless it is empty. */
  ghost predicate Separated(m: multiset<LinkSpan>) {
    PairwiseM(m, Apart)
  }

  /** Sorting links that pairwise do not overlap leaves each one ending before the next begins. */
  lemma SeparatedSortedChained(links: seq<LinkSpan>)
    requires Separated(multiset(links))
    ensures Chained(SortBy(links, LinkLe))
  {
    var s := SortBy(links, LinkLe);
    LinkLeTotalPreorder();
    SortBySorted(links, LinkLe);
    PairwiseAtMultiset(s, Apart);
    forall i | 0 < i < |s| ensures s[i - 1].End() <= s[i].start {
      SortedApart(s[i - 1], s[i]);
    }
  }

  /** Of two links that do not overlap, the one first in order ends before the other starts. */
  lemma SortedApart(a: LinkSpan, b: LinkSpan)
    requires LinkLe(a, b) && Apart(a, b)
    ensures a.End() <= b.start
  {
  }

  lemma {:induction false} UrlsAppend(a: seq<LinkSpan>, b: seq<LinkSpan>)
    decreases |b|
    ensures Urls(a + b) == Urls(a) + Urls(b)
  {
    if b != [] {
      var init := b[..|b| - 1];
      assert (a + b)[..|a + b| - 1] == a + init;
      UrlsAppend(a, init);
    } else {
      assert a + b == a;
    }
  }

  lemma RemoveAt<T>(t: seq<T>, k: nat)
    requires k < |t|
    ensures multiset(t) == multiset(t[..k] + t[k + 1..]) + multiset{t[k]}
  {
    assert t == t[..k] + [t[k]] + t[k + 1..];
  }

  /** Taking the last element off one of two permutations, and the same element off the other, leaves permutations. */
  lemma PermutationRemove<T>(s: seq<T>, t: seq<T>, k: nat)
    requires multiset(s) == multiset(t)
    requires s != [] && k < |t| && t[k] == s[|s| - 1]
    ensures multiset(s[..|s| - 1]) == multiset(t[..k] + t[k + 1..])
  {
    RemoveAt(t, k);
    RemoveAt(s, |s| - 1);
    assert s[..|s| - 1] + s[|s|..] == s[..|s| - 1];
    var a, b := multiset(s[..|s| - 1]), multiset(t[..k] + t[k + 1..]);
    assert a + multiset{t[k]} == b + multiset{t[k]};
    assert a == b + multiset{t[k]} - multiset{t[k]};
  }

  /** Reordering links reorders their urls: the urls, counted with multiplicity, stay the same. */
  lemma {:induction false} UrlsPermutation(s: seq<LinkSpan>, t: seq<LinkSpan>)
    requires multiset(s) == multiset(t)
    decreases |s|
    ensures multiset(Urls(s)) == multiset(Urls(t))
  {
    if s == [] {
      assert |t| == |multiset(t)| == 0;
    } else {
      var init, x := s[..|s| - 1], s[|s| - 1];
      assert x in multiset(t);
      var k :| 0 <= k < |t| && t[k] == x;
      var rest := t[..k] + t[k + 1..];
      PermutationRemove(s, t, k);
      UrlsPermutation(init, rest);
      UrlsRemove(t, k);
      assert Urls(s) == Urls(init) + [x.url];
    }
  }

  /** Taking one link out of a list takes its url out of the list's urls. */
  lemma UrlsRemove(t: seq<LinkSpan>, k: nat)
    requires k < |t|
    ensures multiset(Urls(t)) == multiset(Urls(t[..k] + t[k + 1..])) + multiset{t[k].url}
  {
    var a, x, b := t[..k], t[k], t[k + 1..];
    SplitAt(t, k);
    UrlsAppend(a + [x], b);
    UrlsAppend(a, [x]);
    UrlsAppend(a, b);
    assert Urls([x]) == [x.url] by {
      assert [x][..0] == [];
    }
    assert Urls(t) == Urls(a) + [x.url] + Urls(b);
    assert Urls(a + b) == Urls(a) + Urls(b);
  }

  /** The helper's answer for every eligible text: the splice of the links chosen for it. */
  function Splices(texts: seq<string>, lists: seq<seq<LinkSpan>>): (replies: seq<Reply>)
    requires |lists| == |texts|
    requires forall i :: 0 <= i < |texts| ==> InBounds(texts[i], lists[i])
    ensures |replies| == |texts|
  {
    seq(|texts|, i requires 0 <= i < |texts| => Spliced(texts[i], lists[i]))
  }

  /** The splice closure applied to each eligible text in turn, collecting its replies. */
  method SpliceAll(texts: seq<string>, lists: seq<seq<LinkSpan>>) returns (replies: seq<Reply>)
    requires |lists| == |texts|
    requires forall i :: 0 <= i < |texts| ==> InBounds(texts[i], lists[i])
    ensures replies == Splices(texts, lists)
  {
    replies := [];
    for i := 0 to |texts|
      invariant replies == Splices(texts[..i], lists[..i])
    {
      var reply := SpliceLinks(texts[i], lists[i]);
      SplicesSnoc(texts, lists, i);
      replies := replies + [reply];
    }
    assert texts[..|texts|] == texts && lists[..|texts|] == lists;
  }

  /** The replies for one more text extend the replies for the texts before it. */
  lemma SplicesSnoc(texts: seq<string>, lists: seq<seq<LinkSpan>>, i: nat)
    requires |lists| == |texts| && i < |texts|
    requires forall k :: 0 <= k < |texts| ==> InBounds(texts[k], lists[k])
    ensures Splices(texts[..i + 1], lists[..i + 1]) == Splices(texts[..i], lists[..i]) + [Spliced(texts[i], lists[i])]
  {
    var a := Splices(texts[..i + 1], lists[..i + 1]);
    assert a[..i] == Splices(texts[..i], lists[..i]);
    assert a == a[..i] + [a[i]];
  }

  /**
   * `add_links`: the splice closure as `alter_text`'s helper, with `lists[i]` the links the
   * caller chose for the i-th text handed over.
   */
  method AddLinks(n: Node, lists: seq<seq<LinkSpan>>) returns (r: Node)
    requires |lists| == |EligibleTexts(n)|
    requires forall i :: 0 <= i < |lists| ==> InBounds(EligibleTexts(n)[i], lists[i])
    ensures r == Rewrite(n, Splices(EligibleTexts(n), lists))
  {
    var replies := SpliceAll(EligibleTexts(n), lists);
    r := AlterText(n, replies);
  }

  /** The urls of every list of links, counted with multiplicity. */
  function ListUrls(lists: seq<seq<LinkSpan>>): multiset<string> {
    if lists == [] then multiset{} else ListUrls(lists[..|lists| - 1]) + multiset(Urls(lists[|lists| - 1]))
  }

  /** The splices bring in exactly the urls of the links, each as often as it was chosen. */
  lemma {:induction false} SplicesUrls(texts: seq<string>, lists: seq<seq<LinkSpan>>)
    requires |lists| == |texts|
    requires forall i :: 0 <= i < |texts| ==> InBounds(texts[i], lists[i])
    decreases |texts|
    ensures ReplyUrls(Splices(texts, lists)) == ListUrls(lists)
  {
    if texts != [] {
      var k := |texts| - 1;
      var replies := Splices(texts, lists);
      assert replies[..k] == Splices(texts[..k], lists[..k]);
      SplicesUrls(texts[..k], lists[..k]);
      if lists[k] != [] {
        SplicedShape(texts[k], lists[k]);
        UrlsPermutation(SortBy(lists[k], LinkLe), lists[k]);
      }
    }
  }

  /**
   * Adding links whose triples do not overlap, text by text, leaves the document's text as it
   * was; the tree keeps every link it had and gains exactly the chosen ones.
   */
  lemma AddLinksSound(n: Node, lists: seq<seq<LinkSpan>>)
    requires |lists| == |EligibleTexts(n)|
    requires forall i :: 0 <= i < |lists| ==> InBounds(EligibleTexts(n)[i], lists[i])
    requires forall i :: 0 <= i < |lists| ==> Separated(multiset(lists[i]))
    ensures Visible(Rewrite(n, Splices(EligibleTexts(n), lists))) == Visible(n)
    ensures multiset(LinkUrls(Rewrite(n, Splices(EligibleTexts(n), lists)))) == multiset(LinkUrls(n)) + ListUrls(lists)
  {
    var texts := EligibleTexts(n);
    var replies := Splices(texts, lists);
    forall i | 0 <= i < |replies| && replies[i].Some?
      ensures VisibleSeq(replies[i].value) == texts[i]
    {
      SeparatedSortedChained(lists[i]);
      SplicedReassembles(texts[i], lists[i]);
    }
    RewriteVisible(n, replies);
    RewriteLinkUrls(n, replies);
    SplicesUrls(texts, lists);
  }
}
