/**
 * `split_front_matter`: after leading whitespace, a document opens with `---`; the front
 * matter runs up to the first `\n---\n`, and the markdown body follows it.
 */
module FrontMatter {
  import opened Wrappers
  import opened Strings

  const Open: string := "---"
  const Close: string := "\n---\n"

  /** `s` holds no `Close` that starts before position `k`. */
  ghost predicate NoCloseBefore(s: string, k: nat) {
    forall j :: 0 <= j < k ==> !OccursAt(s, Close, j)
  }

  /** The outcome of the function as written, where `split_at(3)` can panic. */
  datatype Split = Panicked | NoFrontMatter | Parts(frontMatter: string, body: string)

  /**
   * `split_front_matter` as written: `split_at("---".len())` panics when the trimmed input is
   * shorter than three bytes (for ASCII input: three characters), before the pattern
   * `("---", next)` is ever tested. Strings here are sequences of characters, so a byte 3 that
   * falls inside a multi-byte character, which panics too, is not modelled.
   */
  function SplitFrontMatterAsWritten(input: string): (r: Split)
    ensures r == Panicked <==> |TrimStart(input)| < |Open|
    ensures r.Parts? ==> TrimStart(input) == Open + r.frontMatter + Close + r.body
  {
    var trimmed := TrimStart(input);
    if |trimmed| < |Open| then Panicked
    else if trimmed[..|Open|] != Open then NoFrontMatter
    else
      var next := trimmed[|Open|..];
      match FindFrom(next, Close, 0)
      case None => NoFrontMatter
      case Some(k) =>
        Reassemble(trimmed, k);
        Parts(next[..k], next[k + |Close|..])
  }

  /** An opened input with a `\n---\n` at `k` after the opening is the opening, `k` characters, the close and the rest. */
  lemma Reassemble(trimmed: string, k: nat)
    requires |Open| <= |trimmed| && trimmed[..|Open|] == Open
    requires OccursAt(trimmed[|Open|..], Close, k)
    ensures var next := trimmed[|Open|..];
      trimmed == Open + next[..k] + Close + next[k + |Close|..]
  {
    var next := trimmed[|Open|..];
    assert next == next[..k] + next[k..k + |Close|] + next[k + |Close|..];
    assert trimmed == trimmed[..|Open|] + next;
  }

  /** An empty document (an empty markdown file) makes the function as written panic. */
  lemma EmptyInputPanics()
    ensures SplitFrontMatterAsWritten("") == Panicked
  {
  }

  /**
   * `split_front_matter` with a short input treated as having no front matter, as every other
   * input without the opening `---` is.
   */
  function SplitFrontMatter(input: string): (r: Option<(string, string)>)
    ensures r.Some? ==> TrimStart(input) == Open + r.value.0 + Close + r.value.1
    ensures r.Some? ==> NoCloseBefore(r.value.0 + Close + r.value.1, |r.value.0|)
  {
    var trimmed := TrimStart(input);
    if SplitOpened(trimmed).Some? then
      SplitOpenedSound(trimmed);
      SplitOpened(trimmed)
    else
      None
  }

  /** The split of an already trimmed input. */
  function SplitOpened(trimmed: string): Option<(string, string)> {
    if |trimmed| < |Open| || trimmed[..|Open|] != Open then None
    else
      var next := trimmed[|Open|..];
      match FindFrom(next, Close, 0)
      case None => None
      case Some(k) => Some((next[..k], next[k + |Close|..]))
  }

  /**
   * The corrected split returns None exactly where the function as written panics, and agrees
   * with it everywhere else.
   */
  lemma SplitFrontMatterAgrees(input: string)
    ensures SplitFrontMatterAsWritten(input) == Panicked ==> SplitFrontMatter(input).None?
    ensures SplitFrontMatterAsWritten(input) == NoFrontMatter ==> SplitFrontMatter(input).None?
    ensures SplitFrontMatterAsWritten(input).Parts? <==> SplitFrontMatter(input).Some?
    ensures SplitFrontMatter(input).Some? ==>
      SplitFrontMatterAsWritten(input) == Parts(SplitFrontMatter(input).value.0, SplitFrontMatter(input).value.1)
  {
  }

  /** The search finds the first `\n---\n`. */
  lemma FindFirstClose(s: string, k: nat)
    requires OccursAt(s, Close, k)
    requires NoCloseBefore(s, k)
    ensures FindFrom(s, Close, 0) == Some(k)
  {
  }

  /** A successful split reassembles its input, and its `\n---\n` is the first one. */
  lemma {:induction false} SplitOpenedSound(trimmed: string)
    requires SplitOpened(trimmed).Some?
    ensures var (fm, body) := SplitOpened(trimmed).value;
      trimmed == Open + fm + Close + body && NoCloseBefore(fm + Close + body, |fm|)
  {
    var next := trimmed[|Open|..];
    var k := FindFrom(next, Close, 0).value;
    var fm, body := next[..k], next[k + |Close|..];
    assert next == fm + Close + body by {
      assert next == next[..k] + next[k..k + |Close|] + next[k + |Close|..];
    }
    assert trimmed == trimmed[..|Open|] + next;
  }

  /** Conversely, an input of that shape splits into exactly that front matter and body. */
  lemma {:induction false} SplitOpenedComplete(fm: string, body: string)
    requires NoCloseBefore(fm + Close + body, |fm|)
    ensures SplitOpened(Open + fm + Close + body) == Some((fm, body))
  {
    var trimmed := Open + fm + Close + body;
    var next := fm + Close + body;
    assert trimmed[..|Open|] == Open && trimmed[|Open|..] == next;
    assert next[|fm|..|fm| + |Close|] == Close;
    FindFirstClose(next, |fm|);
    assert next[..|fm|] == fm && next[|fm| + |Close|..] == body;
  }

  /**
   * A split succeeds with `(fm, body)` exactly when the trimmed input is
   * `"---" + fm + "\n---\n" + body` and that `\n---\n` is the first one after the opening.
   */
  lemma SplitFrontMatterIff(input: string, fm: string, body: string)
    ensures SplitFrontMatter(input) == Some((fm, body)) <==>
      TrimStart(input) == Open + fm + Close + body && NoCloseBefore(fm + Close + body, |fm|)
  {
    var trimmed := TrimStart(input);
    if SplitOpened(trimmed) == Some((fm, body)) {
      SplitOpenedSound(trimmed);
    }
    if trimmed == Open + fm + Close + body && NoCloseBefore(fm + Close + body, |fm|) {
      SplitOpenedComplete(fm, body);
    }
  }

  /** No `\n---\n` starts inside the front matter, so a line such as `---duplicate` does not close it. */
  lemma SplitAtFirstClose(input: string)
    requires SplitFrontMatter(input).Some?
    ensures var (fm, _) := SplitFrontMatter(input).value;
      forall j :: 0 <= j < |fm| ==> !OccursAt(fm, Close, j)
  {
    var (fm, body) := SplitFrontMatter(input).value;
    NoCloseInside(fm, body);
  }

  /** A `\n---\n` inside `fm` would also be one inside `fm + Close + body`, before `|fm|`. */
  lemma NoCloseInside(fm: string, body: string)
    requires NoCloseBefore(fm + Close + body, |fm|)
    ensures forall j :: 0 <= j < |fm| ==> !OccursAt(fm, Close, j)
  {
    forall j | 0 <= j < |fm| ensures !OccursAt(fm, Close, j) {
      if OccursAt(fm, Close, j) {
        assert (fm + Close + body)[j..j + |Close|] == fm[j..j + |Close|];
        assert OccursAt(fm + Close + body, Close, j);
      }
    }
  }

  /** A document that opens with `---\n---\n` has empty front matter. */
  lemma EmptyFrontMatter(body: string)
    ensures SplitFrontMatter("---\n---\n" + body) == Some(("", body))
  {
    var input := "---\n---\n" + body;
    assert input == Open + "" + Close + body;
    TrimStartNoSpace(input);
    SplitOpenedComplete("", body);
  }

  /** The framing `update_content` writes: `---\n<trimmed front matter>\n---\n<body>`. */
  function Frame(frontMatter: string, body: string): string {
    Open + "\n" + Trim(frontMatter) + Close + body
  }

  /**
   * Splitting a framed document gives back the body and the trimmed front matter behind a line
   * break, unless the trimmed front matter itself holds an earlier `\n---\n`.
   */
  lemma FrameSplits(frontMatter: string, body: string)
    requires NoCloseBefore("\n" + Trim(frontMatter) + Close + body, |Trim(frontMatter)| + 1)
    ensures SplitFrontMatter(Frame(frontMatter, body)) == Some(("\n" + Trim(frontMatter), body))
  {
    var fm := "\n" + Trim(frontMatter);
    var framed := Frame(frontMatter, body);
    assert framed == Open + fm + Close + body;
    TrimStartNoSpace(framed);
    SplitOpenedComplete(fm, body);
  }
}
