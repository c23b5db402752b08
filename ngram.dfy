/**
 * Whitespace tokenization with offsets (`positioned(text, text.split_whitespace())`) and the
 * sliding n-gram window over a sequence.
 */
module Ngram {
  import opened Wrappers
  import opened Strings

  /** A whitespace-separated word of a text and the offset of its first character. */
  datatype Token = Token(offset: nat, word: string) {
    function End(): nat { offset + |word| }
  }

  /** The end of the word that starts at `i`: the next whitespace, or the end of the text. */
  function WordEnd(text: string, i: nat): (j: nat)
    requires i <= |text|
    decreases |text| - i
    ensures i <= j <= |text|
    ensures forall k :: i <= k < j ==> !IsSpace(text[k])
    ensures j == |text| || IsSpace(text[j])
  {
    if i == |text| || IsSpace(text[i]) then i else WordEnd(text, i + 1)
  }

  /** The words of `text[i..]`, each with its offset in `text`. */
  function PositionedFrom(text: string, i: nat): (toks: seq<Token>)
    requires i <= |text|
    decreases |text| - i
    ensures forall t :: t in toks ==> i <= t.offset && t.End() <= |text| && text[t.offset..t.End()] == t.word
  {
    if i == |text| then []
    else if IsSpace(text[i]) then PositionedFrom(text, i + 1)
    else
      var j := WordEnd(text, i);
      [Token(i, text[i..j])] + PositionedFrom(text, j)
  }

  /**
   * `positioned(text, text.split_whitespace())`: maximal words of the text at their offsets,
   * in increasing order.
   */
  function Positioned(text: string): (toks: seq<Token>)
    ensures forall t :: t in toks ==> WordAt(text, t, 0)
    ensures Increasing(toks)
  {
    PositionedSound(text, 0);
    PositionedFrom(text, 0)
  }

  /** A word of `text` at its offset: non-empty, free of whitespace, bounded by whitespace or the ends. */
  ghost predicate WordAt(text: string, t: Token, from: nat) {
    && from <= t.offset
    && t.End() <= |text|
    && text[t.offset..t.End()] == t.word
    && t.word != []
    && (forall c :: c in t.word ==> !IsSpace(c))
    && (t.offset == from || IsSpace(text[t.offset - 1]))
    && (t.End() == |text| || IsSpace(text[t.End()]))
  }

  /** Each token ends, and at least one whitespace character passes, before the next one starts. */
  ghost predicate Increasing(toks: seq<Token>) {
    forall i, j :: 0 <= i < j < |toks| ==> toks[i].End() < toks[j].offset
  }

  /** Tokens are non-empty, lie inside `[0, bound)` and are in increasing order. */
  ghost predicate WellFormed(toks: seq<Token>, bound: nat) {
    && Increasing(toks)
    && forall t :: t in toks ==> t.word != [] && t.End() <= bound
  }

  /** Every token of `text[from..]` is a maximal word at its offset, and the offsets strictly increase. */
  lemma {:induction false} PositionedSound(text: string, from: nat)
    requires from <= |text|
    decreases |text| - from
    ensures forall t :: t in PositionedFrom(text, from) ==> WordAt(text, t, from)
    ensures Increasing(PositionedFrom(text, from))
  {
    if from < |text| {
      if IsSpace(text[from]) {
        PositionedSound(text, from + 1);
      } else {
        var j := WordEnd(text, from);
        var rest := PositionedFrom(text, j);
        PositionedSound(text, j);
        forall t | t in rest ensures j < t.offset {
          assert text[t.offset] == t.word[0];
        }
      }
    }
  }

  /** Every non-whitespace character of `text[from..]` lies inside some token. */
  lemma {:induction false} PositionedComplete(text: string, from: nat, k: nat)
    requires from <= k < |text|
    requires !IsSpace(text[k])
    decreases |text| - from
    ensures exists t :: t in PositionedFrom(text, from) && t.offset <= k < t.End()
  {
    if IsSpace(text[from]) {
      PositionedComplete(text, from + 1, k);
    } else {
      var j := WordEnd(text, from);
      if k < j {
        assert Token(from, text[from..j]) in PositionedFrom(text, from);
      } else {
        PositionedComplete(text, j, k);
      }
    }
  }

  /** A text has no tokens exactly when it is all whitespace (the empty text included). */
  lemma PositionedEmpty(text: string)
    ensures Positioned(text) == [] <==> forall k :: 0 <= k < |text| ==> IsSpace(text[k])
  {
    if Positioned(text) == [] {
      forall k | 0 <= k < |text| ensures IsSpace(text[k]) {
        if !IsSpace(text[k]) {
          PositionedComplete(text, 0, k);
        }
      }
    } else {
      PositionedSound(text, 0);
      var t := Positioned(text)[0];
      assert WordAt(text, t, 0);
      assert !IsSpace(text[t.offset]) by { assert text[t.offset] == t.word[0]; }
    }
  }

  /** The tokens of a text are well formed and lie inside it. */
  lemma PositionedWellFormed(text: string)
    ensures WellFormed(Positioned(text), |text|)
  {
    PositionedSound(text, 0);
  }

  /** The windows of size `n` as a sliding recursion: the first `n` items, then the windows of the rest. */
  function Windows<T>(items: seq<T>, n: nat): seq<seq<T>>
    requires n >= 1
  {
    if |items| < n then [] else [items[..n]] + Windows(items[1..], n)
  }

  /** There are `|items| - n + 1` windows (none when `|items| < n`), and window `i` is `items[i..i+n]`. */
  lemma {:induction false} WindowsAt<T>(items: seq<T>, n: nat)
    requires n >= 1
    ensures |Windows(items, n)| == if |items| < n then 0 else |items| - n + 1
    ensures forall i :: 0 <= i < |Windows(items, n)| ==> Windows(items, n)[i] == items[i..i + n]
  {
    if |items| >= n {
      WindowsAt(items[1..], n);
      forall i | 1 <= i < |Windows(items, n)|
        ensures Windows(items, n)[i] == items[i..i + n]
      {
        assert Windows(items, n)[i] == Windows(items[1..], n)[i - 1];
        assert items[1..][i - 1..i - 1 + n] == items[i..i + n];
      }
    }
  }

  datatype NgramError = InvalidLength(n: nat)

  /** `ngram`: panics ("invalid length: 0") for `n == 0`; otherwise every window of `n` consecutive items. */
  method Ngram<T>(items: seq<T>, n: nat) returns (r: Result<seq<seq<T>>, NgramError>)
    ensures n == 0 <==> r.Failure?
    ensures r.Failure? ==> r.error == InvalidLength(0)
    ensures r.Success? ==> r.value == Windows(items, n)
  {
    if n == 0 {
      return Failure(InvalidLength(n));
    }
    // Fill the buffer with the first n - 1 items, or with all of them if there are fewer.
    var buf: seq<T> := [];
    var i := 0;
    while |buf| < n - 1 && i < |items|
      invariant 0 <= i <= |items| && i <= n - 1
      invariant buf == items[..i]
    {
      buf := buf + [items[i]];
      i := i + 1;
    }
    // Each further item enters at the back and the front is dropped until n remain.
    var windows: seq<seq<T>> := [];
    while i < |items|
      invariant 0 <= i <= |items|
      invariant |items| >= n - 1 ==> i >= n - 1
      invariant |items| < n - 1 ==> i == |items|
      invariant i >= n - 1 ==> |buf| == (if i == n - 1 then n - 1 else n) && buf == items[i - |buf|..i]
      invariant |windows| == (if i >= n - 1 then i - (n - 1) else 0)
      invariant forall k :: 0 <= k < |windows| ==> windows[k] == items[k..k + n]
    {
      ghost var before := buf;
      buf := Slide(buf, items[i], n);
      SlideWindow(items, i, n, before, buf);
      windows := windows + [buf];
      i := i + 1;
    }
    WindowsAt(items, n);
    return Success(windows);
  }

  /** One step of the window: `v` enters at the back, then the front is dropped until at most `n` remain. */
  method Slide<T>(buf: seq<T>, v: T, n: nat) returns (r: seq<T>)
    requires n >= 1
    ensures |r| == if |buf| + 1 > n then n else |buf| + 1
    ensures r == (buf + [v])[|buf| + 1 - |r|..]
  {
    r := buf + [v];
    while |r| > n
      invariant |r| <= |buf| + 1
      invariant |r| >= n || |r| == |buf| + 1
      invariant r == (buf + [v])[|buf| + 1 - |r|..]
    {
      r := r[1..];
    }
  }

  /** After the slide at item `i`, the buffer holds the window that ends with item `i`. */
  lemma SlideWindow<T>(items: seq<T>, i: nat, n: nat, before: seq<T>, after: seq<T>)
    requires 1 <= n && n - 1 <= i < |items|
    requires |before| == (if i == n - 1 then n - 1 else n) && before == items[i - |before|..i]
    requires |after| == n && after == (before + [items[i]])[|before| + 1 - n..]
    ensures after == items[i + 1 - n..i + 1]
  {
    assert before + [items[i]] == items[i - |before|..i + 1];
  }
}
