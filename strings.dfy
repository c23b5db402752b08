/**
 * The pieces of Rust's `str` API that the auto-linker relies on: `char::is_whitespace`,
 * `to_lowercase` (ASCII letters only), `trim_start`, `trim`, `itertools::join`, the
 * byte-wise ordering of `String`, and substring search as used by `split_once`.
 */
module Strings {
  import opened Wrappers

  /** `char::is_whitespace`: the Unicode White_Space property. */
  predicate IsSpace(c: char) {
    || ('\t' <= c <= '\r')
    || c == ' '
    || c == '\U{0085}'
    || c == '\U{00A0}'
    || c == '\U{1680}'
    || ('\U{2000}' <= c <= '\U{200A}')
    || c == '\U{2028}'
    || c == '\U{2029}'
    || c == '\U{202F}'
    || c == '\U{205F}'
    || c == '\U{3000}'
  }

  /** Lower-casing of one character, restricted to the ASCII letters. */
  function LowerChar(c: char): (r: char)
    ensures 'A' <= c <= 'Z' ==> 'a' <= r <= 'z' && r as int == c as int + 32
    ensures !('A' <= c <= 'Z') ==> r == c
  {
    if 'A' <= c <= 'Z' then (c as int + 32) as char else c
  }

  /** `str::to_lowercase` on ASCII letters: no capital letter is left, and nothing else changes. */
  function Lower(s: string): (r: string)
    ensures |r| == |s|
    ensures forall c :: c in r ==> !('A' <= c <= 'Z')
    ensures forall i :: 0 <= i < |s| && !('A' <= s[i] <= 'Z') ==> r[i] == s[i]
    ensures forall i :: 0 <= i < |s| && 'A' <= s[i] <= 'Z' ==> r[i] as int == s[i] as int + 32
  {
    seq(|s|, i requires 0 <= i < |s| => LowerChar(s[i]))
  }

  /** `str::trim_start`: drops the leading whitespace and nothing else. */
  function TrimStart(s: string): (r: string)
    ensures |r| <= |s| && r == s[|s| - |r|..]
    ensures forall i :: 0 <= i < |s| - |r| ==> IsSpace(s[i])
    ensures r == [] || !IsSpace(r[0])
  {
    if s != [] && IsSpace(s[0]) then TrimStart(s[1..]) else s
  }

  /** The ASCII whitespace `split_whitespace` separates words on, and a letter that it does not. */
  lemma AsciiSpace()
    ensures IsSpace(' ') && IsSpace('\t') && IsSpace('\n') && IsSpace('\r') && IsSpace('\U{000C}')
    ensures !IsSpace('a') && !IsSpace('-')
  {
  }

  /** A string that does not start with whitespace is its own `trim_start`. */
  lemma TrimStartNoSpace(s: string)
    requires s != [] && !IsSpace(s[0])
    ensures TrimStart(s) == s
  {
  }

  /** `str::trim_end`: drops the trailing whitespace and nothing else. */
  function TrimEnd(s: string): (r: string)
    ensures |r| <= |s| && r == s[..|r|]
    ensures forall i :: |r| <= i < |s| ==> IsSpace(s[i])
    ensures r == [] || !IsSpace(r[|r| - 1])
  {
    if s != [] && IsSpace(s[|s| - 1]) then TrimEnd(s[..|s| - 1]) else s
  }

  /**
   * `r` is `s` without its leading and trailing whitespace: the slice of `s` after its first
   * `lead` characters, with only whitespace before and after it, neither starting nor ending
   * with whitespace.
   */
  ghost predicate Trimmed(s: string, lead: nat, r: string) {
    && lead + |r| <= |s| && r == s[lead..lead + |r|]
    && (forall k :: 0 <= k < lead ==> IsSpace(s[k]))
    && (forall k :: lead + |r| <= k < |s| ==> IsSpace(s[k]))
    && (r == [] || (!IsSpace(r[0]) && !IsSpace(r[|r| - 1])))
  }

  /** `str::trim`: `s` without the whitespace it starts with and the whitespace it ends with. */
  function Trim(s: string): (r: string)
    ensures Trimmed(s, |s| - |TrimStart(s)|, r)
  {
    TrimSlice(s);
    TrimEnd(TrimStart(s))
  }

  /** `trim_end` after `trim_start` leaves a slice of the input with only whitespace around it. */
  lemma TrimSlice(s: string)
    ensures Trimmed(s, |s| - |TrimStart(s)|, TrimEnd(TrimStart(s)))
  {
    TrimmedOf(s, TrimStart(s), TrimEnd(TrimStart(s)));
  }

  /** The trailing trim of the leading trim: what each guarantees, put together. */
  lemma TrimmedOf(s: string, t: string, r: string)
    requires |t| <= |s| && t == s[|s| - |t|..] && (t == [] || !IsSpace(t[0]))
    requires forall k :: 0 <= k < |s| - |t| ==> IsSpace(s[k])
    requires |r| <= |t| && r == t[..|r|] && (r == [] || !IsSpace(r[|r| - 1]))
    requires forall k :: |r| <= k < |t| ==> IsSpace(t[k])
    ensures Trimmed(s, |s| - |t|, r)
  {
    var i := |s| - |t|;
    forall k | i + |r| <= k < |s| ensures IsSpace(s[k]) {
      assert s[k] == t[k - i];
    }
    if r != [] {
      assert r[0] == t[0];
    }
  }

  /** The number of characters of all the parts together. */
  function TotalLength(parts: seq<string>): nat {
    if parts == [] then 0 else |parts[0]| + TotalLength(parts[1..])
  }

  /**
   * `itertools::join`: the parts with one separator between neighbours. It starts with the
   * first part and holds every character of the parts plus one separator per neighbouring pair.
   */
  function Join(parts: seq<string>, sep: string): (r: string)
    ensures |r| == TotalLength(parts) + (if parts == [] then 0 else (|parts| - 1) * |sep|)
    ensures parts != [] ==> r[..|parts[0]|] == parts[0]
  {
    if |parts| == 0 then ""
    else if |parts| == 1 then parts[0]
    else parts[0] + sep + Join(parts[1..], sep)
  }

  /** Where part `k` starts in `Join(parts, sep)`: after each part before it and its separator. */
  function JoinOffset(parts: seq<string>, sep: string, k: nat): nat
    requires k <= |parts|
  {
    if k == 0 then 0 else |parts[0]| + |sep| + JoinOffset(parts[1..], sep, k - 1)
  }

  /** That offset is the length of the parts before `k` plus `k` separators. */
  lemma {:induction false} JoinOffsetLength(parts: seq<string>, sep: string, k: nat)
    requires k <= |parts|
    ensures JoinOffset(parts, sep, k) == TotalLength(parts[..k]) + k * |sep|
  {
    if k > 0 {
      JoinOffsetLength(parts[1..], sep, k - 1);
      assert parts[..k][1..] == parts[1..][..k - 1];
    } else {
      assert parts[..k] == [];
    }
  }

  /**
   * The contents of a join: part `k` sits at `JoinOffset(parts, sep, k)`, a separator fills the
   * gap up to the next part, and the last part ends the string.
   */
  lemma JoinParts(parts: seq<string>, sep: string, k: nat)
    requires k < |parts|
    ensures JoinOffset(parts, sep, k) + |parts[k]| <= |Join(parts, sep)|
    ensures Join(parts, sep)[JoinOffset(parts, sep, k)..JoinOffset(parts, sep, k) + |parts[k]|] == parts[k]
    ensures k + 1 < |parts| ==>
      && JoinOffset(parts, sep, k) + |parts[k]| + |sep| == JoinOffset(parts, sep, k + 1) <= |Join(parts, sep)|
      && Join(parts, sep)[JoinOffset(parts, sep, k) + |parts[k]|..JoinOffset(parts, sep, k + 1)] == sep
    ensures k + 1 == |parts| ==> JoinOffset(parts, sep, k) + |parts[k]| == |Join(parts, sep)|
  {
    JoinPartAt(parts, sep, k);
    if k + 1 < |parts| {
      JoinSepAt(parts, sep, k);
    } else {
      JoinLastEnds(parts, sep);
    }
  }

  /** Part `k` of a join is found at its offset. */
  lemma {:induction false} JoinPartAt(parts: seq<string>, sep: string, k: nat)
    requires k < |parts|
    decreases k
    ensures JoinOffset(parts, sep, k) + |parts[k]| <= |Join(parts, sep)|
    ensures Join(parts, sep)[JoinOffset(parts, sep, k)..JoinOffset(parts, sep, k) + |parts[k]|] == parts[k]
  {
    if |parts| > 1 {
      var tail := parts[1..];
      var rest := Join(tail, sep);
      JoinCons(parts, sep);
      if k == 0 {
        JoinHead(parts[0], sep, rest);
      } else {
        JoinPartAt(tail, sep, k - 1);
        assert tail[k - 1] == parts[k];
        PartShift(parts[0], sep, rest, Join(parts, sep), parts[k], JoinOffset(tail, sep, k - 1));
      }
    }
  }

  /** The gap after part `k` of a join, up to part `k + 1`, is one separator. */
  lemma {:induction false} JoinSepAt(parts: seq<string>, sep: string, k: nat)
    requires k + 1 < |parts|
    decreases k
    ensures JoinOffset(parts, sep, k) + |parts[k]| + |sep| == JoinOffset(parts, sep, k + 1) <= |Join(parts, sep)|
    ensures Join(parts, sep)[JoinOffset(parts, sep, k) + |parts[k]|..JoinOffset(parts, sep, k + 1)] == sep
  {
    var tail := parts[1..];
    var rest := Join(tail, sep);
    JoinCons(parts, sep);
    if k == 0 {
      assert JoinOffset(parts, sep, 1) == |parts[0]| + |sep|;
      JoinHead(parts[0], sep, rest);
    } else {
      JoinSepAt(tail, sep, k - 1);
      assert tail[k - 1] == parts[k];
      SepShift(parts[0], sep, rest, Join(parts, sep), JoinOffset(tail, sep, k - 1) + |parts[k]|, JoinOffset(tail, sep, k));
    }
  }

  /** A join of two or more parts is the first part, a separator and the join of the rest. */
  lemma JoinCons(parts: seq<string>, sep: string)
    requires |parts| > 1
    ensures Join(parts, sep) == parts[0] + sep + Join(parts[1..], sep)
  {
  }

  /** A separator inside `rest` is found `|p0| + |sep|` further on in `r == p0 + sep + rest`. */
  lemma SepShift(p0: string, sep: string, rest: string, r: string, i: nat, j: nat)
    requires r == p0 + sep + rest
    requires i + |sep| == j <= |rest| && rest[i..j] == sep
    ensures |p0| + |sep| + j <= |r| && r[|p0| + |sep| + i..|p0| + |sep| + j] == sep
  {
    assert r[|p0| + |sep| + i..|p0| + |sep| + j] == rest[i..j];
  }

  /** The last part of a join ends it. */
  lemma {:induction false} JoinLastEnds(parts: seq<string>, sep: string)
    requires parts != []
    decreases |parts|
    ensures JoinOffset(parts, sep, |parts| - 1) + |parts[|parts| - 1]| == |Join(parts, sep)|
  {
    if |parts| > 1 {
      var tail := parts[1..];
      JoinLastEnds(tail, sep);
      assert Join(parts, sep) == parts[0] + sep + Join(tail, sep);
      assert tail[|tail| - 1] == parts[|parts| - 1];
    }
  }

  /** The first part and the separator after it open `p0 + sep + rest`. */
  lemma JoinHead(p0: string, sep: string, rest: string)
    ensures (p0 + sep + rest)[..|p0|] == p0 && (p0 + sep + rest)[|p0|..|p0| + |sep|] == sep
  {
  }

  /** A part inside `rest` is found `|p0| + |sep|` further on in `r == p0 + sep + rest`. */
  lemma PartShift(p0: string, sep: string, rest: string, r: string, part: string, i: nat)
    requires r == p0 + sep + rest
    requires i + |part| <= |rest| && rest[i..i + |part|] == part
    ensures |p0| + |sep| + i + |part| <= |r| && r[|p0| + |sep| + i..|p0| + |sep| + i + |part|] == part
  {
    assert r[|p0| + |sep| + i..|p0| + |sep| + i + |part|] == rest[i..i + |part|];
  }

  /** The ordering of `String`: lexicographic, a proper prefix comes first. */
  predicate StrLe(a: string, b: string) {
    |a| == 0 || (|b| > 0 && (a[0] < b[0] || (a[0] == b[0] && StrLe(a[1..], b[1..]))))
  }

  lemma {:induction false} StrLeTotal(a: string, b: string)
    ensures StrLe(a, b) || StrLe(b, a)
  {
    if |a| > 0 && |b| > 0 && a[0] == b[0] {
      StrLeTotal(a[1..], b[1..]);
    }
  }

  lemma {:induction false} StrLeTransitive(a: string, b: string, c: string)
    requires StrLe(a, b) && StrLe(b, c)
    ensures StrLe(a, c)
  {
    if |a| > 0 && a[0] == b[0] && b[0] == c[0] {
      StrLeTransitive(a[1..], b[1..], c[1..]);
    }
  }

  lemma {:induction false} StrLeAntisymmetric(a: string, b: string)
    requires StrLe(a, b) && StrLe(b, a)
    ensures a == b
  {
    if |a| > 0 {
      StrLeAntisymmetric(a[1..], b[1..]);
      assert a == [a[0]] + a[1..] && b == [b[0]] + b[1..];
    }
  }

  predicate OccursAt(s: string, pat: string, k: nat) {
    k + |pat| <= |s| && s[k..k + |pat|] == pat
  }

  /** The first position at or after `k` where `pat` occurs in `s`. */
  function FindFrom(s: string, pat: string, k: nat): (r: Option<nat>)
    requires k <= |s|
    decreases |s| - k
    ensures r.Some? ==> k <= r.value && OccursAt(s, pat, r.value)
    ensures r.Some? ==> forall j :: k <= j < r.value ==> !OccursAt(s, pat, j)
    ensures r.None? ==> forall j :: k <= j <= |s| ==> !OccursAt(s, pat, j)
  {
    if OccursAt(s, pat, k) then Some(k)
    else if k == |s| then None
    else FindFrom(s, pat, k + 1)
  }
}
