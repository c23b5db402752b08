/**
 * The keyword index: an append-only multimap from a lower-cased phrase to the set of slugs
 * of the documents that declare it.
 */
module Keyword {
  import opened Wrappers
  import opened Strings

  /** The set of slugs already recorded for `k`, empty when `k` is absent. */
  function Owners(m: map<string, set<string>>, k: string): set<string> {
    if k in m then m[k] else {}
  }

  /** One step of `insert`: `slug` joins the owners of key `k`, creating the entry if needed. */
  function AddOwner(m: map<string, set<string>>, k: string, slug: string): map<string, set<string>> {
    m[k := Owners(m, k) + {slug}]
  }

  /** The keys `insert` touches: every keyword, lower-cased. */
  function LoweredKeys(keywords: seq<string>): set<string> {
    set k | k in keywords :: Lower(k)
  }

  /** The index after inserting (already trimmed) `slug` for each keyword in turn. */
  function Inserted(m: map<string, set<string>>, slug: string, keywords: seq<string>): map<string, set<string>>
    decreases keywords
  {
    if keywords == [] then m
    else Inserted(AddOwner(m, Lower(keywords[0]), slug), slug, keywords[1..])
  }

  ghost predicate NoEmptyEntry(m: map<string, set<string>>) {
    forall k :: k in m ==> m[k] != {}
  }

  class Keywords {
    var entries: map<string, set<string>>

    /** Every key is created together with a slug, so no key maps to an empty set. */
    ghost predicate Valid()
      reads this
    {
      NoEmptyEntry(entries)
    }

    /** `Keywords::new`: the empty index. */
    constructor ()
      ensures Valid()
      ensures entries == map[]
    {
      entries := map[];
    }

    /** `Keywords::insert`: records the trimmed `slug` as an owner of every lower-cased keyword. */
    method Insert(slug: string, keywords: seq<string>)
      requires Valid()
      modifies this
      ensures Valid()
      ensures entries == Inserted(old(entries), Trim(slug), keywords)
    {
      var owner := Trim(slug);
      var i := 0;
      while i < |keywords|
        invariant 0 <= i <= |keywords|
        invariant Valid()
        invariant Inserted(entries, owner, keywords[i..]) == Inserted(old(entries), owner, keywords)
      {
        var keyword := Lower(keywords[i]);
        var slugs := if keyword in entries then entries[keyword] else {};
        entries := entries[keyword := slugs + {owner}];
        assert keywords[i..][1..] == keywords[i + 1..];
        i := i + 1;
      }
    }

    /** `Keywords::get`: exact-match, read-only lookup of an already lower-cased phrase. */
    function Get(keyword: string): (r: Option<set<string>>)
      reads this
      requires Valid()
      ensures r.Some? <==> keyword in entries
      ensures r.Some? ==> r.value == entries[keyword] && r.value != {}
    {
      if keyword in entries then Some(entries[keyword]) else None
    }
  }

  /** What `insert` does to each key: lower-cased keywords gain `slug`, every other key is untouched. */
  lemma InsertedEntries(m: map<string, set<string>>, slug: string, keywords: seq<string>)
    ensures forall k :: k in Inserted(m, slug, keywords) <==> k in m || k in LoweredKeys(keywords)
    ensures forall k :: k in LoweredKeys(keywords) ==> Inserted(m, slug, keywords)[k] == Owners(m, k) + {slug}
    ensures forall k :: k in m && k !in LoweredKeys(keywords) ==> Inserted(m, slug, keywords)[k] == m[k]
  {
    InsertedKeys(m, slug, keywords);
    InsertedTouched(m, slug, keywords);
    InsertedUntouched(m, slug, keywords);
  }

  lemma LoweredKeysCons(keywords: seq<string>)
    requires keywords != []
    ensures LoweredKeys(keywords) == {Lower(keywords[0])} + LoweredKeys(keywords[1..])
  {
    assert keywords == [keywords[0]] + keywords[1..];
  }

  /** `insert` creates exactly the lower-cased keywords that were not keys yet. */
  lemma {:induction false} InsertedKeys(m: map<string, set<string>>, slug: string, keywords: seq<string>)
    decreases keywords
    ensures forall k :: k in Inserted(m, slug, keywords) <==> k in m || k in LoweredKeys(keywords)
  {
    if keywords != [] {
      InsertedKeys(AddOwner(m, Lower(keywords[0]), slug), slug, keywords[1..]);
      LoweredKeysCons(keywords);
    }
  }

  /** Each lower-cased keyword ends up with its old owners and `slug`. */
  lemma {:induction false} InsertedTouched(m: map<string, set<string>>, slug: string, keywords: seq<string>)
    decreases keywords
    ensures forall k :: k in LoweredKeys(keywords) ==>
      k in Inserted(m, slug, keywords) && Inserted(m, slug, keywords)[k] == Owners(m, k) + {slug}
  {
    if keywords != [] {
      var first := Lower(keywords[0]);
      var m' := AddOwner(m, first, slug);
      InsertedTouched(m', slug, keywords[1..]);
      InsertedUntouched(m', slug, keywords[1..]);
      LoweredKeysCons(keywords);
    }
  }

  /** Every key that is not a lower-cased keyword keeps its owners. */
  lemma {:induction false} InsertedUntouched(m: map<string, set<string>>, slug: string, keywords: seq<string>)
    decreases keywords
    ensures forall k :: k in m && k !in LoweredKeys(keywords) ==>
      k in Inserted(m, slug, keywords) && Inserted(m, slug, keywords)[k] == m[k]
  {
    if keywords != [] {
      InsertedUntouched(AddOwner(m, Lower(keywords[0]), slug), slug, keywords[1..]);
      LoweredKeysCons(keywords);
    }
  }

  /** After `insert(slug, ks)`, looking up any lower-cased `k` of `ks` finds the trimmed slug. */
  lemma InsertedFindsSlug(m: map<string, set<string>>, slug: string, keywords: seq<string>)
    ensures forall k :: k in keywords ==>
      Lower(k) in Inserted(m, slug, keywords) && slug in Inserted(m, slug, keywords)[Lower(k)]
  {
    InsertedEntries(m, slug, keywords);
    forall k | k in keywords ensures Lower(k) in LoweredKeys(keywords) { }
  }

  /** `insert` only adds: every key stays, with at least the slugs it had. */
  lemma InsertedOnlyAdds(m: map<string, set<string>>, slug: string, keywords: seq<string>)
    ensures m.Keys <= Inserted(m, slug, keywords).Keys
    ensures forall k :: k in m ==> m[k] <= Inserted(m, slug, keywords)[k]
  {
    InsertedEntries(m, slug, keywords);
  }

  /** Inserting pairs that are all present already leaves the index unchanged (entries are sets). */
  lemma InsertedPresentIsNoOp(m: map<string, set<string>>, slug: string, keywords: seq<string>)
    requires forall k :: k in keywords ==> Lower(k) in m && slug in m[Lower(k)]
    ensures Inserted(m, slug, keywords) == m
  {
    var r := Inserted(m, slug, keywords);
    InsertedEntries(m, slug, keywords);
    forall k | k in LoweredKeys(keywords) ensures k in m && slug in m[k] {
      var kw :| kw in keywords && Lower(kw) == k;
    }
    assert r.Keys == m.Keys;
    forall k | k in r ensures r[k] == m[k] {
      if k in LoweredKeys(keywords) {
        assert r[k] == m[k] + {slug};
      }
    }
  }

  /** Repeating the same `insert` changes nothing. */
  lemma InsertedIdempotent(m: map<string, set<string>>, slug: string, keywords: seq<string>)
    ensures Inserted(Inserted(m, slug, keywords), slug, keywords) == Inserted(m, slug, keywords)
  {
    InsertedFindsSlug(m, slug, keywords);
    InsertedPresentIsNoOp(Inserted(m, slug, keywords), slug, keywords);
  }

  /** `insert` never creates a key without an owner. */
  lemma InsertedNoEmptyEntry(m: map<string, set<string>>, slug: string, keywords: seq<string>)
    requires NoEmptyEntry(m)
    ensures NoEmptyEntry(Inserted(m, slug, keywords))
  {
    InsertedEntries(m, slug, keywords);
  }
}
