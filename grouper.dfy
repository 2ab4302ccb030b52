/** The grouping loop: case-insensitive de-duplication of the loaded entries
    and their distribution into buckets named by the upper-cased first
    character of their sort key. */
module Grouper {
  import opened Text
  import opened Normalizer

  function Elements(s: seq<string>): set<string> {
    set x | x in s
  }

  lemma ElementsAppend(s: seq<string>, d: string)
    ensures Elements(s + [d]) == Elements(s) + {d}
  {
  }

  /** The lower-cased forms of some entries, as `seen_normalized` holds them. */
  function Normalized(entries: set<string>): set<string> {
    set x | x in entries :: Lower(x)
  }

  lemma NormalizedAdd(entries: set<string>, d: string)
    ensures Normalized(entries + {d}) == Normalized(entries) + {Lower(d)}
  {
  }

  predicate Distinct(s: seq<string>) {
    forall i, j :: 0 <= i < j < |s| ==> s[i] != s[j]
  }

  lemma DistinctAppend(s: seq<string>, d: string)
    requires Distinct(s) && d !in Elements(s)
    ensures Distinct(s + [d])
  {
  }

  predicate DistinctLower(s: seq<string>) {
    forall i, j :: 0 <= i < j < |s| ==> Lower(s[i]) != Lower(s[j])
  }

  lemma DistinctLowerAppend(s: seq<string>, d: string)
    ensures DistinctLower(s + [d]) <==> DistinctLower(s) && forall x :: x in s ==> Lower(x) != Lower(d)
  {
    var t := s + [d];
    assert forall i :: 0 <= i < |s| ==> t[i] == s[i];
    if DistinctLower(t) {
      forall x | x in s ensures Lower(x) != Lower(d) {
        var i :| 0 <= i < |s| && s[i] == x;
        assert t[i] == x && t[|s|] == d;
      }
    }
  }

  /** `order` is one order in which a Python set can yield `entries`: each
      entry exactly once. */
  predicate IsEnumeration(order: seq<string>, entries: set<string>) {
    Distinct(order) && Elements(order) == entries
  }

  /** The entries of `order` that the loop keeps: those whose lower-cased
      form has not occurred earlier in `order`. */
  function Survivors(order: seq<string>): (s: seq<string>)
    ensures Elements(s) <= Elements(order)
    decreases |order|
  {
    if order == [] then []
    else
      var prefix, d := order[..|order| - 1], order[|order| - 1];
      assert order == prefix + [d];
      ElementsAppend(prefix, d);
      ElementsAppend(Survivors(prefix), d);
      if Lower(d) in Normalized(Elements(prefix)) then Survivors(prefix)
      else Survivors(prefix) + [d]
  }

  lemma SurvivorsAppend(order: seq<string>, d: string)
    ensures Survivors(order + [d]) ==
      if Lower(d) in Normalized(Elements(order)) then Survivors(order) else Survivors(order) + [d]
  {
    assert (order + [d])[..|order|] == order;
  }

  /** The entries of `s`, in order, that belong to bucket `k`. */
  function Bucket(s: seq<string>, k: char): (b: seq<string>)
    ensures forall e :: e in b <==> e in s && Routable(e) && Letter(e) == k
    decreases |s|
  {
    if s == [] then []
    else
      var prefix, d := s[..|s| - 1], s[|s| - 1];
      assert s == prefix + [d];
      if Routable(d) && Letter(d) == k then Bucket(prefix, k) + [d]
      else Bucket(prefix, k)
  }

  /** The names of the buckets that the entries of `s` create. */
  function BucketKeys(s: seq<string>): set<char> {
    set e | e in s && Routable(e) :: Letter(e)
  }

  /** `grouped_domains` after appending, in order, the entries of `s`. */
  function Buckets(s: seq<string>): map<char, seq<string>> {
    map k | k in BucketKeys(s) :: Bucket(s, k)
  }

  lemma BucketAppend(s: seq<string>, d: string, k: char)
    ensures Bucket(s + [d], k) == if Routable(d) && Letter(d) == k then Bucket(s, k) + [d] else Bucket(s, k)
  {
    assert (s + [d])[..|s|] == s;
  }

  lemma BucketKeysAppend(s: seq<string>, d: string)
    ensures BucketKeys(s + [d]) == BucketKeys(s) + (if Routable(d) then {Letter(d)} else {})
  {
    ElementsAppend(s, d);
  }

  lemma BucketsExt(g: map<char, seq<string>>, s: seq<string>)
    requires g.Keys == BucketKeys(s)
    requires forall k :: k in g ==> g[k] == Bucket(s, k)
    ensures g == Buckets(s)
  {
  }

  /** Appending an entry with a non-empty key extends its bucket only. */
  lemma BucketsAppendRouted(s: seq<string>, d: string)
    requires Routable(d)
    ensures Buckets(s + [d]) == Buckets(s)[Letter(d) := Bucket(s, Letter(d)) + [d]]
  {
    var t := s + [d];
    BucketKeysAppend(s, d);
    var m := Buckets(s)[Letter(d) := Bucket(s, Letter(d)) + [d]];
    assert m.Keys == BucketKeys(t);
    forall k | k in m ensures m[k] == Bucket(t, k) {
      BucketAppend(s, d, k);
    }
    BucketsExt(m, t);
  }

  /** The update the grouping loop makes to `grouped_domains` for an entry
      with a non-empty key. */
  lemma BucketsAppendTo(g: map<char, seq<string>>, s: seq<string>, d: string)
    requires g == Buckets(s) && Routable(d)
    ensures Buckets(s + [d]) == g[Letter(d) := (if Letter(d) in g then g[Letter(d)] else []) + [d]]
  {
    BucketsAppendRouted(s, d);
    var k := Letter(d);
    if k !in g {
      BucketOutsideKeys(s, k);
    }
  }

  /** A letter that no entry of `s` routes to names an empty bucket. */
  lemma {:induction false} BucketOutsideKeys(s: seq<string>, k: char)
    requires k !in BucketKeys(s)
    ensures Bucket(s, k) == []
    decreases |s|
  {
    if s != [] {
      var prefix, d := s[..|s| - 1], s[|s| - 1];
      assert s == prefix + [d];
      BucketKeysAppend(prefix, d);
      BucketOutsideKeys(prefix, k);
      BucketAppend(prefix, d, k);
    }
  }

  /** Appending an entry with an empty key changes no bucket. */
  lemma BucketsAppendDropped(s: seq<string>, d: string)
    requires !Routable(d)
    ensures Buckets(s + [d]) == Buckets(s)
  {
    var t := s + [d];
    BucketKeysAppend(s, d);
    forall k | k in Buckets(s) ensures Buckets(s)[k] == Bucket(t, k) {
      BucketAppend(s, d, k);
    }
    BucketsExt(Buckets(s), t);
  }

  /** One turn of the grouping loop, stated on the entries visited so far. */
  lemma GroupStep(before: seq<string>, d: string, grouped: map<char, seq<string>>, seen: set<string>)
    requires seen == Normalized(Elements(before)) && grouped == Buckets(Survivors(before))
    ensures Normalized(Elements(before + [d])) == seen + {Lower(d)}
    ensures Lower(d) in seen ==> Buckets(Survivors(before + [d])) == grouped
    ensures Lower(d) !in seen && !Routable(d) ==> Buckets(Survivors(before + [d])) == grouped
    ensures Lower(d) !in seen && Routable(d) ==>
      Buckets(Survivors(before + [d])) == grouped[Letter(d) := (if Letter(d) in grouped then grouped[Letter(d)] else []) + [d]]
  {
    ElementsAppend(before, d);
    NormalizedAdd(Elements(before), d);
    SurvivorsAppend(before, d);
    if Lower(d) !in seen {
      if Routable(d) {
        BucketsAppendTo(grouped, Survivors(before), d);
      } else {
        BucketsAppendDropped(Survivors(before), d);
      }
    }
  }

  /** The order in which the loop visits the set `raw_lines`: Python leaves
      it unspecified, so the model picks each next entry arbitrarily. */
  method Enumerate(entries: set<string>) returns (order: seq<string>)
    ensures IsEnumeration(order, entries)
  {
    order := [];
    var remaining := entries;
    while remaining != {}
      invariant Distinct(order)
      invariant Elements(order) !! remaining && Elements(order) + remaining == entries
      decreases remaining
    {
      var x :| x in remaining;
      ElementsAppend(order, x);
      DistinctAppend(order, x);
      order := order + [x];
      remaining := remaining - {x};
    }
  }

  /** One turn of the loop `for domain in raw_lines` of `process_abp_list`:
      a lower-cased form already in `seen` is skipped; otherwise it is added
      to `seen`, and the entry is appended to the bucket of its sort key's
      first character unless that key is empty. */
  method VisitDomain(grouped: map<char, seq<string>>, seen: set<string>, domain: string)
    returns (grouped': map<char, seq<string>>, seen': set<string>)
    ensures seen' == seen + {Lower(domain)}
    ensures Lower(domain) in seen || !Routable(domain) ==> grouped' == grouped
    ensures Lower(domain) !in seen && Routable(domain) ==>
      grouped' == grouped[Letter(domain) := (if Letter(domain) in grouped then grouped[Letter(domain)] else []) + [domain]]
  {
    grouped', seen' := grouped, seen;
    var norm := Lower(domain);
    if norm in seen' {
      return;
    }
    seen' := seen' + {norm};

    var sortKey := norm;
    if StartsWith(sortKey, "||") {
      sortKey := sortKey[2..];
    }
    if StartsWith(sortKey, "www.") {
      sortKey := sortKey[4..];
    }
    assert sortKey == SortKey(domain);
    if sortKey == [] {
      return;
    }
    var firstLetter := UpperChar(sortKey[0]);
    var bucket := if firstLetter in grouped' then grouped'[firstLetter] else [];
    grouped' := grouped'[firstLetter := bucket + [domain]];
  }

  /** The loop `for domain in raw_lines` of `process_abp_list`, visiting
      the entries in the order `rawLines`: `seen` ends as the set of
      lower-cased entries, and `grouped` holds the entries that were the
      first of their lower-cased form, each appended to the bucket of its
      sort key's first character. */
  method GroupDomains(rawLines: seq<string>) returns (grouped: map<char, seq<string>>, seen: set<string>)
    ensures seen == Normalized(Elements(rawLines))
    ensures grouped == Buckets(Survivors(rawLines))
  {
    grouped, seen := map[], {};
    for i := 0 to |rawLines|
      invariant seen == Normalized(Elements(rawLines[..i]))
      invariant grouped == Buckets(Survivors(rawLines[..i]))
    {
      assert rawLines[..i + 1] == rawLines[..i] + [rawLines[i]];
      GroupStep(rawLines[..i], rawLines[i], grouped, seen);
      grouped, seen := VisitDomain(grouped, seen, rawLines[i]);
    }
    assert rawLines[..|rawLines|] == rawLines;
  }

  // -----------------------------------------------------------------------
  // What the loop's result means

  /** The survivors have, between them, every lower-cased form of `order`. */
  lemma {:induction false} SurvivorsCover(order: seq<string>)
    ensures Normalized(Elements(Survivors(order))) == Normalized(Elements(order))
    decreases |order|
  {
    if order != [] {
      var prefix, d := order[..|order| - 1], order[|order| - 1];
      assert order == prefix + [d];
      SurvivorsCover(prefix);
      assert Elements(order) == Elements(prefix) + {d};
      NormalizedAdd(Elements(prefix), d);
      var s := Survivors(prefix);
      if Lower(d) !in Normalized(Elements(prefix)) {
        ElementsAppend(s, d);
        NormalizedAdd(Elements(s), d);
      }
    }
  }

  /** No two survivors are equal once lower-cased. */
  lemma {:induction false} SurvivorsDistinctLower(order: seq<string>)
    ensures DistinctLower(Survivors(order))
    decreases |order|
  {
    if order != [] {
      var prefix, d := order[..|order| - 1], order[|order| - 1];
      assert order == prefix + [d];
      SurvivorsDistinctLower(prefix);
      SurvivorsCover(prefix);
      var s := Survivors(prefix);
      if Lower(d) !in Normalized(Elements(prefix)) {
        forall i | 0 <= i < |s| ensures Lower(s[i]) != Lower(d) {
          assert s[i] in Elements(s);
        }
      }
    }
  }

  /** Which case variant survives: an entry of `order` survives exactly when
      no entry before it has the same lower-cased form. */
  lemma {:induction false} SurvivorsAreFirstOccurrences(order: seq<string>)
    requires Distinct(order)
    ensures forall i :: 0 <= i < |order| ==>
      (order[i] in Survivors(order) <==> forall j :: 0 <= j < i ==> Lower(order[j]) != Lower(order[i]))
    decreases |order|
  {
    if order != [] {
      var n := |order| - 1;
      var prefix, d := order[..n], order[n];
      assert order == prefix + [d];
      SurvivorsAreFirstOccurrences(prefix);
      var s := Survivors(prefix);
      assert d !in Elements(prefix);
      forall i | 0 <= i < |order|
        ensures order[i] in Survivors(order) <==> forall j :: 0 <= j < i ==> Lower(order[j]) != Lower(order[i])
      {
        if i == n {
          if Lower(d) in Normalized(Elements(prefix)) {
            var x :| x in prefix && Lower(x) == Lower(d);
            var j :| 0 <= j < n && prefix[j] == x;
            assert order[j] == x;
          }
        } else {
          assert order[i] == prefix[i] && order[i] != d;
          assert forall j :: 0 <= j < i ==> order[j] == prefix[j];
        }
      }
    }
  }

  /** When no two entries differ only in case, every entry survives, in the
      order visited. */
  lemma {:induction false} SurvivorsWithoutVariants(order: seq<string>)
    requires DistinctLower(order)
    ensures Survivors(order) == order
    decreases |order|
  {
    if order != [] {
      var n := |order| - 1;
      var prefix, d := order[..n], order[n];
      assert order == prefix + [d];
      SurvivorsWithoutVariants(prefix);
      forall x | x in prefix ensures Lower(x) != Lower(d) {
        var j :| 0 <= j < n && prefix[j] == x;
        assert order[j] == x;
      }
    }
  }

  /** `len(seen_normalized)` counts the survivors. */
  lemma {:induction false} SurvivorsCount(order: seq<string>)
    ensures |Survivors(order)| == |Normalized(Elements(order))|
    decreases |order|
  {
    if order != [] {
      var prefix, d := order[..|order| - 1], order[|order| - 1];
      assert order == prefix + [d];
      SurvivorsCount(prefix);
      ElementsAppend(prefix, d);
      NormalizedAdd(Elements(prefix), d);
      var n := Normalized(Elements(prefix));
      if Lower(d) in n {
        assert n + {Lower(d)} == n;
      } else {
        assert |n + {Lower(d)}| == |n| + 1;
        assert |Survivors(order)| == |Survivors(prefix)| + 1;
      }
    }
  }

  /** A bucket keeps the entries of `s` that it takes in their order, so it
      inherits the absence of case-insensitive duplicates. */
  lemma {:induction false} BucketDistinctLower(s: seq<string>, k: char)
    requires DistinctLower(s)
    ensures DistinctLower(Bucket(s, k))
    decreases |s|
  {
    if s != [] {
      var prefix, d := s[..|s| - 1], s[|s| - 1];
      assert s == prefix + [d];
      DistinctLowerAppend(prefix, d);
      BucketDistinctLower(prefix, k);
      BucketAppend(prefix, d, k);
      DistinctLowerAppend(Bucket(prefix, k), d);
    }
  }

  /** The buckets partition the survivors whose key is non-empty: every bucket
      is non-empty, every entry of a bucket is a survivor routed to that
      bucket (hence to no other), every such survivor is in its bucket, and
      survivors with an empty key are in no bucket. */
  lemma GroupedPartition(order: seq<string>)
    ensures var s := Survivors(order); var g := Buckets(s);
      && (forall k :: k in g ==> g[k] != [])
      && (forall k, e :: k in g && e in g[k] ==> e in s && Routable(e) && Letter(e) == k)
      && (forall e :: e in s && Routable(e) ==> Letter(e) in g && e in g[Letter(e)])
      && (forall e, k :: e in s && !Routable(e) && k in g ==> e !in g[k])
  {
    BucketsNonEmpty(Survivors(order));
    BucketsRouting(Survivors(order));
  }

  lemma BucketsNonEmpty(s: seq<string>)
    ensures forall k :: k in Buckets(s) ==> Buckets(s)[k] != []
  {
    forall k | k in Buckets(s) ensures Buckets(s)[k] != [] {
      var e :| e in s && Routable(e) && Letter(e) == k;
      assert e in Bucket(s, k);
    }
  }

  lemma BucketsRouting(s: seq<string>)
    ensures var g := Buckets(s);
      && (forall k, e :: k in g && e in g[k] ==> e in s && Routable(e) && Letter(e) == k)
      && (forall e :: e in s && Routable(e) ==> Letter(e) in g && e in g[Letter(e)])
      && (forall e, k :: e in s && !Routable(e) && k in g ==> e !in g[k])
  {
  }

  /** After the loop no two bucketed entries, in the same bucket or in
      different ones, have equal lower-cased forms. */
  lemma GroupedNoLowerDuplicates(order: seq<string>)
    ensures var g := Buckets(Survivors(order));
      forall k1, k2, i, j ::
        k1 in g && k2 in g && 0 <= i < |g[k1]| && 0 <= j < |g[k2]| && (k1 != k2 || i != j)
        ==> Lower(g[k1][i]) != Lower(g[k2][j])
  {
    var s := Survivors(order);
    var g := Buckets(s);
    SurvivorsDistinctLower(order);
    forall k1, k2, i, j |
      k1 in g && k2 in g && 0 <= i < |g[k1]| && 0 <= j < |g[k2]| && (k1 != k2 || i != j)
      ensures Lower(g[k1][i]) != Lower(g[k2][j])
    {
      if k1 == k2 {
        BucketDistinctLower(s, k1);
      } else {
        assert g[k1][i] in g[k1] && g[k2][j] in g[k2];
        if Lower(g[k1][i]) == Lower(g[k2][j]) {
          SortKeyOfLower(g[k1][i], g[k2][j]);
        }
      }
    }
  }

  /** Every lower-cased form with a non-empty key is represented in the
      buckets, in the bucket of its key, whichever order the set yields its
      entries in; a lower-cased form with an empty key is in no bucket. */
  lemma EveryFormRepresented(order: seq<string>)
    ensures var g := Buckets(Survivors(order));
      && (forall x :: x in order && Routable(x) ==>
            Letter(x) in g && exists e :: e in g[Letter(x)] && Lower(e) == Lower(x))
      && (forall x, k, e :: x in order && !Routable(x) && k in g && e in g[k] ==> Lower(e) != Lower(x))
  {
    var s := Survivors(order);
    var g := Buckets(s);
    SurvivorsCover(order);
    GroupedPartition(order);
    forall x | x in order && Routable(x)
      ensures Letter(x) in g && exists e :: e in g[Letter(x)] && Lower(e) == Lower(x)
    {
      assert Lower(x) in Normalized(Elements(order));
      var e :| e in s && Lower(e) == Lower(x);
      SortKeyOfLower(e, x);
      assert e in g[Letter(x)];
    }
    forall x, k, e | x in order && !Routable(x) && k in g && e in g[k]
      ensures Lower(e) != Lower(x)
    {
      if Lower(e) == Lower(x) {
        SortKeyOfLower(e, x);
      }
    }
  }

  /** The bucket names the entries `entries` call for. */
  function Letters(entries: set<string>): set<char> {
    set x | x in entries && Routable(x) :: Letter(x)
  }

  /** The set of bucket names depends only on the set of entries, not on
      the order the set yields them in. */
  lemma BucketKeysOrderIndependent(order: seq<string>)
    ensures Buckets(Survivors(order)).Keys == Letters(Elements(order))
  {
    var g := Buckets(Survivors(order));
    var keys := Letters(Elements(order));
    EveryFormRepresented(order);
    GroupedPartition(order);
    forall k | k in g ensures k in keys {
      var e :| e in Survivors(order) && Routable(e) && Letter(e) == k;
      assert e in Elements(order);
    }
    forall k | k in keys ensures k in g {
      var x :| x in Elements(order) && Routable(x) && Letter(x) == k;
      assert x in order;
    }
  }
}
