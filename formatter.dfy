/** The formatter: bucket names in ascending order, each bucket rendered as a
    header `#[K]`, its entries sorted stably by sort key and standardised,
    and a blank separator line. */
module Formatter {
  import opened Text
  import opened Lex
  import opened Normalizer

  // -----------------------------------------------------------------------
  // sorted(grouped_domains.keys())

  lemma {:induction false} MinExists(keys: set<char>)
    requires keys != {}
    ensures exists m :: m in keys && forall c :: c in keys ==> m <= c
    decreases keys
  {
    var x :| x in keys;
    if keys != {x} {
      MinExists(keys - {x});
      var m :| m in keys - {x} && forall c :: c in keys - {x} ==> m <= c;
      var least := if x < m then x else m;
      forall c | c in keys ensures least <= c {
        if c != x {
          assert c in keys - {x};
        }
      }
    } else {
      assert forall c :: c in keys ==> x <= c;
    }
  }

  /** `sorted(keys)` for one-character keys: every key once, in strictly
      ascending code-point order. */
  function SortedKeys(keys: set<char>): (r: seq<char>)
    ensures forall i, j :: 0 <= i < j < |r| ==> r[i] < r[j]
    ensures forall c :: c in r <==> c in keys
    decreases keys
  {
    if keys == {} then []
    else
      MinExists(keys);
      var m :| m in keys && forall c :: c in keys ==> m <= c;
      [m] + SortedKeys(keys - {m})
  }

  // -----------------------------------------------------------------------
  // sorted(bucket, key=get_sort_val), a stable sort

  predicate SortedBy(t: seq<string>, key: string -> string) {
    forall i, j :: 0 <= i < j < |t| ==> LessEq(key(t[i]), key(t[j]))
  }

  /** Inserts `x` into the sorted `t` after every entry whose key is at most
      that of `x`. */
  function Insert(t: seq<string>, x: string, key: string -> string): (r: seq<string>)
    ensures |r| == |t| + 1
    ensures multiset(r) == multiset(t) + multiset{x}
    decreases |t|
  {
    if t == [] then [x]
    else
      var prefix, y := t[..|t| - 1], t[|t| - 1];
      assert t == prefix + [y];
      if LessEq(key(y), key(x)) then t + [x]
      else Insert(prefix, x, key) + [y]
  }

  /** `sorted(s, key=key)`: insertion sort, which like Python's sort is
      stable. */
  function SortBy(s: seq<string>, key: string -> string): (r: seq<string>)
    ensures |r| == |s|
    ensures multiset(r) == multiset(s)
    decreases |s|
  {
    if s == [] then []
    else
      assert s == s[..|s| - 1] + [s[|s| - 1]];
      Insert(SortBy(s[..|s| - 1], key), s[|s| - 1], key)
  }

  lemma {:induction false} InsertSorted(t: seq<string>, x: string, key: string -> string)
    requires SortedBy(t, key)
    ensures SortedBy(Insert(t, x, key), key)
    decreases |t|
  {
    if t != [] {
      var prefix, y := t[..|t| - 1], t[|t| - 1];
      if LessEq(key(y), key(x)) {
        forall i | 0 <= i < |t| - 1 ensures LessEq(key(t[i]), key(x)) {
          LessEqTransitive(key(t[i]), key(y), key(x));
        }
      } else {
        InsertSorted(prefix, x, key);
        LessEqTotal(key(x), key(y));
        var q := Insert(prefix, x, key);
        forall i | 0 <= i < |q| ensures LessEq(key(q[i]), key(y)) {
          InsertedFrom(prefix, x, key, q[i]);
          if q[i] != x {
            var j :| 0 <= j < |prefix| && prefix[j] == q[i];
            assert t[j] == q[i];
          }
        }
        assert Insert(t, x, key) == q + [y];
      }
    }
  }

  lemma InsertedFrom(t: seq<string>, x: string, key: string -> string, z: string)
    requires z in Insert(t, x, key)
    ensures z == x || z in t
  {
    assert z in multiset(Insert(t, x, key));
  }

  /** Within a bucket the entries come out in non-decreasing key order. */
  lemma {:induction false} SortBySorted(s: seq<string>, key: string -> string)
    ensures SortedBy(SortBy(s, key), key)
    decreases |s|
  {
    if s != [] {
      SortBySorted(s[..|s| - 1], key);
      InsertSorted(SortBy(s[..|s| - 1], key), s[|s| - 1], key);
    }
  }

  /** The entries of `s` whose key is `v`, in their order in `s`. */
  function WithKey(s: seq<string>, key: string -> string, v: string): seq<string>
    decreases |s|
  {
    if s == [] then []
    else WithKey(s[..|s| - 1], key, v) + (if key(s[|s| - 1]) == v then [s[|s| - 1]] else [])
  }

  lemma WithKeyAppend(s: seq<string>, x: string, key: string -> string, v: string)
    ensures WithKey(s + [x], key, v) == WithKey(s, key, v) + (if key(x) == v then [x] else [])
  {
    assert (s + [x])[..|s|] == s;
  }

  lemma {:induction false} InsertStable(t: seq<string>, x: string, key: string -> string, v: string)
    ensures WithKey(Insert(t, x, key), key, v) == WithKey(t, key, v) + (if key(x) == v then [x] else [])
    decreases |t|
  {
    if t == [] {
      WithKeyAppend([], x, key, v);
    } else {
      var prefix, y := t[..|t| - 1], t[|t| - 1];
      assert t == prefix + [y];
      if LessEq(key(y), key(x)) {
        WithKeyAppend(t, x, key, v);
      } else {
        InsertStable(prefix, x, key, v);
        WithKeyAppend(Insert(prefix, x, key), y, key, v);
        WithKeyAppend(prefix, y, key, v);
        if key(x) == v && key(y) == v {
          LessEqReflexive(v);
        }
      }
    }
  }

  /** The sort is stable: entries with equal keys keep their relative
      order. */
  lemma {:induction false} SortByStable(s: seq<string>, key: string -> string, v: string)
    ensures WithKey(SortBy(s, key), key, v) == WithKey(s, key, v)
    decreases |s|
  {
    if s != [] {
      var prefix, x := s[..|s| - 1], s[|s| - 1];
      assert s == prefix + [x];
      SortByStable(prefix, key, v);
      InsertStable(SortBy(prefix, key), x, key, v);
      WithKeyAppend(prefix, x, key, v);
    }
  }

  // -----------------------------------------------------------------------
  // The output lines

  /** `f"#[{key}]"` */
  function Header(k: char): (line: string)
    ensures IsHeader(line) && line[2] == k
  {
    "#[" + [k] + "]"
  }

  predicate IsHeader(line: string) {
    |line| == 4 && line[0] == '#' && line[1] == '[' && line[3] == ']'
  }

  function StandardizeAll(s: seq<string>): (r: seq<string>)
    ensures |r| == |s| && forall i :: 0 <= i < |s| ==> r[i] == Standardize(s[i])
  {
    seq(|s|, i requires 0 <= i < |s| => Standardize(s[i]))
  }

  lemma StandardizeAllAppend(s: seq<string>, m: nat)
    requires m < |s|
    ensures StandardizeAll(s[..m + 1]) == StandardizeAll(s[..m]) + [Standardize(s[m])]
  {
  }

  /** `sorted(bucket, key=get_sort_val)`. */
  function Ordered(bucket: seq<string>): (r: seq<string>)
    ensures |r| == |bucket| && multiset(r) == multiset(bucket)
  {
    SortBy(bucket, SortKey)
  }

  /** Within a bucket the entries are in non-decreasing order of sort key,
      and entries with equal keys keep the order they were appended in. */
  lemma OrderedSortedStable(bucket: seq<string>, v: string)
    ensures SortedBy(Ordered(bucket), SortKey)
    ensures WithKey(Ordered(bucket), SortKey, v) == WithKey(bucket, SortKey, v)
  {
    SortBySorted(bucket, SortKey);
    SortByStable(bucket, SortKey, v);
  }

  /** The lines of one bucket whose entries are `sorted` once ordered:
      header, standardised entries, blank. */
  function Block(sorted: seq<string>, k: char): seq<string> {
    [Header(k)] + StandardizeAll(sorted) + [""]
  }

  predicate KeysIn(grouped: map<char, seq<string>>, keys: seq<char>) {
    forall i :: 0 <= i < |keys| ==> keys[i] in grouped
  }

  /** The lines of the buckets `keys`, in that order. */
  function RenderKeys(grouped: map<char, seq<string>>, keys: seq<char>): seq<string>
    requires KeysIn(grouped, keys)
    decreases |keys|
  {
    if keys == [] then []
    else
      var k := keys[|keys| - 1];
      RenderKeys(grouped, keys[..|keys| - 1]) + Block(Ordered(grouped[k]), k)
  }

  lemma RenderKeysStep(grouped: map<char, seq<string>>, keys: seq<char>, n: nat)
    requires KeysIn(grouped, keys) && n < |keys|
    ensures KeysIn(grouped, keys[..n]) && KeysIn(grouped, keys[..n + 1])
    ensures RenderKeys(grouped, keys[..n + 1]) == RenderKeys(grouped, keys[..n]) + Block(Ordered(grouped[keys[n]]), keys[n])
  {
    assert keys[..n + 1][..n] == keys[..n];
  }

  /** `output_lines` at the end of the formatting loop. */
  function OutputLines(grouped: map<char, seq<string>>): seq<string> {
    RenderKeys(grouped, SortedKeys(grouped.Keys))
  }

  /** The text written to the output file. Unless there is no bucket, it
      starts with the header of the first bucket in order and ends with a
      line break. */
  function Document(grouped: map<char, seq<string>>): (text: string)
    ensures grouped != map[] ==>
      && SortedKeys(grouped.Keys) != []
      && StartsWith(text, Header(SortedKeys(grouped.Keys)[0]))
      && text[|text| - 1] == '\n'
  {
    if grouped != map[] then
      DocumentFrame(grouped);
      Join(OutputLines(grouped))
    else
      Join(OutputLines(grouped))
  }

  lemma DocumentFrame(grouped: map<char, seq<string>>)
    requires grouped != map[]
    ensures SortedKeys(grouped.Keys) != []
    ensures StartsWith(Join(OutputLines(grouped)), Header(SortedKeys(grouped.Keys)[0]))
    ensures |Join(OutputLines(grouped))| > 0 && Join(OutputLines(grouped))[|Join(OutputLines(grouped))| - 1] == '\n'
  {
    var keys := SortedKeys(grouped.Keys);
    var k :| k in grouped;
    assert k in keys;
    RenderKeysEndsBlank(grouped, keys);
    JoinEndsWithBreak(OutputLines(grouped));
  }

  // -----------------------------------------------------------------------
  // What the output is made of

  /** Every output line is a bucket header, a blank separator or a rule
      `||...` holding a `^`. */
  predicate WellShaped(line: string) {
    IsHeader(line) || line == [] || (StartsWith(line, "||") && '^' in line)
  }

  predicate AllShaped(lines: seq<string>) {
    forall i :: 0 <= i < |lines| ==> WellShaped(lines[i])
  }

  lemma AllShapedAppend(a: seq<string>, b: seq<string>)
    requires AllShaped(a) && AllShaped(b)
    ensures AllShaped(a + b)
  {
    assert forall i :: 0 <= i < |a + b| ==> (a + b)[i] == if i < |a| then a[i] else b[i - |a|];
  }

  lemma BlockShaped(sorted: seq<string>, k: char)
    ensures AllShaped(Block(sorted, k))
  {
    var rules := StandardizeAll(sorted);
    assert IsHeader(Header(k));
    assert AllShaped([Header(k)]);
    assert AllShaped(rules) by {
      forall i | 0 <= i < |rules| ensures WellShaped(rules[i]) {
        assert rules[i] == Standardize(sorted[i]);
      }
    }
    assert AllShaped([""]);
    AllShapedAppend([Header(k)], rules);
    AllShapedAppend([Header(k)] + rules, [""]);
  }

  lemma {:induction false} RenderKeysShaped(grouped: map<char, seq<string>>, keys: seq<char>)
    requires KeysIn(grouped, keys)
    ensures AllShaped(RenderKeys(grouped, keys))
    decreases |keys|
  {
    if keys != [] {
      var prefix, k := keys[..|keys| - 1], keys[|keys| - 1];
      RenderKeysShaped(grouped, prefix);
      BlockShaped(Ordered(grouped[k]), k);
      AllShapedAppend(RenderKeys(grouped, prefix), Block(Ordered(grouped[k]), k));
    }
  }

  lemma SplitLast(keys: seq<char>)
    requires keys != []
    ensures keys == keys[..|keys| - 1] + [keys[|keys| - 1]]
  {
  }

  /** Each line of the output is a bucket header, a blank separator or a
      rule `||...` holding a `^`. */
  lemma OutputLineShapes(grouped: map<char, seq<string>>)
    ensures forall i :: 0 <= i < |OutputLines(grouped)| ==> WellShaped(OutputLines(grouped)[i])
  {
    RenderKeysShaped(grouped, SortedKeys(grouped.Keys));
  }

  /** The bucket names announced by the headers among `lines`, in order. */
  function Headers(lines: seq<string>): seq<char>
    decreases |lines|
  {
    if lines == [] then []
    else
      var last := lines[|lines| - 1];
      Headers(lines[..|lines| - 1]) + (if IsHeader(last) then [last[2]] else [])
  }

  lemma {:induction false} HeadersAppend(a: seq<string>, b: seq<string>)
    ensures Headers(a + b) == Headers(a) + Headers(b)
    decreases |b|
  {
    if b == [] {
      assert a + b == a;
    } else {
      var prefix := b[..|b| - 1];
      assert (a + b)[..|a + b| - 1] == a + prefix;
      assert (a + b)[|a + b| - 1] == b[|b| - 1];
      HeadersAppend(a, prefix);
    }
  }

  lemma {:induction false} HeadersOfRules(s: seq<string>)
    ensures Headers(StandardizeAll(s)) == []
    decreases |s|
  {
    if s != [] {
      var prefix := s[..|s| - 1];
      assert StandardizeAll(s)[..|s| - 1] == StandardizeAll(prefix);
      HeadersOfRules(prefix);
    }
  }

  lemma HeadersOfBlock(sorted: seq<string>, k: char)
    ensures Headers(Block(sorted, k)) == [k]
  {
    var rules := StandardizeAll(sorted);
    HeadersAppend([Header(k)], rules);
    HeadersAppend([Header(k)] + rules, [""]);
    HeadersOfRules(sorted);
    assert Headers([Header(k)]) == [k] by {
      assert [Header(k)][..0] == [];
    }
    assert Headers([""]) == [] by {
      assert [""][..0] == [];
    }
  }

  lemma {:induction false} HeadersOfRenderKeys(grouped: map<char, seq<string>>, keys: seq<char>)
    requires KeysIn(grouped, keys)
    ensures Headers(RenderKeys(grouped, keys)) == keys
    decreases |keys|
  {
    if keys != [] {
      var prefix, k := keys[..|keys| - 1], keys[|keys| - 1];
      HeadersOfRenderKeys(grouped, prefix);
      HeadersAppend(RenderKeys(grouped, prefix), Block(Ordered(grouped[k]), k));
      HeadersOfBlock(Ordered(grouped[k]), k);
      assert RenderKeys(grouped, keys) == RenderKeys(grouped, prefix) + Block(Ordered(grouped[k]), k);
      SplitLast(keys);
    }
  }

  /** The output announces every bucket exactly once, in strictly ascending
      order of bucket name, and announces nothing else. */
  lemma OutputHeaders(grouped: map<char, seq<string>>)
    ensures Headers(OutputLines(grouped)) == SortedKeys(grouped.Keys)
    ensures var h := Headers(OutputLines(grouped));
      && (forall i, j :: 0 <= i < j < |h| ==> h[i] < h[j])
      && (forall k :: k in h <==> k in grouped)
  {
    HeadersOfRenderKeys(grouped, SortedKeys(grouped.Keys));
  }

  lemma {:induction false} RenderKeysEndsBlank(grouped: map<char, seq<string>>, keys: seq<char>)
    requires KeysIn(grouped, keys) && keys != []
    ensures |RenderKeys(grouped, keys)| >= 2
    ensures RenderKeys(grouped, keys)[0] == Header(keys[0])
    ensures RenderKeys(grouped, keys)[|RenderKeys(grouped, keys)| - 1] == []
    decreases |keys|
  {
    var prefix, k := keys[..|keys| - 1], keys[|keys| - 1];
    if prefix != [] {
      RenderKeysEndsBlank(grouped, prefix);
    }
  }

  /** The document is empty exactly when there is no bucket. */
  lemma DocumentEmpty(grouped: map<char, seq<string>>)
    ensures Document(grouped) == [] <==> grouped == map[]
  {
    var keys := SortedKeys(grouped.Keys);
    if grouped != map[] {
      var k :| k in grouped;
      assert k in keys;
      RenderKeysEndsBlank(grouped, keys);
    }
  }

  /** A bucket's lines hold no line break when its name and its entries
      hold none. */
  lemma FramedNoLineBreak(sorted: seq<string>, k: char)
    requires !IsLineBreak(k) && LinesNoBreak(sorted)
    ensures LinesNoBreak(Block(sorted, k))
  {
    var rules := StandardizeAll(sorted);
    assert LinesNoBreak([Header(k)]) by {
      assert Header(k) == ['#', '[', k, ']'];
    }
    assert LinesNoBreak(rules) by {
      forall i | 0 <= i < |rules| ensures NoLineBreak(rules[i]) {
        StandardizeNoLineBreak(sorted[i]);
      }
    }
    assert LinesNoBreak([""]);
    LinesNoBreakAppend([Header(k)], rules);
    LinesNoBreakAppend([Header(k)] + rules, [""]);
  }

  /** Sorting a bucket adds no line break. */
  lemma OrderedNoLineBreak(bucket: seq<string>)
    requires LinesNoBreak(bucket)
    ensures LinesNoBreak(Ordered(bucket))
  {
    var sorted := Ordered(bucket);
    forall j | 0 <= j < |sorted| ensures NoLineBreak(sorted[j]) {
      assert sorted[j] in multiset(bucket);
    }
  }

  /** No line holds a line break. */
  predicate LinesNoBreak(lines: seq<string>) {
    forall i :: 0 <= i < |lines| ==> NoLineBreak(lines[i])
  }

  lemma LinesNoBreakAppend(a: seq<string>, b: seq<string>)
    requires LinesNoBreak(a) && LinesNoBreak(b)
    ensures LinesNoBreak(a + b)
  {
    assert forall i :: 0 <= i < |a + b| ==> (a + b)[i] == if i < |a| then a[i] else b[i - |a|];
  }

  lemma {:induction false} RenderKeysNoLineBreak(grouped: map<char, seq<string>>, keys: seq<char>)
    requires KeysIn(grouped, keys)
    requires forall i :: 0 <= i < |keys| ==> !IsLineBreak(keys[i])
    requires forall k :: k in grouped ==> LinesNoBreak(grouped[k])
    ensures LinesNoBreak(RenderKeys(grouped, keys))
    decreases |keys|
  {
    if keys != [] {
      var prefix, k := keys[..|keys| - 1], keys[|keys| - 1];
      RenderKeysNoLineBreak(grouped, prefix);
      OrderedNoLineBreak(grouped[k]);
      FramedNoLineBreak(Ordered(grouped[k]), k);
      LinesNoBreakAppend(RenderKeys(grouped, prefix), Block(Ordered(grouped[k]), k));
    }
  }

  /** Provided no entry and no bucket name holds a line break, the document
      of a non-empty grouping ends with a line break, and splitting it at its
      line breaks gives back the output lines. */
  lemma DocumentLines(grouped: map<char, seq<string>>)
    requires grouped != map[]
    requires forall k :: k in grouped ==> !IsLineBreak(k)
    requires forall k :: k in grouped ==> LinesNoBreak(grouped[k])
    ensures SplitLines(Document(grouped)) == OutputLines(grouped)
    ensures |Document(grouped)| > 0 && Document(grouped)[|Document(grouped)| - 1] == '\n'
  {
    var keys := SortedKeys(grouped.Keys);
    var k :| k in grouped;
    assert k in keys;
    RenderKeysNoLineBreak(grouped, keys);
    RenderKeysEndsBlank(grouped, keys);
    SplitJoin(OutputLines(grouped));
    JoinEndsWithBreak(OutputLines(grouped));
  }

  // -----------------------------------------------------------------------
  // The formatting loops

  /** The lines one bucket contributes, given its entries in sorted order:
      its header, then each entry standardised as it is appended, then a
      blank line. */
  method FormatBucket(key: char, currentGroup: seq<string>) returns (lines: seq<string>)
    ensures lines == Block(currentGroup, key)
  {
    lines := [Header(key)];
    for m := 0 to |currentGroup|
      invariant lines == [Header(key)] + StandardizeAll(currentGroup[..m])
    {
      var d := currentGroup[m];
      if !StartsWith(d, "||") {
        d := "||" + d;
      }
      if '^' !in d {
        d := d + "^";
      }
      assert d == Standardize(currentGroup[m]);
      StandardizeAllAppend(currentGroup, m);
      lines := lines + [d];
    }
    lines := lines + [""];
    assert currentGroup[..|currentGroup|] == currentGroup;
  }

  /** The formatting loop of `process_abp_list`: the buckets in ascending
      order of their names, the entries of each sorted by key. */
  method FormatGroups(grouped: map<char, seq<string>>) returns (outputLines: seq<string>)
    ensures outputLines == OutputLines(grouped)
  {
    var sortedKeys := SortedKeys(grouped.Keys);
    outputLines := [];
    for n := 0 to |sortedKeys|
      invariant outputLines == RenderKeys(grouped, sortedKeys[..n])
    {
      outputLines := EmitBucket(grouped, sortedKeys, n, outputLines);
    }
    assert sortedKeys[..|sortedKeys|] == sortedKeys;
  }

  /** One turn of the formatting loop: the lines of the buckets before
      `keys[n]`, followed by that bucket's block. */
  method EmitBucket(grouped: map<char, seq<string>>, keys: seq<char>, n: nat, outputLines: seq<string>)
    returns (extended: seq<string>)
    requires KeysIn(grouped, keys) && n < |keys|
    requires KeysIn(grouped, keys[..n]) && outputLines == RenderKeys(grouped, keys[..n])
    ensures KeysIn(grouped, keys[..n + 1]) && extended == RenderKeys(grouped, keys[..n + 1])
  {
    var key := keys[n];
    var lines := FormatBucket(key, Ordered(grouped[key]));
    RenderKeysStep(grouped, keys, n);
    extended := outputLines + lines;
  }
}
