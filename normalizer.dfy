/** The two per-entry rewrites of the cleaner: the sort key `get_sort_val`
    (which the grouping loop also computes inline) and the standardiser that
    turns an entry into an ad-block rule `||domain^`. */
module Normalizer {
  import opened Text

  /** `get_sort_val(x)`: the lower-cased entry with one leading `||`
      removed if there is one, and then one leading `www.` removed if there
      is one. The key is a suffix of the lower-cased entry; the prefix cut
      off is `""`, `||`, `www.` or `||www.`, it holds `||` exactly when the
      lower-cased entry starts with `||`, and it holds `www.` exactly when
      what follows that `||` starts with `www.`. */
  function SortKey(x: string): (key: string)
    ensures |key| <= |x| && key == Lower(x)[|x| - |key|..]
    ensures MarkerPrefix(Lower(x)[..|x| - |key|])
    ensures StartsWith(Lower(x)[..|x| - |key|], "||") <==> StartsWith(Lower(x), "||")
    ensures var low := Lower(x);
      WwwMarked(low[..|x| - |key|]) <==> StartsWith(if StartsWith(low, "||") then low[2..] else low, "www.")
  {
    var low := Lower(x);
    var bars := StartsWith(low, "||");
    var val := if bars then low[2..] else low;
    var www := StartsWith(val, "www.");
    var key := if www then val[4..] else val;
    MarkerPrefixCases(low, bars, www, |low| - |key|);
    key
  }

  /** The prefixes `get_sort_val` may cut off. */
  predicate MarkerPrefix(p: string) {
    p == "" || p == "||" || p == "www." || p == "||www."
  }

  /** A cut-off prefix that removed a `www.`. */
  predicate WwwMarked(p: string) {
    p == "www." || p == "||www."
  }

  lemma MarkerPrefixCases(low: string, bars: bool, www: bool, n: nat)
    requires bars == StartsWith(low, "||")
    requires www == StartsWith(if bars then low[2..] else low, "www.")
    requires n == (if bars then 2 else 0) + (if www then 4 else 0)
    ensures n <= |low|
    ensures MarkerPrefix(low[..n])
    ensures StartsWith(low[..n], "||") <==> bars
    ensures WwwMarked(low[..n]) <==> www
  {
    if bars && www {
      assert low[..n] == low[..2] + low[2..][..4];
    }
  }

  /** An entry has a key and a first letter only if its key is non-empty. */
  predicate Routable(x: string) {
    SortKey(x) != []
  }

  /** The bucket an entry goes to: the upper-cased first character of its
      key. */
  function Letter(x: string): (k: char)
    requires Routable(x)
    ensures !IsLowerAscii(k) && LowerChar(k) == SortKey(x)[0]
  {
    var c := SortKey(x)[0];
    assert c == LowerChar(x[|x| - |SortKey(x)|]);
    UpperChar(c)
  }

  /** An entry without a line break names a bucket that is not a line
      break. */
  lemma LetterNoLineBreak(x: string)
    requires NoLineBreak(x) && Routable(x)
    ensures !IsLineBreak(Letter(x))
  {
    var key := SortKey(x);
    var j := |x| - |key|;
    assert key[0] == Lower(x)[j];
    CaseKeepsLineBreaks(x[j]);
    CaseKeepsLineBreaks(key[0]);
  }

  /** Entries that are equal once lower-cased have the same key. */
  lemma SortKeyOfLower(a: string, b: string)
    requires Lower(a) == Lower(b)
    ensures SortKey(a) == SortKey(b)
    ensures Routable(a) ==> Letter(a) == Letter(b)
  {
  }

  lemma LowerOfMarked(p: string, x: string)
    requires p == "||" || p == "www." || p == "||www."
    ensures Lower(p + x) == p + Lower(x)
  {
    LowerAppend(p, x);
    assert Lower(p) == p;
  }

  lemma SortKeyUnmarked(x: string)
    requires !StartsWith(Lower(x), "||") && !StartsWith(Lower(x), "www.")
    ensures SortKey(x) == Lower(x)
  {
  }

  lemma SortKeyBars(x: string)
    requires !StartsWith(Lower(x), "||") && !StartsWith(Lower(x), "www.")
    ensures SortKey("||" + x) == Lower(x)
  {
    LowerOfMarked("||", x);
    assert ("||" + Lower(x))[2..] == Lower(x);
  }

  lemma SortKeyWww(x: string)
    requires !StartsWith(Lower(x), "||") && !StartsWith(Lower(x), "www.")
    ensures SortKey("www." + x) == Lower(x)
  {
    LowerOfMarked("www.", x);
    assert ("www." + Lower(x))[0] == 'w';
    assert ("www." + Lower(x))[4..] == Lower(x);
  }

  lemma SortKeyBarsWww(x: string)
    requires !StartsWith(Lower(x), "||") && !StartsWith(Lower(x), "www.")
    ensures SortKey("||www." + x) == Lower(x)
  {
    LowerOfMarked("||www.", x);
    assert ("||www." + Lower(x))[2..] == "www." + Lower(x);
    assert ("www." + Lower(x))[4..] == Lower(x);
  }

  /** The markers are ignored: an entry whose lower-cased form starts with
      neither `||` nor `www.` has that lower-cased form as its key, with or
      without a leading `||`, `www.` or `||www.`. */
  lemma SortKeyIgnoresMarkers(x: string)
    requires !StartsWith(Lower(x), "||") && !StartsWith(Lower(x), "www.")
    ensures SortKey(x) == Lower(x)
    ensures SortKey("||" + x) == Lower(x)
    ensures SortKey("www." + x) == Lower(x)
    ensures SortKey("||www." + x) == Lower(x)
  {
    SortKeyUnmarked(x);
    SortKeyBars(x);
    SortKeyWww(x);
    SortKeyBarsWww(x);
  }

  /** The entries the grouping loop drops for an empty key are exactly
      those that lower-case to `""`, `||`, `www.` or `||www.`. */
  lemma SortKeyEmpty(x: string)
    ensures !Routable(x) <==> Lower(x) in {"", "||", "www.", "||www."}
  {
    var low := Lower(x);
    if low in {"", "||", "www.", "||www."} {
      if low == "||" || low == "||www." {
        assert StartsWith(low, "||") && low[2..] in {"", "www."};
      } else if low == "www." {
        assert low[0] == 'w' && low[4..] == "";
      }
    }
    if !Routable(x) {
      if StartsWith(low, "||") {
        var v := low[2..];
        assert low == "||" + v;
        if StartsWith(v, "www.") {
          assert |v| == 4 && v[..4] == "www." && v == v[..4];
          assert low == "||www.";
        } else {
          assert v == "" && low == "||";
        }
      } else if StartsWith(low, "www.") {
        assert |low| == 4 && low[..4] == "www.";
        assert low == low[..4];
      } else {
        assert low == "";
      }
    }
  }

  // -----------------------------------------------------------------------
  // The standardiser

  /** The rule form of an entry: `||` prepended unless it already starts
      with `||`, then `^` appended unless it already holds a `^` somewhere. */
  function Standardize(d: string): (r: string)
    ensures StartsWith(r, "||") && '^' in r
    ensures r == d || r == "||" + d || r == d + "^" || r == "||" + d + "^"
    ensures r == d <==> StartsWith(d, "||") && '^' in d
    ensures StartsWith(d, "||") <==> r == d || r == d + "^"
    ensures '^' in d <==> r == d || r == "||" + d
  {
    var d := if StartsWith(d, "||") then d else "||" + d;
    var d := if '^' !in d then d + "^" else d;
    assert d[..2] == "||";
    d
  }

  /** Standardising a rule twice is standardising it once. */
  lemma StandardizeIdempotent(d: string)
    ensures Standardize(Standardize(d)) == Standardize(d)
  {
  }

  /** The standardiser adds no line break. */
  lemma StandardizeNoLineBreak(d: string)
    requires NoLineBreak(d)
    ensures NoLineBreak(Standardize(d))
  {
    var r := Standardize(d);
    if r == "||" + d { assert forall i :: 2 <= i < |r| ==> r[i] == d[i - 2]; }
    if r == "||" + d + "^" { assert forall i :: 2 <= i < |r| - 1 ==> r[i] == d[i - 2]; }
  }
}
