/** `process_abp_list` from the moment its input file has been read until
    the text handed to `f.write`: load the entries, de-duplicate and bucket
    them, format the buckets and join the lines. */
module Cleaner {
  import opened Text
  import opened Loader
  import opened Normalizer
  import opened Grouper
  import opened Formatter

  /** The document the cleaner writes when the set of entries yields them in
      `order`. */
  function Cleaned(order: seq<string>): string {
    Document(Buckets(Survivors(order)))
  }

  /** The cleaner run on the contents `text` of the input file. It returns
      the written document and the count the success message reports; the
      order in which it visited the set of entries is returned alongside. */
  method ProcessAbpList(text: string) returns (document: string, processed: nat, ghost order: seq<string>)
    ensures IsEnumeration(order, ReadEntries(text))
    ensures document == Cleaned(order)
    ensures processed == |Normalized(ReadEntries(text))|
  {
    var rawLines := ReadEntries(text);
    var visit := Enumerate(rawLines);
    order := visit;
    var groupedDomains, seenNormalized := GroupDomains(visit);
    var outputLines := FormatGroups(groupedDomains);
    document := Join(outputLines);
    processed := |seenNormalized|;
  }

  // -----------------------------------------------------------------------
  // The whole run

  /** The reported count is the number of entries that survive
      de-duplication, including those later dropped for an empty key. */
  lemma ProcessedCount(text: string, order: seq<string>)
    requires IsEnumeration(order, ReadEntries(text))
    ensures |Normalized(ReadEntries(text))| == |Survivors(order)|
  {
    SurvivorsCount(order);
  }

  /** The document is empty exactly when no entry has a non-empty key. */
  lemma CleanedEmpty(order: seq<string>)
    ensures Cleaned(order) == [] <==> forall x :: x in Elements(order) ==> !Routable(x)
  {
    var g := Buckets(Survivors(order));
    DocumentEmpty(g);
    BucketKeysOrderIndependent(order);
    forall x | x in Elements(order) && Routable(x) ensures Letter(x) in g {
    }
    if forall x :: x in Elements(order) ==> !Routable(x) {
      assert g.Keys == {};
      assert g == map[];
    }
  }

  /** The buckets announced by the document, and their order, do not depend
      on the order in which the set of entries is visited. */
  lemma HeadersOrderIndependent(entries: set<string>, order1: seq<string>, order2: seq<string>)
    requires IsEnumeration(order1, entries) && IsEnumeration(order2, entries)
    ensures Headers(OutputLines(Buckets(Survivors(order1)))) == Headers(OutputLines(Buckets(Survivors(order2))))
  {
    BucketKeysOrderIndependent(order1);
    BucketKeysOrderIndependent(order2);
    OutputHeaders(Buckets(Survivors(order1)));
    OutputHeaders(Buckets(Survivors(order2)));
  }

  /** A non-empty document ends with a line break, and its lines are the
      output lines. */
  lemma CleanedLines(text: string, order: seq<string>)
    requires IsEnumeration(order, ReadEntries(text))
    requires Cleaned(order) != []
    ensures SplitLines(Cleaned(order)) == OutputLines(Buckets(Survivors(order)))
    ensures Cleaned(order)[|Cleaned(order)| - 1] == '\n'
  {
    var s := Survivors(order);
    var g := Buckets(s);
    GroupedPartition(order);
    forall k | k in g ensures !IsLineBreak(k) && LinesNoBreak(g[k]) {
      var e :| e in s && Routable(e) && Letter(e) == k;
      assert e in Elements(order);
      LetterNoLineBreak(e);
      forall j | 0 <= j < |g[k]| ensures NoLineBreak(g[k][j]) {
        assert g[k][j] in g[k];
        assert g[k][j] in Elements(order);
      }
    }
    DocumentEmpty(g);
    DocumentLines(g);
  }

  // -----------------------------------------------------------------------
  // Worked cases

  /** An entry that already is a rule is written unchanged, and a bare
      domain gains both markers. */
  lemma StandardizeExamples()
    ensures Standardize("||already.formatted^") == "||already.formatted^"
    ensures Standardize("foo.net") == "||foo.net^"
  {
    assert StartsWith("||already.formatted^", "||");
    assert "||already.formatted^"[19] == '^';
    assert "foo.net"[0] == 'f';
    assert "||foo.net"[..2] == "||";
  }

  /** The de-duplication goes by lower-cased form only, not by sort key:
      an entry and its `www.` variant both survive, as different entries of
      the same bucket, whichever order the set yields them in. */
  lemma WwwVariantKept(order: seq<string>, x: string, y: string)
    requires x in order && y in order
    requires Lower(x) != [] && !StartsWith(Lower(x), "||") && !StartsWith(Lower(x), "www.")
    requires Lower(y) == "www." + Lower(x)
    ensures Routable(x) && Routable(y) && Letter(x) == Letter(y)
    ensures var g := Buckets(Survivors(order));
      && Letter(x) in g
      && (exists e :: e in g[Letter(x)] && Lower(e) == Lower(x))
      && (exists e :: e in g[Letter(x)] && Lower(e) == Lower(y))
      && Lower(x) != Lower(y)
  {
    SortKeyIgnoresMarkers(x);
    LowerOfMarked("www.", x);
    SortKeyOfLower(y, "www." + x);
    EveryFormRepresented(order);
  }

  /** Entries whose key is empty, `www.` and `||` among them, are counted
      but written nowhere: a file of such entries gives an empty document
      and a non-zero count. */
  lemma MarkerOnlyDropped(order: seq<string>)
    requires forall x :: x in Elements(order) ==> Lower(x) in {"", "||", "www.", "||www."}
    ensures Cleaned(order) == []
    ensures order != [] ==> |Survivors(order)| > 0
  {
    forall x | x in Elements(order) ensures !Routable(x) {
      SortKeyEmpty(x);
    }
    CleanedEmpty(order);
    if order != [] {
      SurvivorsCover(order);
      assert Lower(order[0]) in Normalized(Elements(order));
    }
  }

  /** An empty input file gives an empty document. */
  lemma EmptyInput(order: seq<string>)
    requires IsEnumeration(order, ReadEntries(""))
    ensures Cleaned(order) == []
  {
    assert Elements(order) == {} by {
      assert SplitLines("") == [""];
      assert Load([""]) == {};
    }
    CleanedEmpty(order);
  }

  lemma LoadSingleForm(lines: seq<string>)
    requires lines != [] && Strip(lines[0]) != []
    requires forall i :: 0 <= i < |lines| ==> Lower(Strip(lines[i])) == Lower(Strip(lines[0]))
    ensures Normalized(Load(lines)) == {Lower(Strip(lines[0]))}
  {
    var form := Lower(Strip(lines[0]));
    LoadOneForm(lines, form);
    assert Strip(lines[0]) in Load(lines);
    NormalizedOneForm(Load(lines), Strip(lines[0]), form);
  }

  lemma NormalizedOneForm(raw: set<string>, e: string, form: string)
    requires e in raw && forall x :: x in raw ==> Lower(x) == form
    ensures Normalized(raw) == {form}
  {
    assert Lower(e) in Normalized(raw);
  }

  lemma LoadOneForm(lines: seq<string>, form: string)
    requires forall i :: 0 <= i < |lines| ==> Lower(Strip(lines[i])) == form
    ensures forall x :: x in Load(lines) ==> Lower(x) == form
  {
    forall x | x in Load(lines) ensures Lower(x) == form {
      var l :| l in lines && Strip(l) == x;
      var i :| 0 <= i < |lines| && lines[i] == l;
    }
  }

  /** Lines that differ only in surrounding whitespace or in case leave a
      single survivor and a count of one. */
  lemma VariantsCollapse(lines: seq<string>, order: seq<string>)
    requires lines != [] && Strip(lines[0]) != []
    requires forall i :: 0 <= i < |lines| ==> Lower(Strip(lines[i])) == Lower(Strip(lines[0]))
    requires IsEnumeration(order, Load(lines))
    ensures |Normalized(Load(lines))| == 1
    ensures |Survivors(order)| == 1
  {
    LoadSingleForm(lines);
    SurvivorsCount(order);
  }
}
