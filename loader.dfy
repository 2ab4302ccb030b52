/** The loader: the set of distinct non-empty stripped lines of the input. */
module Loader {
  import opened Text

  /** `set(line.strip() for line in f if line.strip())`, for the lines
      `lines` of the input file. Lines that are whitespace only contribute
      nothing, and lines equal once stripped contribute one entry. */
  function Load(lines: seq<string>): (raw: set<string>)
    ensures forall x :: x in raw ==> x != []
    ensures forall x :: x in raw <==> x != [] && exists l :: l in lines && Strip(l) == x
  {
    set l | l in lines && Strip(l) != [] :: Strip(l)
  }

  /** The entries of a file's text: each non-empty, already stripped, and
      free of line breaks. */
  function ReadEntries(text: string): (raw: set<string>)
    ensures forall x :: x in raw ==> x != [] && Strip(x) == x && NoLineBreak(x)
  {
    var lines := SplitLines(text);
    LoadedEntriesStripped(lines);
    LoadNoLineBreak(lines);
    Load(lines)
  }

  /** Every loaded entry is already stripped: it neither starts nor ends with
      whitespace. */
  lemma LoadedEntriesStripped(lines: seq<string>)
    ensures forall x :: x in Load(lines) ==> Strip(x) == x && !IsSpace(x[0]) && !IsSpace(x[|x| - 1])
  {
    forall x | x in Load(lines)
      ensures Strip(x) == x && !IsSpace(x[0]) && !IsSpace(x[|x| - 1])
    {
      var l :| l in lines && Strip(l) == x;
      StripIdempotent(l);
    }
  }

  /** Lines without line breaks load into entries without line breaks. */
  lemma LoadNoLineBreak(lines: seq<string>)
    requires forall i :: 0 <= i < |lines| ==> NoLineBreak(lines[i])
    ensures forall x :: x in Load(lines) ==> NoLineBreak(x)
  {
    forall x | x in Load(lines) ensures NoLineBreak(x) {
      var l :| l in lines && Strip(l) == x;
      StripNoLineBreak(l);
    }
  }
}
