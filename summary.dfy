/**
 * The text written to COMPACTION_SUMMARY.md, as the sequence of strings the
 * script passes to `f.write`, in order. The file itself is not modelled.
 */
module Summary {
  import opened Paths

  /** At most this many removed paths are listed (`removed[:100]`). */
  const ListLimit: nat := 100

  const Title: string := "# CATHEDRAL Compaction Summary\n\n"
  const ListHeading: string := "## Files Removed\n\n"

  predicate IsDigit(c: char)
  {
    '0' <= c <= '9'
  }

  /** The number a string of decimal digits denotes. */
  function DecimalValue(s: string): nat
    requires forall i :: 0 <= i < |s| ==> IsDigit(s[i])
  {
    if |s| == 0 then 0
    else
      assert IsDigit(s[|s| - 1]);
      10 * DecimalValue(s[..|s| - 1]) + (s[|s| - 1] as int - '0' as int)
  }

  /** `f"{n}"`: the decimal digits of `n`, without leading zeros. */
  function NatToString(n: nat): (s: string)
    ensures |s| > 0 && forall i :: 0 <= i < |s| ==> IsDigit(s[i])
    ensures |s| > 1 ==> s[0] != '0'
    ensures DecimalValue(s) == n
  {
    var last := ['0' + (n % 10) as char];
    if n < 10 then last
    else
      var s := NatToString(n / 10) + last;
      assert s[..|s| - 1] == NatToString(n / 10);
      s
  }

  function Min(a: nat, b: nat): nat
  {
    if a <= b then a else b
  }

  /** The five fixed writes before the listing. */
  function Header(uniqueFiles: nat, removedCount: nat): seq<string>
  {
    [ Title,
      "- Total unique files: " + NatToString(uniqueFiles) + "\n",
      "- Duplicates removed: " + NatToString(removedCount) + "\n",
      "- Space optimization: " + NatToString(removedCount) + " redundant files eliminated\n\n",
      ListHeading ]
  }

  /** `f.write(f"- {r}\n")`. */
  function Line(p: Path): string
  {
    "- " + p + "\n"
  }

  /** The listing lines for `paths`, in order. */
  function Listing(paths: seq<Path>): (lines: seq<string>)
    ensures |lines| == |paths|
    ensures forall i :: 0 <= i < |paths| ==> lines[i] == Line(paths[i])
  {
    if |paths| == 0 then [] else Listing(paths[..|paths| - 1]) + [Line(paths[|paths| - 1])]
  }

  /** The line that counts the removed paths left out of the listing, when there are any. */
  function Overflow(removedCount: nat): seq<string>
  {
    if removedCount > ListLimit then ["\n...and " + NatToString(removedCount - ListLimit) + " more files\n"] else []
  }

  /** Everything written to the summary file. */
  function SummaryText(uniqueFiles: nat, removed: seq<Path>): seq<string>
  {
    Header(uniqueFiles, |removed|) + Listing(removed[..Min(ListLimit, |removed|)]) + Overflow(|removed|)
  }

  /** Lines 74-82 of the script: the writes to the summary file, in order. */
  method WriteSummary(uniqueFiles: nat, removed: seq<Path>) returns (written: seq<string>)
    ensures written == SummaryText(uniqueFiles, removed)
  {
    written := Header(uniqueFiles, |removed|);
    var shown := removed[..Min(ListLimit, |removed|)];
    for i := 0 to |shown|
      invariant written == Header(uniqueFiles, |removed|) + Listing(shown[..i])
    {
      assert shown[..i + 1][..i] == shown[..i];
      written := written + [Line(shown[i])];
    }
    assert shown[..|shown|] == shown;
    if |removed| > ListLimit {
      written := written + ["\n...and " + NatToString(|removed| - ListLimit) + " more files\n"];
    }
  }

  /**
   * The summary starts with the five header strings (title, the two counts,
   * the space line, the heading), lists the first `min(100, len(removed))`
   * removed paths in order, one line each, and ends with an
   * "...and N more files" line, N being the number left out, exactly when
   * more than 100 paths were removed.
   */
  lemma SummaryShape(uniqueFiles: nat, removed: seq<Path>)
    ensures var text := SummaryText(uniqueFiles, removed);
      var shown := Min(ListLimit, |removed|);
      && text[..5] == Header(uniqueFiles, |removed|)
      && |text| == 5 + shown + (if |removed| > ListLimit then 1 else 0)
      && (forall i :: 0 <= i < shown ==> text[5 + i] == Line(removed[i]))
      && (|removed| > ListLimit <==> |text| == 5 + ListLimit + 1)
      && (|removed| > ListLimit ==> text[|text| - 1] == "\n...and " + NatToString(|removed| - ListLimit) + " more files\n")
  {
    var shown := Min(ListLimit, |removed|);
    var header, listing := Header(uniqueFiles, |removed|), Listing(removed[..shown]);
    var text := header + listing + Overflow(|removed|);
    assert |header| == 5;
    assert text[..5] == header;
    forall i | 0 <= i < shown
      ensures text[5 + i] == Line(removed[i])
    {
      assert text[5 + i] == listing[i];
    }
  }

  /** A path has a line in the listing exactly when it is among the first 100 removed. */
  lemma ListedExactly(uniqueFiles: nat, removed: seq<Path>, p: Path)
    ensures var text := SummaryText(uniqueFiles, removed);
      Line(p) in text[5..5 + Min(ListLimit, |removed|)] <==> p in removed[..Min(ListLimit, |removed|)]
  {
    var text := SummaryText(uniqueFiles, removed);
    var shown := removed[..Min(ListLimit, |removed|)];
    assert text[5..5 + |shown|] == Listing(shown);
    if Line(p) in Listing(shown) {
      var i :| 0 <= i < |shown| && Listing(shown)[i] == Line(p);
      assert Line(p)[2..|Line(p)| - 1] == p;
      assert Line(shown[i])[2..|Line(shown[i])| - 1] == shown[i];
    }
    if p in shown {
      var i :| 0 <= i < |shown| && shown[i] == p;
      assert Listing(shown)[i] == Line(p);
    }
  }

  /** 150 removed paths: the first 100 are listed and the last line reads "...and 50 more files". */
  lemma HundredFiftyRemoved(uniqueFiles: nat, removed: seq<Path>)
    requires |removed| == 150
    ensures var text := SummaryText(uniqueFiles, removed);
      && |text| == 106
      && (forall i :: 0 <= i < 100 ==> text[5 + i] == Line(removed[i]))
      && text[105] == "\n...and 50 more files\n"
  {
    SummaryShape(uniqueFiles, removed);
    assert NatToString(5) == "5";
    assert NatToString(50) == "50";
  }

}
