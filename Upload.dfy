/** The name the upload route gives the workbook (app.py:71): the upload's
    name with `.csv` replaced by `_processed.xlsx`. */
module Upload {
  import Text

  const EXTENSION := ".csv"
  const SUFFIX := "_processed.xlsx"
  /** The folder uploads and workbooks are kept in. */
  const UPLOADS := "uploads"

  /** The output name, as written: every `.csv`, left to right, becomes
      `_processed.xlsx`. */
  function OutputName(filename: string): string
  {
    Text.Replace(filename, EXTENSION, SUFFIX)
  }

  /** No `.csv` starts at a character other than a dot. */
  lemma {:induction false} SkipNonDot(t: string)
    requires t != [] && t[0] != '.'
    ensures Text.Occurrences(t, EXTENSION) == Text.Occurrences(t[1..], EXTENSION)
  {
    if |t| >= 4 {
      assert t[..4][0] != EXTENSION[0];
    }
  }

  /** Right after a `.csv` no other `.csv` starts within its last three
      characters: the pattern cannot overlap itself. */
  lemma {:induction false} NoOverlap(s: string)
    requires |s| >= 4 && s[..4] == EXTENSION
    ensures Text.Occurrences(s[1..], EXTENSION) == Text.Occurrences(s[4..], EXTENSION)
  {
    assert s[1] == s[..4][1] == 'c' && s[2] == s[..4][2] == 's' && s[3] == s[..4][3] == 'v';
    SkipNonDot(s[1..]);
    assert s[1..][1..] == s[2..];
    SkipNonDot(s[2..]);
    assert s[2..][1..] == s[3..];
    SkipNonDot(s[3..]);
    assert s[3..][1..] == s[4..];
  }

  /** Each `.csv` lengthens the name by eleven characters. */
  lemma {:induction false} OutputNameLength(filename: string)
    ensures |OutputName(filename)| == |filename| + 11 * Text.Occurrences(filename, EXTENSION)
  {
    if |filename| >= 4 {
      if filename[..4] == EXTENSION {
        NoOverlap(filename);
        OutputNameLength(filename[4..]);
      } else {
        OutputNameLength(filename[1..]);
      }
    }
  }

  /** The name is kept exactly when it holds no `.csv`. */
  lemma {:induction false} OutputNameUnchanged(filename: string)
    ensures OutputName(filename) == filename <==> Text.Occurrences(filename, EXTENSION) == 0
  {
    OutputNameLength(filename);
    if Text.Occurrences(filename, EXTENSION) == 0 {
      Text.ReplaceWithoutOccurrence(filename, EXTENSION, SUFFIX);
    }
  }

  /** A name that starts with a character and holds no `.csv` before
      its `.csv` does not start with `.csv`. */
  lemma {:induction false} NotAtStart(before: string, after: string)
    requires before != [] && Text.Occurrences(before, EXTENSION) == 0
    ensures (before + EXTENSION + after)[..4] != EXTENSION
  {
    var s := before + EXTENSION + after;
    if |before| >= 4 {
      assert s[..4] == before[..4];
    } else {
      assert s[..4][|before|] == '.' != EXTENSION[|before|];
    }
  }

  /** A `.csv` after a stretch without one becomes `_processed.xlsx`, and
      the rest of the name is rewritten the same way. */
  lemma {:induction false} OutputNameAt(before: string, after: string)
    requires Text.Occurrences(before, EXTENSION) == 0
    ensures OutputName(before + EXTENSION + after) == before + SUFFIX + OutputName(after)
  {
    var s := before + EXTENSION + after;
    if before == [] {
      assert s[..4] == EXTENSION && s[4..] == after;
    } else {
      NotAtStart(before, after);
      OccurrencesTail(before);
      assert s[1..] == before[1..] + EXTENSION + after;
      OutputNameSkip(s);
      calc {
        OutputName(s);
        [s[0]] + OutputName(before[1..] + EXTENSION + after);
        { OutputNameAt(before[1..], after); }
        [before[0]] + (before[1..] + SUFFIX + OutputName(after));
        { assert [before[0]] + before[1..] == before; }
        before + SUFFIX + OutputName(after);
      }
    }
  }

  /** Dropping the first character of a name without `.csv` leaves a name
      without `.csv`. */
  lemma {:induction false} OccurrencesTail(s: string)
    requires s != [] && Text.Occurrences(s, EXTENSION) == 0
    ensures Text.Occurrences(s[1..], EXTENSION) == 0
  {
    if |s| >= 4 {
      assert Text.Occurrences(s, EXTENSION)
          == (if s[..4] == EXTENSION then 1 else 0) + Text.Occurrences(s[1..], EXTENSION);
    }
  }

  /** A name that does not start with `.csv` keeps its first character. */
  lemma {:induction false} OutputNameSkip(s: string)
    requires |s| >= 4 && s[..4] != EXTENSION
    ensures OutputName(s) == [s[0]] + OutputName(s[1..])
  {
  }

  /** The usual upload: `report.csv` is written as `report_processed.xlsx`. */
  lemma {:induction false} OutputNameOfCsv(base: string)
    requires Text.Occurrences(base, EXTENSION) == 0
    ensures OutputName(base + EXTENSION) == base + SUFFIX
  {
    OutputNameAt(base, []);
    assert base + EXTENSION + [] == base + EXTENSION;
    assert OutputName([]) == [];
  }

  /** The path a file named `name` has in the uploads folder, as
      `os.path.join` builds it for a name without a separator (app.py:62, 72). */
  function InUploads(name: string): string
  {
    UPLOADS + "/" + name
  }

  /** As written, an upload named `report.CSV` keeps its name, so the path
      the workbook is to be written to is the path the upload was saved
      at. */
  lemma UpperCaseExtensionKeepsName()
    ensures OutputName("report.CSV") == "report.CSV"
    ensures InUploads(OutputName("report.CSV")) == InUploads("report.CSV")
  {
    var f := "report.CSV";
    assert forall i :: 0 <= i < |f| ==> f[i] != 'c';
    NoOccurrenceWithout(f);
    OutputNameUnchanged(f);
  }

  /** A name without a lower-case `c` holds no `.csv`. */
  lemma {:induction false} NoOccurrenceWithout(s: string)
    requires forall i :: 0 <= i < |s| ==> s[i] != 'c'
    ensures Text.Occurrences(s, EXTENSION) == 0
  {
    if |s| >= 4 {
      assert s[..4][1] != EXTENSION[1];
      NoOccurrenceWithout(s[1..]);
    }
  }

  function EndsWith(s: string, suffix: string): bool
  {
    |suffix| <= |s| && s[|s| - |suffix|..] == suffix
  }

  /** The name the route evidently means to produce: the upload's name with
      a trailing `.csv` dropped, followed by `_processed.xlsx`. It never
      coincides with the upload's name. */
  function ProcessedName(filename: string): (out: string)
    ensures EndsWith(out, SUFFIX)
    ensures out != filename
  {
    var stem := if EndsWith(filename, EXTENSION) then filename[..|filename| - 4] else filename;
    assert |stem + SUFFIX| > |filename|;
    stem + SUFFIX
  }

  /** On the names the upload form asks for (one `.csv`, at the end) the
      corrected name is the one the route produces. */
  lemma {:induction false} ProcessedNameAgrees(base: string)
    requires Text.Occurrences(base, EXTENSION) == 0
    ensures ProcessedName(base + EXTENSION) == OutputName(base + EXTENSION)
  {
    OutputNameOfCsv(base);
    var f := base + EXTENSION;
    assert f[|f| - 4..] == EXTENSION;
    assert f[..|f| - 4] == base;
  }
}
