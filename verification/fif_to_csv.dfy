/** The FIF-to-CSV converter (`fif_to_csv.py`): where the CSV file goes, and
    how the recording's annotations are laid into the `annot` column of the
    sample table. Paths follow POSIX `os.path` (separator `/`). */
module FifToCsv {
  import opened Wrappers
  import opened Text

  // ---------------------------------------------------------------------
  // os.path on POSIX

  /** `os.path.basename(p)`: everything after the last `/`. */
  function BaseName(p: string): (r: string)
    ensures '/' !in r
    ensures |r| <= |p| && r == p[|p| - |r|..]
  {
    AfterLast(p, '/')
  }

  /** The part of `p` up to and including its last `/`. */
  function Head(p: string): (h: string)
    ensures h + BaseName(p) == p
    ensures h == [] <==> '/' !in p
    ensures h != [] ==> h[|h| - 1] == '/'
  {
    var h := p[..|p| - |BaseName(p)|];
    assert h + BaseName(p) == p;
    h
  }

  predicate AllSlashes(s: string) {
    forall i :: 0 <= i < |s| ==> s[i] == '/'
  }

  /** `s.rstrip('/')`. */
  function RStripSlashes(s: string): (r: string)
    ensures |r| <= |s| && r == s[..|r|]
    ensures r == [] || r[|r| - 1] != '/'
    ensures forall i :: |r| <= i < |s| ==> s[i] == '/'
  {
    if s != [] && s[|s| - 1] == '/' then RStripSlashes(s[..|s| - 1]) else s
  }

  /** `os.path.dirname(p)`: the head without its trailing slashes, unless
      the head is made of slashes only. */
  function DirName(p: string): (d: string)
    ensures d == [] <==> '/' !in p
    ensures d != [] && !AllSlashes(d) ==> d[|d| - 1] != '/'
  {
    var h := Head(p);
    if h != [] && !AllSlashes(h) then
      var r := RStripSlashes(h);
      assert r != [] by {
        var k :| 0 <= k < |h| && h[k] != '/';
      }
      r
    else h
  }

  /** `os.path.join(a, b)`: an absolute `b` replaces `a`; otherwise a `/`
      goes between them unless `a` is empty or already ends with one. */
  function PosixJoin(a: string, b: string): (r: string)
    ensures EndsWith(r, b)
    ensures (b == [] || b[0] != '/') ==> |a| <= |r| && r[..|a|] == a
  {
    if b != [] && b[0] == '/' then b
    else if a == [] || a[|a| - 1] == '/' then a + b
    else a + "/" + b
  }

  // ---------------------------------------------------------------------
  // The destination path (lines 24-29)

  /** The CSV file name: the FIF file's base name with every `.fif`
      replaced by `.csv`. */
  function CsvName(fifPath: string): (name: string)
    ensures '/' !in name
  {
    var base := BaseName(fifPath);
    assert '/' !in ".csv" by {
      assert ".csv" == ['.', 'c', 's', 'v'];
    }
    ReplaceAllKeepsOut(base, ".fif", ".csv", '/');
    ReplaceAll(base, ".fif", ".csv")
  }

  /** The usual case: `<dir>/<x>.fif` becomes `<x>.csv`. */
  lemma CsvNameOfFif(dir: string, x: string)
    requires '/' !in x && !Contains(x, ".fif")
    ensures CsvName(dir + "/" + (x + ".fif")) == x + ".csv"
  {
    var s := x + ".fif";
    assert '/' !in s by {
      assert s[|x|..] == ".fif";
    }
    assert dir + "/" + s == dir + ['/'] + s;
    AfterLastOf(dir, '/', s);
    FifSuffixReplaced(x);
  }

  /** Only the final `.fif` of `x + ".fif"` is replaced. */
  lemma FifSuffixReplaced(x: string)
    requires !Contains(x, ".fif")
    ensures ReplaceAll(x + ".fif", ".fif", ".csv") == x + ".csv"
  {
    var s := x + ".fif";
    forall i: nat | i < |x| ensures !MatchAt(s, ".fif", i) {
      if i + 4 <= |x| {
        assert x[i..i + 4] == s[i..i + 4];
        assert !MatchAt(x, ".fif", i);
      } else if i + 4 <= |s| {
        assert s[i..i + 4][|x| - i] == '.';
        assert ".fif"[|x| - i] != '.';
      }
    }
    ReplaceAllSkips(s, |x|, ".fif", ".csv");
    assert s[..|x|] == x && s[|x|..] == ".fif";
    assert ".fif"[..4] == ".fif";
    assert ReplaceAll(".fif", ".fif", ".csv") == ".csv" + ReplaceAll("", ".fif", ".csv");
  }

  /** A base name without `.fif` is kept as it is. */
  lemma CsvNameWithoutFif(fifPath: string)
    requires !Contains(BaseName(fifPath), ".fif")
    ensures CsvName(fifPath) == BaseName(fifPath)
  {
    ReplaceAllAbsent(BaseName(fifPath), ".fif", ".csv");
  }

  /** Stripping the slashes that were just added gives the same result. */
  lemma {:induction false} RStripSlashesAppend(x: string)
    ensures RStripSlashes(x + "/") == RStripSlashes(x)
  {
    assert (x + "/")[..|x|] == x;
  }

  /** A file name joined to the directory of `p` lies in that directory. */
  lemma DirNameOfJoin(p: string, name: string)
    requires '/' !in name
    ensures BaseName(PosixJoin(DirName(p), name)) == name
    ensures DirName(PosixJoin(DirName(p), name)) == DirName(p)
  {
    var h := Head(p);
    var d := DirName(p);
    if name != [] {
      assert name[0] in name;
    }
    if h == [] {
      assert PosixJoin(d, name) == name;
    } else if AllSlashes(h) {
      assert PosixJoin(d, name) == h + name;
      JoinUnderSlashes(h, name);
    } else {
      assert PosixJoin(d, name) == d + "/" + name;
      JoinUnderDirectory(d, name);
    }
  }

  /** A file name after a head of slashes only. */
  lemma JoinUnderSlashes(h: string, name: string)
    requires h != [] && AllSlashes(h) && '/' !in name
    ensures BaseName(h + name) == name && DirName(h + name) == h
  {
    var h0 := h[..|h| - 1];
    assert h == h0 + ['/'];
    assert h + name == h0 + ['/'] + name;
    AfterLastOf(h0, '/', name);
    assert Head(h + name) == h;
  }

  /** A file name after a directory that does not end with a slash. */
  lemma JoinUnderDirectory(d: string, name: string)
    requires d != [] && d[|d| - 1] != '/' && '/' !in name
    ensures BaseName(d + "/" + name) == name && DirName(d + "/" + name) == d
  {
    var out := d + "/" + name;
    assert out == d + ['/'] + name;
    AfterLastOf(d, '/', name);
    assert Head(out) == d + "/";
    assert !AllSlashes(d + "/") by {
      assert (d + "/")[|d| - 1] != '/';
    }
    RStripSlashesAppend(d);
  }

  /** The output path of the converter: under the destination folder when
      one is given (a `/` added if it lacks one), else next to the FIF file;
      the file name is `CsvName`. */
  method CsvDestination(fifPath: string, csvDest: string) returns (csvPath: string)
    ensures BaseName(csvPath) == CsvName(fifPath)
    ensures csvDest != [] ==> csvPath == (if EndsWith(csvDest, "/") then csvDest else csvDest + "/") + CsvName(fifPath)
    ensures csvDest == [] ==> DirName(csvPath) == DirName(fifPath)
  {
    var dest := csvDest;
    var name := ReplaceAll(BaseName(fifPath), ".fif", ".csv");
    assert name == CsvName(fifPath);
    if dest != [] {
      if !EndsWith(dest, "/") {
        dest := dest + "/";
      }
      csvPath := PosixJoin(dest, name);
      if name != [] {
        assert name[0] in name;
      }
      assert csvPath == dest + name;
      assert dest == dest[..|dest| - 1] + ['/'];
      AfterLastOf(dest[..|dest| - 1], '/', name);
    } else {
      DirNameOfJoin(fifPath, name);
      csvPath := PosixJoin(DirName(fifPath), name);
    }
  }

  // ---------------------------------------------------------------------
  // The annotation column (lines 37-48)

  /** `int(x)` on a float: truncation toward zero. */
  function Trunc(x: real): (r: int)
    ensures x >= 0.0 ==> r >= 0 && r as real <= x < r as real + 1.0
    ensures x < 0.0 ==> r <= 0 && r as real - 1.0 < x <= r as real
  {
    if x >= 0.0 then x.Floor else -((-x).Floor)
  }

  /** One entry of the recording's annotation list. */
  datatype Annotation = Annotation(onset: real, description: string)

  /** The row an annotation is aimed at: `int(onset * sfreq)`. */
  function RowOf(a: Annotation, sfreq: real): int {
    Trunc(a.onset * sfreq)
  }

  predicate IsSync(a: Annotation) {
    Contains(a.description, "Sync")
  }

  /** The `annot` column of the table: one entry per sample row (`None` for
      NaN), and the rows `df.at` appends when it is given a label outside
      `0 .. rows - 1`, each with its annotation. The table's length is the
      number of sample rows plus the number of appended rows. */
  datatype AnnotColumn = AnnotColumn(column: seq<Option<string>>, appended: map<int, string>)
  {
    function Length(): nat {
      |column| + |appended|
    }
  }

  /** One pass of the loop body: a `Sync` annotation is skipped; any other
      is written at its row when that row is below the table's length. A
      label that is not a sample row adds a row (or rewrites one added
      before). */
  function Place(c: AnnotColumn, a: Annotation, sfreq: real): (r: AnnotColumn)
    ensures |r.column| == |c.column|
  {
    var idx := RowOf(a, sfreq);
    if IsSync(a) || idx >= c.Length() then c
    else if 0 <= idx < |c.column| then c.(column := c.column[idx := Some(a.description)])
    else c.(appended := c.appended[idx := a.description])
  }

  /** The column after the loop over `anns`, starting from all NaN. */
  function PlaceAll(rows: nat, anns: seq<Annotation>, sfreq: real): (r: AnnotColumn)
    ensures |r.column| == rows
    ensures forall l :: l in r.appended ==> l < 0 || l >= rows
  {
    if anns == [] then AnnotColumn(seq(rows, _ => None), map[])
    else Place(PlaceAll(rows, anns[..|anns| - 1], sfreq), anns[|anns| - 1], sfreq)
  }

  /** The description of the last non-`Sync` annotation aimed at sample row
      `k`, if any. */
  function LastWrite(anns: seq<Annotation>, sfreq: real, k: int): (r: Option<string>)
    ensures r.Some? ==> exists i :: 0 <= i < |anns| && !IsSync(anns[i]) && RowOf(anns[i], sfreq) == k && anns[i].description == r.value
    ensures r.None? ==> forall i :: 0 <= i < |anns| ==> IsSync(anns[i]) || RowOf(anns[i], sfreq) != k
  {
    if anns == [] then None
    else
      var a := anns[|anns| - 1];
      if !IsSync(a) && RowOf(a, sfreq) == k then Some(a.description)
      else
        var r := LastWrite(anns[..|anns| - 1], sfreq, k);
        assert forall i :: 0 <= i < |anns| - 1 ==> anns[..|anns| - 1][i] == anns[i];
        r
  }

  /** Every sample row ends up holding the description of the last
      non-`Sync` annotation aimed at it, and stays NaN when there is none:
      a later annotation overwrites an earlier one. Row bounds never stop a
      write to a sample row, since the table never shrinks. */
  lemma {:induction false} PlaceAllLastWrite(rows: nat, anns: seq<Annotation>, sfreq: real, k: nat)
    requires k < rows
    ensures PlaceAll(rows, anns, sfreq).column[k] == LastWrite(anns, sfreq, k)
  {
    if anns != [] {
      PlaceAllLastWrite(rows, anns[..|anns| - 1], sfreq, k);
    }
  }

  lemma PlaceAllStep(rows: nat, anns: seq<Annotation>, j: nat, sfreq: real)
    requires j < |anns|
    ensures PlaceAll(rows, anns[..j + 1], sfreq) == Place(PlaceAll(rows, anns[..j], sfreq), anns[j], sfreq)
  {
    assert anns[..j + 1][..j] == anns[..j];
  }

  /** No entry of the column names `Sync`. */
  predicate SyncFree(c: AnnotColumn) {
    (forall k :: 0 <= k < |c.column| && c.column[k].Some? ==> !Contains(c.column[k].value, "Sync")) &&
    (forall l :: l in c.appended ==> !Contains(c.appended[l], "Sync"))
  }

  lemma PlaceKeepsSyncFree(c: AnnotColumn, a: Annotation, sfreq: real)
    requires SyncFree(c)
    ensures SyncFree(Place(c, a, sfreq))
  {
    var idx := RowOf(a, sfreq);
    if !IsSync(a) && idx < c.Length() {
      assert !Contains(a.description, "Sync");
      if 0 <= idx < |c.column| {
        var r := c.column[idx := Some(a.description)];
        forall k | 0 <= k < |r| && r[k].Some? ensures !Contains(r[k].value, "Sync") {
          if k != idx {
            assert r[k] == c.column[k];
          }
        }
      }
    }
  }

  /** No `Sync` description ever reaches the column. */
  lemma {:induction false} PlaceAllSkipsSync(rows: nat, anns: seq<Annotation>, sfreq: real)
    ensures SyncFree(PlaceAll(rows, anns, sfreq))
  {
    if anns != [] {
      PlaceAllSkipsSync(rows, anns[..|anns| - 1], sfreq);
      PlaceKeepsSyncFree(PlaceAll(rows, anns[..|anns| - 1], sfreq), anns[|anns| - 1], sfreq);
    }
  }

  /** Rows are appended only after some annotation aims at a negative row:
      until then the table has exactly the sample rows, and a row at or past
      the end is out of bounds. */
  lemma {:induction false} PlaceAllAppendsOnlyAfterNegative(rows: nat, anns: seq<Annotation>, sfreq: real)
    requires forall i :: 0 <= i < |anns| && !IsSync(anns[i]) ==> RowOf(anns[i], sfreq) >= 0
    ensures PlaceAll(rows, anns, sfreq).appended == map[]
  {
    if anns != [] {
      var init := anns[..|anns| - 1];
      assert forall i :: 0 <= i < |init| ==> init[i] == anns[i];
      PlaceAllAppendsOnlyAfterNegative(rows, init, sfreq);
    }
  }

  /** With non-negative onsets and rate, every annotation aims at a
      non-negative row. */
  lemma RowOfNonNegative(a: Annotation, sfreq: real)
    requires a.onset >= 0.0 && sfreq >= 0.0
    ensures RowOf(a, sfreq) >= 0
  {
  }

  /** The annotation loop: the `annot` column starts as NaN in every row and
      each annotation is written in place by `df.at`. */
  method PlaceAnnotations(rows: nat, anns: seq<Annotation>, sfreq: real) returns (annot: array<Option<string>>, appended: map<int, string>)
    ensures fresh(annot)
    ensures AnnotColumn(annot[..], appended) == PlaceAll(rows, anns, sfreq)
  {
    annot := new Option<string>[rows](_ => None);
    appended := map[];
    assert annot[..] == seq(rows, _ => None);
    for j := 0 to |anns|
      invariant AnnotColumn(annot[..], appended) == PlaceAll(rows, anns[..j], sfreq)
    {
      PlaceAllStep(rows, anns, j, sfreq);
      ghost var before := AnnotColumn(annot[..], appended);
      var description := anns[j].description;
      if !Contains(description, "Sync") {
        // the row index `int(onset * sfreq)`
        var idx := RowOf(anns[j], sfreq);
        assert before.Length() == annot.Length + |appended|;
        if idx < annot.Length + |appended| {
          if 0 <= idx < annot.Length {
            annot[idx] := Some(description);
            assert annot[..] == before.column[idx := Some(description)];
          } else {
            appended := appended[idx := description];
          }
        }
      }
      assert AnnotColumn(annot[..], appended) == Place(before, anns[j], sfreq);
    }
    assert anns[..|anns|] == anns;
  }
}
