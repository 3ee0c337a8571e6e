/** The two string steps of the reprocessing script
    (`IRT_extraction/reproc_cpCST.py`): the participant id (URSI) taken from
    a file path, and the output file name with its processing tags. */
module Reproc {
  import opened Text

  /** `get_ursi(path)`: the last path component, its part before the first
      `_`, and of that the part after the last `-`. */
  function GetUrsi(path: string): (ursi: string)
    ensures '/' !in ursi && '_' !in ursi && '-' !in ursi
    ensures var part := BeforeFirst(AfterLast(path, '/'), '_');
      && |ursi| <= |part| && ursi == part[|part| - |ursi|..]
      && ('-' !in part ==> ursi == part)
      && ('-' in part ==> |ursi| < |part| && part[|part| - |ursi| - 1] == '-')
  {
    var fname := AfterLast(path, '/');
    var part := BeforeFirst(fname, '_');
    var ursi := AfterLast(part, '-');
    assert '/' !in part by {
      PiecesKeepOut(fname, '_', '/');
    }
    assert '/' !in ursi && '_' !in ursi by {
      PiecesKeepOut(part, '-', '/');
      PiecesKeepOut(part, '-', '_');
    }
    ursi
  }

  /** For a BIDS-style name `<prefix>-<id>_<rest>` in any directory, the id
      is what comes back. */
  lemma GetUrsiOf(dir: string, name: string, prefix: string, id: string, rest: string)
    requires name == prefix + "-" + id + "_" + rest
    requires '/' !in prefix && '/' !in id && '/' !in rest
    requires '_' !in prefix && '_' !in id && '-' !in id
    ensures GetUrsi(dir + "/" + name) == id
  {
    assert '/' !in name by {
      assert name == prefix + ['-'] + id + ['_'] + rest;
    }
    assert AfterLast(dir + "/" + name, '/') == name by {
      assert dir + "/" + name == dir + ['/'] + name;
      AfterLastOf(dir, '/', name);
    }
    assert BeforeFirst(name, '_') == prefix + "-" + id by {
      assert name == (prefix + "-" + id) + ['_'] + rest;
      BeforeFirstOf(prefix + "-" + id, '_', rest);
    }
    assert AfterLast(prefix + "-" + id, '-') == id by {
      assert prefix + "-" + id == prefix + ['-'] + id;
      AfterLastOf(prefix, '-', id);
    }
  }

  /** The events file of participant M10909540, wherever it is stored. */
  lemma GetUrsiOfEventsFile(dir: string)
    ensures GetUrsi(dir + "/" + ("sub-M10909540_" + "ses-MOBI1A_task-CPT_run-1_events.csv")) == "M10909540"
  {
    var rest := "ses-MOBI1A_task-CPT_run-1_events.csv";
    EventsFileHead();
    assert '/' !in rest;
    GetUrsiOf(dir, "sub-M10909540_" + rest, "sub", "M10909540", rest);
  }

  /** The pieces of that file name. */
  lemma EventsFileHead()
    ensures "sub-M10909540_" == "sub" + "-" + "M10909540" + "_"
  {
  }

  /** The output name: the input name without any `.csv`, then `_detrend`
      and `_zscale` for the processing steps applied, then `.csv`. */
  function TaggedName(name: string, detrend: bool, zscale: bool): (r: string)
    ensures EndsWith(r, ".csv")
    ensures detrend && zscale ==> EndsWith(r, "_detrend_zscale.csv")
    ensures detrend && !zscale ==> EndsWith(r, "_detrend.csv")
    ensures !detrend && zscale ==> EndsWith(r, "_zscale.csv")
  {
    ReplaceAll(name, ".csv", "") + (if detrend then "_detrend" else "") + (if zscale then "_zscale" else "") + ".csv"
  }

  /** The tagging in `process_file`, built up with `+=`. */
  method TagFileName(name: string, detrend: bool, zscale: bool) returns (filename: string)
    ensures filename == TaggedName(name, detrend, zscale)
  {
    filename := ReplaceAll(name, ".csv", "");
    if detrend {
      filename := filename + "_detrend";
    }
    if zscale {
      filename := filename + "_zscale";
    }
    filename := filename + ".csv";
  }

  /** Without tags, a name `x.csv` whose stem has no `.csv` of its own comes
      back unchanged. */
  lemma UntaggedNameUnchanged(x: string)
    requires !Contains(x, ".csv")
    ensures TaggedName(x + ".csv", false, false) == x + ".csv"
  {
    var s := x + ".csv";
    forall i: nat | i < |x| ensures !MatchAt(s, ".csv", i) {
      if i + 4 <= |x| {
        assert x[i..i + 4] == s[i..i + 4];
        assert !MatchAt(x, ".csv", i);
      } else if i + 4 <= |s| {
        assert s[i..i + 4][|x| - i] == '.';
        assert ".csv"[|x| - i] != '.';
      }
    }
    ReplaceAllSkips(s, |x|, ".csv", "");
    assert s[..|x|] == x && s[|x|..] == ".csv";
    assert ".csv"[..4] == ".csv";
    assert ReplaceAll(".csv", ".csv", "") == "" + ReplaceAll("", ".csv", "");
  }
}
