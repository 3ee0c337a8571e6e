/** The channel and event labelling of the EEG conversion script
    (`eeg_file_to_pkl.py`): the anatomical region and hemisphere of each
    channel name, and the crash flag of each event marker. */
module Eeg {
  import opened Wrappers
  import opened Text

  predicate IsDigit(c: char) {
    '0' <= c <= '9'
  }

  function DigitValue(c: char): (d: nat)
    requires IsDigit(c)
    ensures d < 10
  {
    c as int - '0' as int
  }

  // ---------------------------------------------------------------------
  // remove_numerals

  /** `remove_numerals(s)`: `s` without the characters `0`-`9`. */
  function RemoveNumerals(s: string): (r: string)
    ensures |r| <= |s|
    ensures forall c :: c in r <==> c in s && !IsDigit(c)
  {
    if s == [] then []
    else (if IsDigit(s[0]) then [] else [s[0]]) + RemoveNumerals(s[1..])
  }

  /** Removal works piece by piece, so the characters kept stay in their
      order. */
  lemma {:induction false} RemoveNumeralsAppend(a: string, b: string)
    ensures RemoveNumerals(a + b) == RemoveNumerals(a) + RemoveNumerals(b)
  {
    if a != [] {
      assert (a + b)[0] == a[0];
      assert (a + b)[1..] == a[1..] + b;
      RemoveNumeralsAppend(a[1..], b);
    } else {
      assert a + b == b;
    }
  }

  /** A name without digits is its own stem. */
  lemma {:induction false} RemoveNumeralsWithoutDigits(s: string)
    requires forall i :: 0 <= i < |s| ==> !IsDigit(s[i])
    ensures RemoveNumerals(s) == s
  {
    if s != [] {
      RemoveNumeralsWithoutDigits(s[1..]);
    }
  }

  // ---------------------------------------------------------------------
  // is_even

  /** The position of the first digit. */
  function FirstDigit(s: string): (r: Option<nat>)
    ensures r.None? <==> forall i :: 0 <= i < |s| ==> !IsDigit(s[i])
    ensures r.Some? ==> r.value < |s| && IsDigit(s[r.value]) && forall i :: 0 <= i < r.value ==> !IsDigit(s[i])
  {
    if s == [] then None
    else if IsDigit(s[0]) then Some(0)
    else match FirstDigit(s[1..])
      case None => None
      case Some(i) => Some(i + 1)
  }

  /** The digits from position `i` up to the first non-digit. */
  function DigitRun(s: string, i: nat): (r: string)
    requires i <= |s|
    ensures i + |r| <= |s| && r == s[i..i + |r|]
    ensures forall k :: 0 <= k < |r| ==> IsDigit(r[k])
    ensures i + |r| == |s| || !IsDigit(s[i + |r|])
    decreases |s| - i
  {
    if i < |s| && IsDigit(s[i]) then [s[i]] + DigitRun(s, i + 1) else []
  }

  /** `int(digits)`. */
  function Number(ds: string): nat
    requires forall k :: 0 <= k < |ds| ==> IsDigit(ds[k])
  {
    if ds == [] then 0 else 10 * Number(ds[..|ds| - 1]) + DigitValue(ds[|ds| - 1])
  }

  /** `is_even(s)`: whether the number formed by the first run of digits
      (`re.search(r'\d+', s)`) is even, and `None` without any digit. */
  function IsEven(s: string): (r: Option<bool>)
    ensures r.None? <==> forall i :: 0 <= i < |s| ==> !IsDigit(s[i])
  {
    match FirstDigit(s)
    case None => None
    case Some(i) => Some(Number(DigitRun(s, i)) % 2 == 0)
  }

  /** The parity of a number is the parity of its last digit. */
  lemma NumberParity(ds: string)
    requires |ds| > 0 && forall k :: 0 <= k < |ds| ==> IsDigit(ds[k])
    ensures Number(ds) % 2 == DigitValue(ds[|ds| - 1]) % 2
  {
    var m := Number(ds[..|ds| - 1]);
    var d := DigitValue(ds[|ds| - 1]);
    assert Number(ds) == 2 * (5 * m) + d;
  }

  /** `is_even` looks at the last digit of the first digit run. */
  lemma IsEvenByLastDigit(s: string)
    requires IsEven(s).Some?
    ensures var run := DigitRun(s, FirstDigit(s).value);
      |run| > 0 && (IsEven(s).value <==> DigitValue(run[|run| - 1]) % 2 == 0)
  {
    var run := DigitRun(s, FirstDigit(s).value);
    assert |run| > 0;
    NumberParity(run);
  }

  lemma IsEvenExamples()
    ensures IsEven("O2") == Some(true)
    ensures IsEven("Fp1") == Some(false)
    ensures IsEven("P10") == Some(true)
    ensures IsEven("Cz") == None
  {
    assert FirstDigit("O2") == Some(1);
    assert DigitRun("O2", 1) == "2";
    assert FirstDigit("Fp1") == Some(2);
    assert DigitRun("Fp1", 2) == "1";
    assert FirstDigit("P10") == Some(1);
    assert DigitRun("P10", 2) == "0";
    assert DigitRun("P10", 1) == "10";
    assert Number("10") == 10 * Number("1") + 0;
  }

  // ---------------------------------------------------------------------
  // anatomy_ref_dict

  /** `anatomy_ref_dict`: region names by stem, keyed first by the stem's
      length. */
  const AnatomyRef: map<nat, map<string, string>> := map[
    2 := map["Fp" := "frontopolar", "AF" := "frontal", "FC" := "fronto-central",
             "TP" := "temporal-parietal", "CP" := "centro-parietal",
             "PO" := "parieto-occipital", "FT" := "fronto-temporal"],
    1 := map["F" := "frontal", "P" := "parietal", "I" := "occipital",
             "O" := "occipital", "C" := "central"]]

  /** `anatomy_ref_dict[len(stem)][stem]`, with the KeyError of either
      lookup. */
  function AnatomyLookup(stem: string): (r: Result<string>)
    ensures r.Err? <==> !(|stem| in AnatomyRef && stem in AnatomyRef[|stem|])
    ensures r.Err? ==> r.error == KeyError
  {
    if |stem| in AnatomyRef && stem in AnatomyRef[|stem|] then Ok(AnatomyRef[|stem|][stem]) else Err(KeyError)
  }

  /** Only stems of one or two letters can be found. */
  lemma AnatomyLookupLength(stem: string)
    requires |stem| != 1 && |stem| != 2
    ensures AnatomyLookup(stem) == Err(KeyError)
  {
  }

  // ---------------------------------------------------------------------
  // anatomy_and_laterality

  /** The three lists of `dict_template['labels']['channels_info']`. */
  datatype Template = Template(channelNames: seq<string>, anatomy: seq<string>, laterality: seq<string>)

  /** The `ch_val` left by the channels `chs`: the stem of the last one that
      is not in the template and has no `z`. */
  function CarriedStem(chs: seq<string>, t: Template): Option<string>
  {
    if chs == [] then None
    else
      var ch := chs[|chs| - 1];
      if ch !in t.channelNames && 'z' !in ch then Some(RemoveNumerals(ch)) else CarriedStem(chs[..|chs| - 1], t)
  }

  /** The anatomy entry for one channel, given the `ch_val` left by the
      channels before it: the template's entry for a template channel (at its
      first occurrence); for a channel with `z`, the entry of the carried
      stem, and UnboundLocalError if there is none yet; otherwise the entry of
      the channel's own stem. */
  function AnatomyOf(ch: string, carried: Option<string>, t: Template): (r: Result<string>)
    ensures ch !in t.channelNames && 'z' !in ch ==> r == AnatomyLookup(RemoveNumerals(ch))
    ensures ch !in t.channelNames && 'z' in ch ==> r == if carried.None? then Err(UnboundLocalError) else AnatomyLookup(carried.value)
    ensures ch in t.channelNames ==>
      var i := IndexOf(t.channelNames, ch);
      r == if i < |t.anatomy| then Ok(t.anatomy[i]) else Err(IndexError)
  {
    if ch in t.channelNames then
      var i := IndexOf(t.channelNames, ch);
      if i < |t.anatomy| then Ok(t.anatomy[i]) else Err(IndexError)
    else if 'z' in ch then
      if carried.None? then Err(UnboundLocalError) else AnatomyLookup(carried.value)
    else AnatomyLookup(RemoveNumerals(ch))
  }

  /** The first loop of `anatomy_and_laterality`; the first failed lookup
      raises. */
  function Anatomies(chs: seq<string>, t: Template): (r: Result<seq<string>>)
    ensures r.Ok? ==> |r.value| == |chs|
    ensures r.Ok? ==> forall i :: 0 <= i < |chs| ==> AnatomyOf(chs[i], CarriedStem(chs[..i], t), t) == Ok(r.value[i])
    ensures r.Err? ==> r.error == IndexError || r.error == KeyError || r.error == UnboundLocalError
  {
    if chs == [] then Ok([])
    else
      var j := |chs| - 1;
      var before :- Anatomies(chs[..j], t);
      var a :- AnatomyOf(chs[j], CarriedStem(chs[..j], t), t);
      PrefixesOfPrefix(chs, j);
      Ok(before + [a])
  }

  lemma PrefixesOfPrefix(chs: seq<string>, j: nat)
    requires j <= |chs|
    ensures forall i :: 0 <= i <= j ==> chs[..j][..i] == chs[..i]
  {
  }

  /** The hemisphere of one channel: the template's entry for a template
      channel; otherwise `midline` with a `z`, `right` with an even number,
      and `left` for the rest, names without digits included. */
  function LateralityOf(ch: string, t: Template): (r: Result<string>)
    ensures ch !in t.channelNames ==> r.Ok?
    ensures ch in t.channelNames ==>
      var i := IndexOf(t.channelNames, ch);
      r == if i < |t.laterality| then Ok(t.laterality[i]) else Err(IndexError)
  {
    if ch in t.channelNames then
      var i := IndexOf(t.channelNames, ch);
      if i < |t.laterality| then Ok(t.laterality[i]) else Err(IndexError)
    else if 'z' in ch then Ok("midline")
    else if IsEven(ch) == Some(true) then Ok("right")
    else Ok("left")
  }

  /** The order of the rules for a channel outside the template. */
  lemma LateralityRules(ch: string, t: Template)
    requires ch !in t.channelNames
    ensures 'z' in ch ==> LateralityOf(ch, t) == Ok("midline")
    ensures 'z' !in ch && IsEven(ch) == Some(true) ==> LateralityOf(ch, t) == Ok("right")
    ensures 'z' !in ch && IsEven(ch) == Some(false) ==> LateralityOf(ch, t) == Ok("left")
    ensures 'z' !in ch && (forall i :: 0 <= i < |ch| ==> !IsDigit(ch[i])) ==> LateralityOf(ch, t) == Ok("left")
  {
  }

  /** The second loop of `anatomy_and_laterality`. */
  function Lateralities(chs: seq<string>, t: Template): (r: Result<seq<string>>)
    ensures r.Ok? ==> |r.value| == |chs|
    ensures r.Ok? ==> forall i :: 0 <= i < |chs| ==> LateralityOf(chs[i], t) == Ok(r.value[i])
    ensures r.Err? ==> r.error == IndexError
  {
    if chs == [] then Ok([])
    else
      var j := |chs| - 1;
      var before :- Lateralities(chs[..j], t);
      var l :- LateralityOf(chs[j], t);
      Ok(before + [l])
  }

  /** `anatomy_and_laterality`: the anatomy loop runs to completion first,
      then the laterality loop. */
  function Classify(chs: seq<string>, t: Template): Result<(seq<string>, seq<string>)>
  {
    var a :- Anatomies(chs, t);
    var l :- Lateralities(chs, t);
    Ok((a, l))
  }

  /** When nothing raises, both lists have one entry per channel, in the
      input order. */
  lemma ClassifyLengths(chs: seq<string>, t: Template)
    requires Classify(chs, t).Ok?
    ensures |Classify(chs, t).value.0| == |chs| && |Classify(chs, t).value.1| == |chs|
    ensures forall i :: 0 <= i < |chs| ==> LateralityOf(chs[i], t) == Ok(Classify(chs, t).value.1[i])
  {
  }

  /** A failure among the first channels is the failure of the whole loop. */
  lemma {:induction false} AnatomiesPrefixErr(chs: seq<string>, j: nat, t: Template)
    requires j <= |chs| && Anatomies(chs[..j], t).Err?
    ensures Anatomies(chs, t) == Anatomies(chs[..j], t)
    decreases |chs| - j
  {
    if j < |chs| {
      assert chs[..j + 1][..j] == chs[..j];
      AnatomiesPrefixErr(chs, j + 1, t);
    } else {
      assert chs[..j] == chs;
    }
  }

  /** One more channel: its anatomy entry is appended, and a plain channel
      becomes the carried stem. */
  lemma AnatomiesStep(chs: seq<string>, j: nat, t: Template)
    requires j < |chs|
    ensures var prev := Anatomies(chs[..j], t);
      var e := AnatomyOf(chs[j], CarriedStem(chs[..j], t), t);
      Anatomies(chs[..j + 1], t) ==
        if prev.Err? then prev else if e.Err? then Err(e.error) else Ok(prev.value + [e.value])
    ensures CarriedStem(chs[..j + 1], t) ==
      if chs[j] !in t.channelNames && 'z' !in chs[j] then Some(RemoveNumerals(chs[j])) else CarriedStem(chs[..j], t)
  {
    assert chs[..j + 1][..j] == chs[..j];
  }

  lemma LateralitiesStep(chs: seq<string>, j: nat, t: Template)
    requires j < |chs|
    ensures var prev := Lateralities(chs[..j], t);
      var e := LateralityOf(chs[j], t);
      Lateralities(chs[..j + 1], t) ==
        if prev.Err? then prev else if e.Err? then Err(e.error) else Ok(prev.value + [e.value])
  {
    assert chs[..j + 1][..j] == chs[..j];
  }

  lemma {:induction false} LateralitiesPrefixErr(chs: seq<string>, j: nat, t: Template)
    requires j <= |chs| && Lateralities(chs[..j], t).Err?
    ensures Lateralities(chs, t) == Lateralities(chs[..j], t)
    decreases |chs| - j
  {
    if j < |chs| {
      assert chs[..j + 1][..j] == chs[..j];
      LateralitiesPrefixErr(chs, j + 1, t);
    } else {
      assert chs[..j] == chs;
    }
  }

  /** A first non-template channel with a `z` meets an unassigned `ch_val`
      unless an earlier plain channel set it. */
  lemma MidlineFirstFails(chs: seq<string>, t: Template)
    requires |chs| > 0 && chs[0] !in t.channelNames && 'z' in chs[0]
    ensures Classify(chs, t) == Err(UnboundLocalError)
  {
    var one := chs[..1];
    assert one[..0] == [];
    assert Anatomies(one[..0], t) == Ok([]);
    assert Anatomies(one, t) == Err(UnboundLocalError);
    AnatomiesPrefixErr(chs, 1, t);
  }

  lemma AnatomyExamples(carried: Option<string>, t: Template)
    requires "Fp1" !in t.channelNames && "O2" !in t.channelNames
    ensures AnatomyOf("Fp1", carried, t) == Ok("frontopolar")
    ensures AnatomyOf("O2", carried, t) == Ok("occipital")
  {
    assert AnatomyOf("Fp1", carried, t) == Ok("frontopolar") by {
      assert 'z' !in "Fp1";
      assert RemoveNumerals("Fp1") == "Fp";
      LookupFp();
    }
    assert AnatomyOf("O2", carried, t) == Ok("occipital") by {
      assert 'z' !in "O2";
      assert RemoveNumerals("O2") == "O";
      LookupO();
    }
  }

  lemma LookupFp()
    ensures AnatomyLookup("Fp") == Ok("frontopolar")
  {
  }

  lemma LookupO()
    ensures AnatomyLookup("O") == Ok("occipital")
  {
  }

  /** The two loops of `anatomy_and_laterality`, appending to lists and
      carrying `ch_val` from one channel to the next. */
  method AnatomyAndLaterality(channelNames: seq<string>, t: Template) returns (r: Result<(seq<string>, seq<string>)>)
    ensures r == Classify(channelNames, t)
  {
    var anatomy: seq<string> := [];
    var chVal: Option<string> := None;
    for j := 0 to |channelNames|
      invariant Anatomies(channelNames[..j], t) == Ok(anatomy)
      invariant chVal == CarriedStem(channelNames[..j], t)
    {
      var ch := channelNames[j];
      AnatomiesStep(channelNames, j, t);
      ghost var carried := chVal;
      var entry: Result<string>;
      if ch in t.channelNames {
        var i := IndexOf(t.channelNames, ch);
        entry := if i < |t.anatomy| then Ok(t.anatomy[i]) else Err(IndexError);
      } else if 'z' in ch {
        entry := if chVal.None? then Err(UnboundLocalError) else AnatomyLookup(chVal.value);
      } else {
        chVal := Some(RemoveNumerals(ch));
        entry := AnatomyLookup(chVal.value);
      }
      assert entry == AnatomyOf(ch, carried, t);
      if entry.Err? {
        AnatomiesPrefixErr(channelNames, j + 1, t);
        return Err(entry.error);
      }
      anatomy := anatomy + [entry.value];
    }
    assert channelNames[..|channelNames|] == channelNames;
    var laterality: seq<string> := [];
    for j := 0 to |channelNames|
      invariant Lateralities(channelNames[..j], t) == Ok(laterality)
    {
      var ch := channelNames[j];
      LateralitiesStep(channelNames, j, t);
      if ch in t.channelNames {
        var i := IndexOf(t.channelNames, ch);
        if i >= |t.laterality| {
          LateralitiesPrefixErr(channelNames, j + 1, t);
          return Err(IndexError);
        }
        laterality := laterality + [t.laterality[i]];
      } else if 'z' in ch {
        laterality := laterality + ["midline"];
      } else if IsEven(ch) == Some(true) {
        laterality := laterality + ["right"];
      } else {
        laterality := laterality + ["left"];
      }
    }
    r := Ok((anatomy, laterality));
  }

  // ---------------------------------------------------------------------
  // events_features

  /** `[1 if 'crash' in event.lower() else 0 for event in events_labels]`. */
  function EventFeatures(labels: seq<string>): (fs: seq<int>)
    ensures |fs| == |labels|
    ensures forall i :: 0 <= i < |labels| ==> (fs[i] == 1 <==> Contains(Lower(labels[i]), "crash"))
    ensures forall i :: 0 <= i < |labels| ==> (fs[i] == 0 <==> !Contains(Lower(labels[i]), "crash"))
  {
    seq(|labels|, i requires 0 <= i < |labels| => if Contains(Lower(labels[i]), "crash") then 1 else 0)
  }

  /** Lower-casing keeps an occurrence in place, lower-cased. */
  lemma LowerKeepsMatch(s: string, t: string, i: nat)
    requires MatchAt(s, t, i)
    ensures MatchAt(Lower(s), Lower(t), i)
  {
    assert Lower(s)[i..i + |t|] == Lower(t);
  }

  /** A label naming a crash in any ASCII capitalisation is flagged. */
  lemma CrashLabelFlagged(labels: seq<string>, k: nat, i: nat, variant: string)
    requires k < |labels| && MatchAt(labels[k], variant, i)
    requires Lower(variant) == "crash"
    ensures EventFeatures(labels)[k] == 1
  {
    LowerKeepsMatch(labels[k], variant, i);
  }
}
