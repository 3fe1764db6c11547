/**
 * `compare_to_baseline` without its I/O: the baseline map rebuilt from the
 * records, the new block map extracted from the document, the four
 * buckets, and for each changed block the parameter keys its report lines
 * name.
 */
module ChangeReport {
  import opened Wrappers
  import opened PyDict
  import opened ElementTree
  import opened Extract
  import opened Baseline
  import opened Compare
  import opened ParamDiff

  /** A changed block: its baseline record, its new entry and the parameter keys whose values differ. */
  datatype ChangedBlock = ChangedBlock(before: Record, after: Block, keys: seq<string>)

  /** What the Markdown report lists, section by section (`same` is the source's `unchanged`). */
  datatype Report = Report(added: seq<Block>, removed: seq<Record>, changed: seq<ChangedBlock>, same: seq<Block>)

  /** The report line data for each (baseline, new) pair. */
  function Details(ps: seq<(Record, Block)>): (r: seq<ChangedBlock>)
    ensures |r| == |ps|
  {
    seq(|ps|, i requires 0 <= i < |ps| =>
      ChangedBlock(ps[i].0, ps[i].1, Differing(ps[i].0.parameters, ps[i].1.parameters)))
  }

  /** The report for the baseline map `base` and the new map `nw`. */
  function ReportOf(base: Dict<string, Record>, nw: Dict<string, Block>): Report {
    Report(
      Values(nw, AddedKeys(base, nw)),
      Values(base, RemovedKeys(base, nw)),
      Details(Pairs(base, nw, ChangedKeys(base, nw))),
      Values(nw, UnchangedKeys(base, nw)))
  }

  /** The loop over `changed` in the report writer: each pair with its differing keys. */
  method Describe(changed: seq<(Record, Block)>) returns (details: seq<ChangedBlock>)
    ensures details == Details(changed)
  {
    details := [];
    for i := 0 to |changed|
      invariant details == Details(changed[..i])
    {
      var keys := DifferingKeys(changed[i].0.parameters, changed[i].1.parameters);
      assert changed[..i + 1] == changed[..i] + [changed[i]];
      details := details + [ChangedBlock(changed[i].0, changed[i].1, keys)];
    }
    assert changed[..|changed|] == changed;
  }

  /** The classification loops and the report data for two valid block maps. */
  method BuildReport(base: Dict<string, Record>, nw: Dict<string, Block>) returns (report: Report)
    requires base.Valid() && nw.Valid()
    ensures report == ReportOf(base, nw)
  {
    var added, changed, same := SortNewBlocks(base, nw);
    var removed := CollectRemoved(base, nw);
    var details := Describe(changed);
    report := Report(added, removed, details, same);
  }

  /**
   * `compare_to_baseline` on the loaded baseline records and the root
   * system document of the new model: it raises what the extraction
   * raises, and otherwise yields the report of the rebuilt baseline map
   * against the new block map.
   */
  method CompareToBaseline(baseline: seq<Record>, doc: Option<Element>) returns (r: Result<Report, Error>)
    ensures r.Failure? <==> Extraction(doc).Failure?
    ensures r.Failure? ==> r.error == Extraction(doc).error
    ensures r.Success? ==> r.value == ReportOf(Rebuild(baseline), Extraction(doc).value)
  {
    var base := Rebuild(baseline);
    BuildValid(NamedPairs(baseline), |baseline|);
    var newBlocks := ExtractBlocks(doc);
    if newBlocks.Failure? {
      return Failure(newBlocks.error);
    }
    FromBlocksKeys(Iter(doc.value, "Block"));
    var report := BuildReport(base, newBlocks.value);
    return Success(report);
  }

  /**
   * A model compared with a baseline made from itself reports nothing
   * added, removed or changed, and lists every block as unchanged, in
   * the map's order.
   */
  lemma SelfReport(d: Dict<string, Block>)
    requires d.Valid()
    ensures ReportOf(Rebuild(Flatten(d)), d).added == []
    ensures ReportOf(Rebuild(Flatten(d)), d).removed == []
    ensures ReportOf(Rebuild(Flatten(d)), d).changed == []
    ensures |ReportOf(Rebuild(Flatten(d)), d).same| == |d.keys|
    ensures forall j :: 0 <= j < |d.keys| ==> ReportOf(Rebuild(Flatten(d)), d).same[j] == d.entries[d.keys[j]]
  {
    SelfDiff(d);
    ValuesAt(d, d.keys);
  }

  /**
   * One block whose `Gain` parameter goes from "1" to "2" is reported as
   * changed, with `Gain` as the one differing key.
   */
  lemma GainChanged()
    ensures
      var before := Record("G", Some("Gain"), Some("7"), Dict(["Gain"], map["Gain" := Some("1")]));
      var after := Block(Some("Gain"), Some("7"), Dict(["Gain"], map["Gain" := Some("2")]));
      ReportOf(Dict(["G"], map["G" := before]), Dict(["G"], map["G" := after])) ==
        Report([], [], [ChangedBlock(before, after, ["Gain"])], [])
  {
    var before := Record("G", Some("Gain"), Some("7"), Dict(["Gain"], map["Gain" := Some("1")]));
    var after := Block(Some("Gain"), Some("7"), Dict(["Gain"], map["Gain" := Some("2")]));
    var base := Dict(["G"], map["G" := before]);
    var nw := Dict(["G"], map["G" := after]);
    assert StatusOf(base, nw, "G") == Changed;
    assert ChangedKeys(base, nw) == ["G"] by {
      SelectStep(nw.keys, 0, base, nw, Changed);
    }
    assert AddedKeys(base, nw) == [] by {
      SelectStep(nw.keys, 0, base, nw, Added);
    }
    assert UnchangedKeys(base, nw) == [] by {
      SelectStep(nw.keys, 0, base, nw, Unchanged);
    }
    assert RemovedKeys(base, nw) == [] by {
      SelectStep(base.keys, 0, base, nw, Removed);
    }
    assert AllKeys(before.parameters, after.parameters) == {"Gain"};
    assert SortSet({"Gain"}) == ["Gain"] by {
      assert {"Gain"} - {"Gain"} == {};
    }
    assert Differing(before.parameters, after.parameters) == ["Gain"] by {
      KeepStep(["Gain"], 0, before.parameters, after.parameters);
    }
    assert Pairs(base, nw, ["G"]) == [(before, after)];
  }
}
