/**
 * The baseline: the block map flattened to a list of records that carry
 * their own name (`create_baseline`), and the map rebuilt from such a list
 * (`compare_to_baseline`). The JSON file between the two is not modelled.
 */
module Baseline {
  import opened Wrappers
  import opened PyDict
  import opened ElementTree
  import opened Extract

  /** `{"Name": name, **data}` */
  datatype Record = Record(name: string, blockType: Option<string>, sid: Option<string>, parameters: Params)

  function RecordOf(name: string, b: Block): Record {
    Record(name, b.blockType, b.sid, b.parameters)
  }

  /** `[{"Name": name, **data} for name, data in blocks.items()]` */
  function Flatten(blocks: Dict<string, Block>): (r: seq<Record>)
    requires blocks.Valid()
    ensures |r| == |blocks.keys|
  {
    seq(|blocks.keys|, i requires 0 <= i < |blocks.keys| && blocks.Valid() =>
      RecordOf(blocks.keys[i], blocks.entries[blocks.keys[i]]))
  }

  /** The name of each record, in list order. */
  function Names(records: seq<Record>): (r: seq<string>)
    ensures |r| == |records|
  {
    seq(|records|, i requires 0 <= i < |records| => records[i].name)
  }

  function NamedPairs(records: seq<Record>): (r: seq<(string, Record)>)
    ensures |r| == |records|
    ensures Keys(r) == Names(records)
  {
    seq(|records|, i requires 0 <= i < |records| => (records[i].name, records[i]))
  }

  /** `{b["Name"]: b for b in baseline_blocks}` */
  function Rebuild(records: seq<Record>): Dict<string, Record> {
    FromPairs(NamedPairs(records))
  }

  /**
   * Rebuilding lists each name once, in order of first occurrence, and
   * keeps the last record of each name.
   */
  lemma RebuildLastWins(records: seq<Record>, i: nat)
    requires i < |records|
    requires forall j :: i < j < |records| ==> records[j].name != records[i].name
    ensures Rebuild(records).Valid()
    ensures Rebuild(records).keys == Dedup(Names(records), |records|)
    ensures records[i].name in Rebuild(records).entries
    ensures Rebuild(records).entries[records[i].name] == records[i]
  {
    var ps := NamedPairs(records);
    BuildValid(ps, |ps|);
    BuildLastWins(ps, |ps|, i);
  }

  /**
   * Flattening then rebuilding gives back the same keys in the same order,
   * and every key keeps its type, SID and parameters.
   */
  lemma {:induction false} RoundTrip(blocks: Dict<string, Block>)
    requires blocks.Valid()
    ensures Rebuild(Flatten(blocks)).Valid()
    ensures Rebuild(Flatten(blocks)).keys == blocks.keys
    ensures forall k :: k in blocks.entries ==>
      k in Rebuild(Flatten(blocks)).entries &&
      Rebuild(Flatten(blocks)).entries[k] == RecordOf(k, blocks.entries[k])
  {
    var records := Flatten(blocks);
    var ps := NamedPairs(records);
    BuildValid(ps, |ps|);
    assert Names(records) == blocks.keys;
    DedupDistinct(blocks.keys, |blocks.keys|);
    assert blocks.keys[..|blocks.keys|] == blocks.keys;
    forall k | k in blocks.entries
      ensures k in Rebuild(records).entries && Rebuild(records).entries[k] == RecordOf(k, blocks.entries[k])
    {
      var i :| 0 <= i < |blocks.keys| && blocks.keys[i] == k;
      RoundTripAt(blocks, i);
    }
  }

  /** The record flattened from the `i`-th key is the one rebuilt under that key. */
  lemma RoundTripAt(blocks: Dict<string, Block>, i: nat)
    requires blocks.Valid() && i < |blocks.keys|
    ensures blocks.keys[i] in Rebuild(Flatten(blocks)).entries
    ensures Rebuild(Flatten(blocks)).entries[blocks.keys[i]] == RecordOf(blocks.keys[i], blocks.entries[blocks.keys[i]])
  {
    var records := Flatten(blocks);
    assert forall j :: i < j < |records| ==> records[j].name == blocks.keys[j] != blocks.keys[i];
    RebuildLastWins(records, i);
  }

  /** `create_baseline`: extract the block map and flatten it. */
  method CreateBaseline(doc: Option<Element>) returns (r: Result<seq<Record>, Error>)
    ensures r.Failure? <==> Extraction(doc).Failure?
    ensures r.Failure? ==> r.error == Extraction(doc).error
    ensures r.Success? ==> Extraction(doc).value.Valid() && r.value == Flatten(Extraction(doc).value)
    ensures r.Success? ==> Rebuild(r.value).keys == Extraction(doc).value.keys
  {
    var blocks := ExtractBlocks(doc);
    if blocks.Failure? {
      return Failure(blocks.error);
    }
    FromBlocksKeys(Iter(doc.value, "Block"));
    RoundTrip(blocks.value);
    return Success(Flatten(blocks.value));
  }
}
