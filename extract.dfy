/**
 * The block map of `extract_blocks_from_slx`: every `Block` element of the
 * root system document, keyed by its name, with its type, SID and the
 * parameters found beneath it.
 */
module Extract {
  import opened Wrappers
  import opened PyDict
  import opened ElementTree

  /** What makes an extraction fail. */
  datatype Error =
    | RootNotFound          // the container has no system_root.xml
    | KeyError(key: string) // a subscript of a missing key raised

  /** Parameter name to the element's text, which may be absent. */
  type Params = Dict<string, Option<string>>

  datatype Block = Block(blockType: Option<string>, sid: Option<string>, parameters: Params)

  /** `block.attrib.get("Name", "Unnamed")` */
  function BlockName(b: Element): string {
    if "Name" in b.attrib then b.attrib["Name"] else "Unnamed"
  }

  /** Every `P` element in the subtree carries a `Name` attribute. */
  predicate AllNamed(ps: seq<Element>) {
    forall i :: 0 <= i < |ps| ==> "Name" in ps[i].attrib
  }

  /** The (name, text) pair of each `P`, in document order. */
  function ParamPairs(ps: seq<Element>): (r: seq<(string, Option<string>)>)
    requires AllNamed(ps)
    ensures |r| == |ps|
    ensures forall i :: 0 <= i < |ps| ==> r[i] == (ps[i].attrib["Name"], ps[i].text)
  {
    seq(|ps|, i requires 0 <= i < |ps| => (ps[i].attrib["Name"], ps[i].text))
  }

  /** `{p.attrib["Name"]: p.text for p in block.iter("P")}` */
  function ParamsOf(b: Element): Result<Params, Error> {
    var ps := Iter(b, "P");
    if AllNamed(ps) then Success(FromPairs(ParamPairs(ps))) else Failure(KeyError("Name"))
  }

  /** The entry `{"BlockType": ..., "SID": ..., "Parameters": params}` for block `b`. */
  function BlockOf(b: Element, params: Params): Block {
    Block(Attr(b, "BlockType"), Attr(b, "SID"), params)
  }

  /** The block names in document order, duplicates kept. */
  function BlockNames(bs: seq<Element>): (r: seq<string>)
    ensures |r| == |bs|
  {
    seq(|bs|, i requires 0 <= i < |bs| => BlockName(bs[i]))
  }

  /** The parameters of each of the first `n` blocks can be collected. */
  predicate ParamsOk(bs: seq<Element>, n: nat)
    requires n <= |bs|
  {
    forall j :: 0 <= j < n ==> ParamsOf(bs[j]).Success?
  }

  /** The (name, entry) assignments the loop makes for the first `n` blocks. */
  function Entries(bs: seq<Element>, n: nat): (r: seq<(string, Block)>)
    requires n <= |bs| && ParamsOk(bs, n)
    ensures |r| == n
  {
    seq(n, j requires 0 <= j < n && ParamsOk(bs, n) => (BlockName(bs[j]), BlockOf(bs[j], ParamsOf(bs[j]).value)))
  }

  /**
   * What the loop over the blocks `bs` produces: the block map when every
   * block's parameters can be collected, else the `KeyError` the first
   * failing block raises.
   */
  function FromBlocks(bs: seq<Element>): Result<Dict<string, Block>, Error> {
    if ParamsOk(bs, |bs|) then Success(FromPairs(Entries(bs, |bs|))) else Failure(KeyError("Name"))
  }

  /**
   * What `extract_blocks_from_slx` returns or raises for the root system
   * document `doc` (None when system_root.xml is missing).
   */
  function Extraction(doc: Option<Element>): Result<Dict<string, Block>, Error> {
    match doc
    case None => Failure(RootNotFound)
    case Some(root) => FromBlocks(Iter(root, "Block"))
  }

  /** One more iteration of the loop assigns the next block's entry. */
  lemma CollectStep(bs: seq<Element>, i: nat)
    requires i < |bs| && ParamsOk(bs, i) && ParamsOf(bs[i]).Success?
    ensures ParamsOk(bs, i + 1)
    ensures Build(Entries(bs, i + 1), i + 1) ==
      Build(Entries(bs, i), i).Put(BlockName(bs[i]), BlockOf(bs[i], ParamsOf(bs[i]).value))
  {
    assert ParamsOk(bs, i + 1) by {
      assert ParamsOf(bs[i]).Success?;
    }
    BuildAgree(Entries(bs, i + 1), Entries(bs, i), i);
  }

  /** A block whose parameters raise makes the whole loop raise the same error. */
  lemma CollectFails(bs: seq<Element>, i: nat)
    requires i < |bs| && ParamsOf(bs[i]).Failure?
    ensures FromBlocks(bs) == Failure(ParamsOf(bs[i]).error)
  {
    assert !ParamsOk(bs, |bs|);
  }

  /** The loop of `extract_blocks_from_slx` over the blocks `bs`. */
  method CollectBlocks(bs: seq<Element>) returns (r: Result<Dict<string, Block>, Error>)
    ensures r == FromBlocks(bs)
  {
    var blocks: Dict<string, Block> := Empty();
    for i := 0 to |bs|
      invariant ParamsOk(bs, i)
      invariant blocks == Build(Entries(bs, i), i)
    {
      var b := bs[i];
      var name := BlockName(b);
      var blockType := Attr(b, "BlockType");
      var sid := Attr(b, "SID");
      var params := ParamsOf(b);
      if params.Failure? {
        CollectFails(bs, i);
        return Failure(params.error);
      }
      CollectStep(bs, i);
      blocks := blocks.Put(name, Block(blockType, sid, params.value));
    }
    return Success(blocks);
  }

  /** `extract_blocks_from_slx`: the loop over `root_xml.iter("Block")`. */
  method ExtractBlocks(doc: Option<Element>) returns (r: Result<Dict<string, Block>, Error>)
    ensures r == Extraction(doc)
  {
    if doc.None? {
      return Failure(RootNotFound);
    }
    r := CollectBlocks(Iter(doc.value, "Block"));
  }

  // ----- Properties of the extracted block map -----

  /**
   * Collecting parameters fails exactly when some `P` in the subtree has no
   * `Name`, and then with `KeyError("Name")`.
   */
  lemma ParamsFailure(b: Element)
    ensures ParamsOf(b).Failure? <==> exists p :: p in Iter(b, "P") && "Name" !in p.attrib
    ensures ParamsOf(b).Failure? ==> ParamsOf(b).error == KeyError("Name")
  {
    var ps := Iter(b, "P");
    if !AllNamed(ps) {
      var i :| 0 <= i < |ps| && "Name" !in ps[i].attrib;
      assert ps[i] in ps;
    }
  }

  /** A name is a key of the dict built from the `P` elements `ps` exactly when one of them carries it. */
  lemma NamedPairsKey(ps: seq<Element>, k: string)
    requires AllNamed(ps)
    ensures k in FromPairs(ParamPairs(ps)).entries <==> exists p :: p in ps && "Name" in p.attrib && p.attrib["Name"] == k
  {
    var pairs := ParamPairs(ps);
    BuildKeys(pairs, |pairs|, k);
    if exists i :: 0 <= i < |pairs| && pairs[i].0 == k {
      var i :| 0 <= i < |pairs| && pairs[i].0 == k;
      assert ps[i] in ps;
    }
    if exists p :: p in ps && "Name" in p.attrib && p.attrib["Name"] == k {
      var p :| p in ps && "Name" in p.attrib && p.attrib["Name"] == k;
      var i :| 0 <= i < |ps| && ps[i] == p;
      assert pairs[i].0 == k;
    }
  }

  /** The dict built from the `P` elements `ps` is keyed by their names. */
  lemma NamedPairsKeys(ps: seq<Element>)
    requires AllNamed(ps)
    ensures FromPairs(ParamPairs(ps)).Valid()
    ensures FromPairs(ParamPairs(ps)).keys == Dedup(Keys(ParamPairs(ps)), |ps|)
    ensures forall k :: k in FromPairs(ParamPairs(ps)).entries <==>
      exists p :: p in ps && "Name" in p.attrib && p.attrib["Name"] == k
  {
    var pairs := ParamPairs(ps);
    BuildValid(pairs, |pairs|);
    forall k
      ensures k in FromPairs(pairs).entries <==> exists p :: p in ps && "Name" in p.attrib && p.attrib["Name"] == k
    {
      NamedPairsKey(ps, k);
    }
  }

  /**
   * The parameter keys are the `Name`s of all `P` elements of the subtree,
   * each once, in order of first occurrence.
   */
  lemma ParamsKeys(b: Element)
    requires ParamsOf(b).Success?
    ensures AllNamed(Iter(b, "P"))
    ensures ParamsOf(b).value.Valid()
    ensures ParamsOf(b).value.keys == Dedup(Keys(ParamPairs(Iter(b, "P"))), |Iter(b, "P")|)
    ensures forall k :: k in ParamsOf(b).value.entries <==>
      exists p :: p in Iter(b, "P") && "Name" in p.attrib && p.attrib["Name"] == k
  {
    NamedPairsKeys(Iter(b, "P"));
  }

  /**
   * Later duplicates win: a parameter holds the text of the last `P` of
   * the subtree with its name, absent text included.
   */
  lemma ParamsLastWins(b: Element, i: nat)
    requires ParamsOf(b).Success? && i < |Iter(b, "P")|
    requires forall j :: i < j < |Iter(b, "P")| ==>
      Attr(Iter(b, "P")[j], "Name") != Attr(Iter(b, "P")[i], "Name")
    ensures "Name" in Iter(b, "P")[i].attrib
    ensures Iter(b, "P")[i].attrib["Name"] in ParamsOf(b).value.entries
    ensures ParamsOf(b).value.entries[Iter(b, "P")[i].attrib["Name"]] == Iter(b, "P")[i].text
  {
    var ps := Iter(b, "P");
    var pairs := ParamPairs(ps);
    BuildLastWins(pairs, |pairs|, i);
  }

  /** Some `P` of the subtree has no `Name` attribute. */
  predicate HasUnnamedP(b: Element) {
    exists p :: p in Iter(b, "P") && "Name" !in p.attrib
  }

  /**
   * The loop raises exactly when some `P` below one of the blocks has no
   * `Name`, and then with `KeyError("Name")`.
   */
  lemma FromBlocksFailure(bs: seq<Element>)
    ensures FromBlocks(bs).Failure? <==> exists b :: b in bs && HasUnnamedP(b)
    ensures FromBlocks(bs).Failure? ==> FromBlocks(bs).error == KeyError("Name")
  {
    if !ParamsOk(bs, |bs|) {
      var j :| 0 <= j < |bs| && ParamsOf(bs[j]).Failure?;
      ParamsFailure(bs[j]);
      assert bs[j] in bs;
    }
    if exists b :: b in bs && HasUnnamedP(b) {
      var b :| b in bs && HasUnnamedP(b);
      var j :| 0 <= j < |bs| && bs[j] == b;
      ParamsFailure(bs[j]);
    }
  }

  /**
   * The keys of the map are the names of the blocks, each once, in order
   * of first occurrence; a block without a `Name` is keyed "Unnamed".
   */
  lemma FromBlocksKeys(bs: seq<Element>)
    requires FromBlocks(bs).Success?
    ensures FromBlocks(bs).value.Valid()
    ensures FromBlocks(bs).value.keys == Dedup(BlockNames(bs), |bs|)
    ensures forall k :: k in FromBlocks(bs).value.entries <==> exists b :: b in bs && BlockName(b) == k
  {
    var es := Entries(bs, |bs|);
    BuildValid(es, |es|);
    assert Keys(es) == BlockNames(bs);
    forall k
      ensures k in FromPairs(es).entries <==> exists b :: b in bs && BlockName(b) == k
    {
      BuildKeys(es, |es|, k);
      if k in FromPairs(es).entries {
        var j :| 0 <= j < |es| && es[j].0 == k;
        assert bs[j] in bs;
      }
      if exists b :: b in bs && BlockName(b) == k {
        var b :| b in bs && BlockName(b) == k;
        var j :| 0 <= j < |bs| && bs[j] == b;
        assert es[j].0 == k;
      }
    }
  }

  /**
   * A later block with the same name overwrites the earlier entry: each
   * key holds the type, SID and parameters of the last block so named.
   */
  lemma FromBlocksLastWins(bs: seq<Element>, i: nat)
    requires FromBlocks(bs).Success? && i < |bs|
    requires forall j :: i < j < |bs| ==> BlockName(bs[j]) != BlockName(bs[i])
    ensures ParamsOf(bs[i]).Success?
    ensures BlockName(bs[i]) in FromBlocks(bs).value.entries
    ensures FromBlocks(bs).value.entries[BlockName(bs[i])] == BlockOf(bs[i], ParamsOf(bs[i]).value)
  {
    var es := Entries(bs, |bs|);
    BuildLastWins(es, |es|, i);
  }

  /**
   * Extraction from a document fails exactly when some `P` below some
   * `Block` has no `Name`, and then with `KeyError("Name")`.
   */
  lemma ExtractionFailure(root: Element)
    ensures Extraction(Some(root)).Failure? <==> exists b :: b in Iter(root, "Block") && HasUnnamedP(b)
    ensures Extraction(Some(root)).Failure? ==> Extraction(Some(root)).error == KeyError("Name")
  {
    FromBlocksFailure(Iter(root, "Block"));
  }

  /**
   * Nesting is flattened: a `Block` inside an extracted block is extracted
   * as well, and its `P` elements are also parameters of the outer block.
   */
  lemma NestedBlock(root: Element, outer: Element, inner: Element)
    requires Extraction(Some(root)).Success?
    requires outer in Iter(root, "Block") && inner in Iter(outer, "Block")
    ensures BlockName(inner) in Extraction(Some(root)).value.entries
    ensures forall p :: p in Iter(inner, "P") ==> p in Iter(outer, "P")
  {
    IterTransitive(root, "Block", "Block", outer);
    IterTransitive(outer, "Block", "P", inner);
    FromBlocksKeys(Iter(root, "Block"));
  }
}
