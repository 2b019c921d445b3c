/**
 * The whole script (`main`): read, group and deduplicate the canonical list, then each vendor
 * file in turn, merging it into the canonical table, and finally write the merged table.
 * The three vendor loops of `main` are one ordered list of files here, each file carrying the
 * reader it is read with; the files of the first reader come first, then those of the second,
 * then those of the third.
 */
module Pipeline {
  import opened Wrappers
  import opened Canonical
  import opened Vendor
  import opened NvTables
  import opened Serializer

  /** One vendor header: its lines and the reader that understands them. */
  datatype VendorFile = VendorFile(lines: seq<string>, dialect: Dialect)

  /** A source's table after `_normalize` and `_deduplicate_names`: well formed, with the ids of its records. */
  function Prepared(rs: seq<Record>): (t: Table)
    ensures WellFormed(t) && t.Keys == Ids(rs)
    ensures forall k :: k in t ==>
      Aligned(Group(NamesOf(rs, k), DescsOf(rs, k))) && t[k] == DedupGroup(Group(NamesOf(rs, k), DescsOf(rs, k)))
  {
    GroupedContents(rs);
    DedupTableWellFormed(Grouped(rs));
    DedupTable(Grouped(rs))
  }

  /** The prepared table of one vendor file. */
  function VendorTable(v: VendorFile): Table {
    Prepared(VendorRecords(v.lines, v.dialect))
  }

  /** The prepared tables of the vendor files, in the order they are merged. */
  function VendorTables(vs: seq<VendorFile>): (ts: seq<Table>)
    ensures |ts| == |vs|
  {
    seq(|vs|, i requires 0 <= i < |vs| => VendorTable(vs[i]))
  }

  /** The table `main` hands to `_generate_c`, given the canonical records. */
  function MergedTable(rs: seq<Record>, vendors: seq<VendorFile>): (t: Table)
    ensures WellFormed(t)
  {
    var tiers := VendorTables(vendors);
    FoldMergeWellFormed(Prepared(rs), tiers);
    FoldMerge(Prepared(rs), tiers)
  }

  /** What the script prints, or the error that stops it while reading the canonical list. */
  function MergeListsOutput(canonical: seq<string>, vendors: seq<VendorFile>): Result<seq<string>, ParseError> {
    match Scan(canonical)
    case Err(e) => Err(e)
    case Ok(rs) => Ok(Render(MergedTable(rs, vendors)))
  }

  /** `main`, with the files given as line sequences and the printed lines returned. */
  method MergeLists(canonical: seq<string>, vendors: seq<VendorFile>) returns (r: Result<seq<string>, ParseError>)
    ensures r == MergeListsOutput(canonical, vendors)
  {
    var parsed := ParseCanonical(canonical);
    if parsed.Err? {
      return Err(parsed.error);
    }
    var rs := parsed.value;
    var originalList := Normalize(rs);
    GroupedContents(rs);
    DeduplicateNames(originalList);
    ghost var tiers := VendorTables(vendors);
    assert tiers[0..] == tiers;
    for n := 0 to |vendors|
      invariant WellFormed(originalList.groups)
      invariant FoldMerge(originalList.groups, tiers[n..]) == MergedTable(rs, vendors)
    {
      var records := ParseVendor(vendors[n].lines, vendors[n].dialect);
      var vendor := Normalize(records);
      GroupedContents(records);
      DeduplicateNames(vendor);
      assert vendor.groups == tiers[n];
      assert tiers[n..][1..] == tiers[n + 1..];
      MergeWellFormed(originalList.groups, vendor.groups);
      Merge(originalList, vendor);
    }
    var out := GenerateC(originalList);
    return Ok(out);
  }

  /** An id of the canonical list keeps its canonical (deduplicated) group, whatever the vendors say. */
  lemma CanonicalWins(rs: seq<Record>, vendors: seq<VendorFile>, k: int)
    requires k in Ids(rs)
    ensures k in MergedTable(rs, vendors) && Aligned(Group(NamesOf(rs, k), DescsOf(rs, k)))
    ensures MergedTable(rs, vendors)[k] == DedupGroup(Group(NamesOf(rs, k), DescsOf(rs, k)))
  {
    FoldMergeKeepsBase(Prepared(rs), VendorTables(vendors), k);
  }

  /** An id missing from the canonical list takes its group from the first vendor file that has it. */
  lemma EarliestVendorWins(rs: seq<Record>, vendors: seq<VendorFile>, k: int, i: nat)
    requires k !in Ids(rs)
    requires i < |vendors| && k in VendorTable(vendors[i])
    requires forall j :: 0 <= j < i ==> k !in VendorTable(vendors[j])
    ensures k in MergedTable(rs, vendors)
    ensures MergedTable(rs, vendors)[k] == VendorTable(vendors[i])[k]
  {
    var tiers := VendorTables(vendors);
    assert forall j :: 0 <= j < i ==> tiers[j] == VendorTable(vendors[j]);
    FoldMergeFirstTier(Prepared(rs), tiers, k, i);
  }

  /** The merged ids are those of the canonical list and of every vendor file. */
  lemma MergedIds(rs: seq<Record>, vendors: seq<VendorFile>, k: int)
    ensures k in MergedTable(rs, vendors) <==>
      k in Ids(rs) || exists i :: 0 <= i < |vendors| && k in Ids(VendorRecords(vendors[i].lines, vendors[i].dialect))
  {
    var tiers := VendorTables(vendors);
    FoldMergeKeys(Prepared(rs), tiers, k);
    assert forall i :: 0 <= i < |vendors| ==> tiers[i].Keys == Ids(VendorRecords(vendors[i].lines, vendors[i].dialect));
  }

  /**
   * When the canonical list parses, the output holds one line per merged id, in strictly
   * ascending id order, and ends with the closing entry.
   */
  lemma OutputOfMerge(canonical: seq<string>, vendors: seq<VendorFile>)
    requires Scan(canonical).Ok?
    ensures var t := MergedTable(Scan(canonical).value, vendors);
      var out := MergeListsOutput(canonical, vendors);
      out.Ok? && |out.value| == |t| + 1 && out.value[|t|] == EndLine &&
      (forall i, j :: 0 <= i < j < |t| ==> SortedKeys(t.Keys)[i] < SortedKeys(t.Keys)[j]) &&
      forall i :: 0 <= i < |t| ==> SortedKeys(t.Keys)[i] in t && out.value[i] == FormatLine(SortedKeys(t.Keys)[i], t[SortedKeys(t.Keys)[i]])
  {
    OutputShape(MergedTable(Scan(canonical).value, vendors));
  }
}
