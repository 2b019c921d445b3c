/**
 * The table of NV items keyed by id and the three operations the merge performs on it:
 * grouping records by id (`_normalize`), blanking later repetitions of a name inside one
 * group (`_deduplicate_names`) and adding the groups of another table whose ids are still
 * missing (`_merge`), plus the order in which `main` folds the sources together.
 */
module NvTables {
  import opened Wrappers
  import opened Canonical

  /** What the table holds for one id: its names and descriptions, index-aligned, in first-seen order. */
  datatype Group = Group(names: seq<Option<string>>, descs: seq<Option<string>>)

  predicate Aligned(g: Group) {
    |g.names| == |g.descs|
  }

  type Table = map<int, Group>

  /** Every group of a table the script builds is aligned and holds at least one slot. */
  predicate WellFormed(t: Table) {
    forall k :: k in t ==> Aligned(t[k]) && |t[k].names| > 0
  }

  /** The table, an object whose dictionary the operations update in place. */
  class NvTable {
    var groups: Table

    constructor ()
      ensures groups == map[]
    {
      groups := map[];
    }
  }

  // ---------------------------------------------------------------------------------------
  // Grouping (_normalize)
  // ---------------------------------------------------------------------------------------

  /** One iteration of `_normalize`: a new id gets a one-slot group, a known id one more slot. */
  function AddRecord(t: Table, r: Record): Table {
    if r.id in t then t[r.id := Group(t[r.id].names + [Some(r.name)], t[r.id].descs + [r.desc])]
    else t[r.id := Group([Some(r.name)], [r.desc])]
  }

  /** The table `_normalize` builds from a sequence of records. */
  function Grouped(rs: seq<Record>): Table
    decreases |rs|
  {
    if rs == [] then map[] else AddRecord(Grouped(rs[..|rs| - 1]), rs[|rs| - 1])
  }

  /** `_normalize` itself: one pass over the records, extending the lists of known ids in place. */
  method Normalize(records: seq<Record>) returns (t: NvTable)
    ensures fresh(t) && t.groups == Grouped(records)
  {
    t := new NvTable();
    for i := 0 to |records|
      invariant t.groups == Grouped(records[..i])
    {
      var item := records[i];
      if item.id in t.groups {
        var existing := t.groups[item.id];
        t.groups := t.groups[item.id := Group(existing.names + [Some(item.name)], existing.descs + [item.desc])];
      } else {
        t.groups := t.groups[item.id := Group([Some(item.name)], [item.desc])];
      }
      assert records[..i + 1][..i] == records[..i];
    }
    assert records[..|records|] == records;
  }

  /** The ids of a sequence of records. */
  function Ids(rs: seq<Record>): set<int> {
    set i | 0 <= i < |rs| :: rs[i].id
  }

  /** Reference account: the names of the records with id `id`, in order. */
  function NamesOf(rs: seq<Record>, id: int): seq<Option<string>>
    decreases |rs|
  {
    if rs == [] then []
    else NamesOf(rs[..|rs| - 1], id) + (if rs[|rs| - 1].id == id then [Some(rs[|rs| - 1].name)] else [])
  }

  /** Reference account: the descriptions of the records with id `id`, in order. */
  function DescsOf(rs: seq<Record>, id: int): seq<Option<string>>
    decreases |rs|
  {
    if rs == [] then []
    else DescsOf(rs[..|rs| - 1], id) + (if rs[|rs| - 1].id == id then [rs[|rs| - 1].desc] else [])
  }

  lemma {:induction false} AbsentId(rs: seq<Record>, id: int)
    requires id !in Ids(rs)
    ensures NamesOf(rs, id) == [] && DescsOf(rs, id) == []
    decreases |rs|
  {
    if rs != [] {
      var init := rs[..|rs| - 1];
      assert Ids(init) <= Ids(rs) by {
        forall x | x in Ids(init) ensures x in Ids(rs) {
          var i :| 0 <= i < |init| && init[i].id == x;
          assert rs[i] == init[i];
        }
      }
      AbsentId(init, id);
      assert rs[|rs| - 1].id in Ids(rs);
    }
  }

  lemma IdsSnoc(rs: seq<Record>)
    requires rs != []
    ensures Ids(rs) == Ids(rs[..|rs| - 1]) + {rs[|rs| - 1].id}
  {
    var init := rs[..|rs| - 1];
    forall x | x in Ids(rs) ensures x in Ids(init) + {rs[|rs| - 1].id} {
      var i :| 0 <= i < |rs| && rs[i].id == x;
      if i < |init| {
        assert init[i] == rs[i];
      }
    }
    forall x | x in Ids(init) ensures x in Ids(rs) {
      var i :| 0 <= i < |init| && init[i].id == x;
      assert rs[i] == init[i];
    }
    assert rs[|rs| - 1].id in Ids(rs);
  }

  /**
   * After grouping, the ids of the table are exactly the ids of the records, and each id holds,
   * in order, the names and descriptions of its records; every group is aligned and non-empty.
   */
  lemma {:induction false} GroupedContents(rs: seq<Record>)
    ensures Grouped(rs).Keys == Ids(rs)
    ensures forall id :: id in Grouped(rs) ==> Grouped(rs)[id] == Group(NamesOf(rs, id), DescsOf(rs, id))
    ensures WellFormed(Grouped(rs))
    decreases |rs|
  {
    if rs != [] {
      var init := rs[..|rs| - 1];
      var r := rs[|rs| - 1];
      GroupedContents(init);
      IdsSnoc(rs);
      if r.id !in Grouped(init) {
        AbsentId(init, r.id);
      }
    }
  }

  /** A non-empty set of ids has a member. */
  lemma NonEmpty(ks: set<int>)
    requires ks != {}
    ensures exists k :: k in ks
  {
    if forall k :: k !in ks {
      assert false;
    }
  }

  /** The slots summed over the ids in `ks`. */
  ghost function SlotsOver(t: Table, ks: set<int>): nat
    requires ks <= t.Keys
  {
    if ks == {} then 0
    else
      NonEmpty(ks);
      var k :| k in ks;
      |t[k].names| + SlotsOver(t, ks - {k})
  }

  /** The number of slots of a table, over all its ids. */
  ghost function TotalSlots(t: Table): nat {
    SlotsOver(t, t.Keys)
  }

  /** The sum may take out any id first. */
  lemma {:induction false} SlotsPick(t: Table, ks: set<int>, k: int)
    requires ks <= t.Keys && k in ks
    ensures SlotsOver(t, ks) == |t[k].names| + SlotsOver(t, ks - {k})
    decreases |ks|
  {
    var j :| j in ks && SlotsOver(t, ks) == |t[j].names| + SlotsOver(t, ks - {j});
    if j != k {
      SlotsPick(t, ks - {j}, k);
      SlotsPick(t, ks - {k}, j);
      assert ks - {j} - {k} == ks - {k} - {j};
    }
  }

  /** Two tables whose groups have the same sizes on `ks` have the same sum there. */
  lemma {:induction false} SlotsAgree(t: Table, u: Table, ks: set<int>)
    requires ks <= t.Keys && ks <= u.Keys
    requires forall k :: k in ks ==> |t[k].names| == |u[k].names|
    ensures SlotsOver(t, ks) == SlotsOver(u, ks)
    decreases |ks|
  {
    if ks != {} {
      NonEmpty(ks);
      var k :| k in ks;
      SlotsPick(t, ks, k);
      SlotsPick(u, ks, k);
      SlotsAgree(t, u, ks - {k});
    }
  }

  /** Adding a record adds exactly one slot. */
  lemma AddRecordSlots(t: Table, r: Record)
    ensures TotalSlots(AddRecord(t, r)) == TotalSlots(t) + 1
  {
    var u := AddRecord(t, r);
    if r.id in t {
      assert u.Keys == t.Keys;
      SlotsPick(u, u.Keys, r.id);
      SlotsPick(t, t.Keys, r.id);
      SlotsAgree(t, u, t.Keys - {r.id});
    } else {
      assert u.Keys - {r.id} == t.Keys;
      SlotsPick(u, u.Keys, r.id);
      SlotsAgree(t, u, t.Keys);
    }
  }

  /** Grouping drops nothing: the slots of the table add up to the number of records. */
  lemma {:induction false} GroupedKeepsAll(rs: seq<Record>)
    ensures TotalSlots(Grouped(rs)) == |rs|
    decreases |rs|
  {
    if rs != [] {
      GroupedKeepsAll(rs[..|rs| - 1]);
      AddRecordSlots(Grouped(rs[..|rs| - 1]), rs[|rs| - 1]);
    }
  }

  // ---------------------------------------------------------------------------------------
  // Alias deduplication (_deduplicate_names)
  // ---------------------------------------------------------------------------------------

  /** `s[from:].index(x) + from`: the first index at or after `from` holding `x`, if any. */
  function FindFrom(s: seq<Option<string>>, x: Option<string>, from: nat): (r: Option<nat>)
    ensures r.Some? ==> from <= r.value < |s| && s[r.value] == x
    ensures r.Some? ==> forall k :: from <= k < r.value ==> s[k] != x
    ensures r.None? ==> forall k :: from <= k < |s| ==> s[k] != x
    decreases |s| - from
  {
    if from >= |s| then None
    else if s[from] == x then Some(from)
    else FindFrom(s, x, from + 1)
  }

  /** Iteration `i` of the inner loop: blank the first later slot whose name equals slot `i`'s. */
  function DedupStep(g: Group, i: nat): (r: Group)
    requires Aligned(g) && i < |g.names|
    ensures Aligned(r) && |r.names| == |g.names|
  {
    match FindFrom(g.names, g.names[i], i + 1)
    case None => g
    case Some(j) => Group(g.names[j := None], g.descs[j := None])
  }

  /** The group after iterations `0 .. i-1` of the inner loop. */
  function DedupThrough(g: Group, i: nat): (r: Group)
    requires Aligned(g) && i <= |g.names|
    ensures Aligned(r) && |r.names| == |g.names|
  {
    if i == 0 then g else DedupStep(DedupThrough(g, i - 1), i - 1)
  }

  /** The group after `_deduplicate_names`: iterations `0 .. len - 2`, none for a single slot. */
  function DedupGroup(g: Group): Group
    requires Aligned(g)
  {
    if |g.names| == 1 then g else DedupThrough(g, if |g.names| == 0 then 0 else |g.names| - 1)
  }

  /** The inner loop of `_deduplicate_names` on one group. */
  method DeduplicateGroup(g: Group) returns (r: Group)
    requires Aligned(g)
    ensures r == DedupGroup(g)
  {
    var names := g.names;
    var descs := g.descs;
    var nNames := |names|;
    if nNames == 1 {
      return g;
    }
    var i := 0;
    while i < nNames - 1
      invariant 0 <= i <= |g.names|
      invariant nNames == 0 ==> i == 0
      invariant nNames > 0 ==> i <= nNames - 1
      invariant Group(names, descs) == DedupThrough(g, i)
    {
      var name := names[i];
      var duplicateIdx := FindFrom(names, name, i + 1);
      if duplicateIdx.Some? {
        names := names[duplicateIdx.value := None];
        descs := descs[duplicateIdx.value := None];
      }
      i := i + 1;
    }
    return Group(names, descs);
  }

  /** The table after `_deduplicate_names`: every group deduplicated. */
  function DedupTable(t: Table): (r: Table)
    requires WellFormed(t)
    ensures r.Keys == t.Keys
  {
    map k | k in t :: DedupGroup(t[k])
  }

  /** `_deduplicate_names`: the groups are rewritten one by one, in place. */
  method DeduplicateNames(t: NvTable)
    requires WellFormed(t.groups)
    modifies t
    ensures t.groups == DedupTable(old(t.groups))
  {
    ghost var t0 := t.groups;
    var todo := t.groups.Keys;
    while todo != {}
      invariant todo <= t0.Keys
      invariant t.groups.Keys == t0.Keys
      invariant forall k :: k in t0 ==> t.groups[k] == if k in todo then t0[k] else DedupGroup(t0[k])
      decreases |todo|
    {
      NonEmpty(todo);
      var k :| k in todo;
      var g := DeduplicateGroup(t.groups[k]);
      t.groups := t.groups[k := g];
      todo := todo - {k};
    }
    assert t.groups.Keys == DedupTable(t0).Keys;
    assert forall k :: k in t0 ==> t.groups[k] == DedupTable(t0)[k];
  }

  /**
   * What the first `i` iterations may do: keep lengths and slot 0; a slot whose name changed is now
   * blank, name and description, and originally repeated an earlier name; a slot whose description
   * changed is blank.
   */
  lemma {:induction false} DedupThroughEffects(g: Group, i: nat)
    requires Aligned(g) && i <= |g.names|
    ensures |g.names| > 0 ==> DedupThrough(g, i).names[0] == g.names[0] && DedupThrough(g, i).descs[0] == g.descs[0]
    ensures forall j :: 0 <= j < |g.names| && DedupThrough(g, i).names[j] != g.names[j] ==>
      DedupThrough(g, i).names[j].None? && DedupThrough(g, i).descs[j].None? && (exists k :: 0 <= k < j && g.names[k] == g.names[j])
    ensures forall j :: 0 <= j < |g.names| && DedupThrough(g, i).descs[j] != g.descs[j] ==>
      DedupThrough(g, i).names[j].None? && DedupThrough(g, i).descs[j].None?
    decreases i
  {
    if i > 0 {
      var r := DedupThrough(g, i - 1);
      DedupThroughEffects(g, i - 1);
      var f := FindFrom(r.names, r.names[i - 1], i);
      if f.Some? {
        var j := f.value;
        var r' := Group(r.names[j := None], r.descs[j := None]);
        assert DedupThrough(g, i) == r';
        if r.names[j] == g.names[j] && g.names[j].Some? {
          assert r.names[i - 1] == g.names[i - 1];
          assert g.names[i - 1] == g.names[j];
        }
      }
    }
  }

  /**
   * The effects of `_deduplicate_names` on one group: lengths and alignment kept, slot 0 and
   * single-slot groups untouched, a name blanked only where an earlier slot held the same name,
   * and its description blanked with it; a description changes only by being blanked with its name.
   */
  lemma DedupGroupEffects(g: Group)
    requires Aligned(g)
    ensures Aligned(DedupGroup(g)) && |DedupGroup(g).names| == |g.names|
    ensures |g.names| == 1 ==> DedupGroup(g) == g
    ensures |g.names| > 0 ==> DedupGroup(g).names[0] == g.names[0] && DedupGroup(g).descs[0] == g.descs[0]
    ensures forall j :: 0 <= j < |g.names| && DedupGroup(g).names[j] != g.names[j] ==>
      DedupGroup(g).names[j].None? && DedupGroup(g).descs[j].None? && (exists k :: 0 <= k < j && g.names[k] == g.names[j])
    ensures forall j :: 0 <= j < |g.names| && DedupGroup(g).descs[j] != g.descs[j] ==>
      DedupGroup(g).names[j].None? && DedupGroup(g).descs[j].None?
  {
    if |g.names| != 1 {
      DedupThroughEffects(g, if |g.names| == 0 then 0 else |g.names| - 1);
    }
  }

  /** The first slot holding a given present name keeps its name and description. */
  lemma DedupKeepsFirst(g: Group, j: nat)
    requires Aligned(g) && j < |g.names| && g.names[j].Some?
    requires forall k :: 0 <= k < j ==> g.names[k] != g.names[j]
    ensures DedupGroup(g).names[j] == g.names[j] && DedupGroup(g).descs[j] == g.descs[j]
  {
    DedupGroupEffects(g);
  }

  /** A group whose names are present and pairwise distinct is left as it is. */
  lemma DedupDistinct(g: Group)
    requires Aligned(g)
    requires forall j :: 0 <= j < |g.names| ==> g.names[j].Some?
    requires forall j, k :: 0 <= k < j < |g.names| ==> g.names[k] != g.names[j]
    ensures DedupGroup(g) == g
  {
    DedupGroupEffects(g);
    var r := DedupGroup(g);
    forall j | 0 <= j < |g.names| ensures r.names[j] == g.names[j] && r.descs[j] == g.descs[j] {
      DedupKeepsFirst(g, j);
    }
  }

  /** A repeated alias is blanked together with its description: `[(A,x),(B,y),(A,z)]` becomes `[(A,x),(B,y),(null,null)]`. */
  lemma DedupExample(a: string, b: string, x: Option<string>, y: Option<string>, z: Option<string>)
    requires a != b
    ensures DedupGroup(Group([Some(a), Some(b), Some(a)], [x, y, z])) == Group([Some(a), Some(b), None], [x, y, None])
  {
    var g := Group([Some(a), Some(b), Some(a)], [x, y, z]);
    assert FindFrom(g.names, Some(a), 1) == Some(2);
    var g1 := Group([Some(a), Some(b), None], [x, y, None]);
    assert DedupThrough(g, 1) == g1;
    assert FindFrom(g1.names, Some(b), 2) == None;
  }

  /**
   * Deduplicating is not idempotent: three equal names become `[A, null, A]`, and a second run
   * blanks the third slot as well.
   */
  lemma DedupNotIdempotent(a: string, x: Option<string>, y: Option<string>, z: Option<string>)
    ensures DedupGroup(Group([Some(a), Some(a), Some(a)], [x, y, z])) == Group([Some(a), None, Some(a)], [x, None, z])
    ensures DedupGroup(Group([Some(a), None, Some(a)], [x, None, z])) == Group([Some(a), None, None], [x, None, None])
  {
    var g := Group([Some(a), Some(a), Some(a)], [x, y, z]);
    assert FindFrom(g.names, Some(a), 1) == Some(1);
    var g1 := Group([Some(a), None, Some(a)], [x, None, z]);
    assert DedupThrough(g, 1) == g1;
    assert FindFrom(g1.names, None, 2) == None;
    assert FindFrom(g1.names, Some(a), 1) == Some(2);
    var g2 := Group([Some(a), None, None], [x, None, None]);
    assert DedupThrough(g1, 1) == g2;
    assert FindFrom(g2.names, None, 2) == Some(2);
  }

  /** Deduplication keeps a table well formed. */
  lemma DedupTableWellFormed(t: Table)
    requires WellFormed(t)
    ensures WellFormed(DedupTable(t))
    ensures forall k :: k in t ==> |DedupTable(t)[k].names| == |t[k].names|
  {
    forall k | k in t ensures Aligned(DedupTable(t)[k]) && |DedupTable(t)[k].names| == |t[k].names| {
      DedupGroupEffects(t[k]);
    }
  }

  // ---------------------------------------------------------------------------------------
  // Merging (_merge) and the order of sources in main
  // ---------------------------------------------------------------------------------------

  /** The table after `_merge(into, incoming)`: the groups of `incoming` whose ids `into` lacks are added. */
  function MergeTables(into: Table, incoming: Table): (r: Table)
    ensures r.Keys == into.Keys + incoming.Keys
    ensures forall k :: k in into ==> r[k] == into[k]
    ensures forall k :: k in incoming && k !in into ==> r[k] == incoming[k]
  {
    incoming + into
  }

  /** `_merge`: walk the incoming groups and insert those whose id is new, in place. */
  method Merge(into: NvTable, incoming: NvTable)
    modifies into
    ensures into.groups == MergeTables(old(into.groups), old(incoming.groups))
  {
    var src := incoming.groups;
    ghost var t0 := into.groups;
    var todo := src.Keys;
    ghost var done: set<int> := {};
    while todo != {}
      invariant done + todo == src.Keys
      invariant MergedSoFar(into.groups, t0, src, done)
      decreases |todo|
    {
      NonEmpty(todo);
      var k :| k in todo;
      ghost var before := into.groups;
      InsertIfAbsent(into, k, src[k]);
      MergeStep(before, into.groups, t0, src, done, k);
      todo := todo - {k};
      done := done + {k};
    }
    MergedPointwise(into.groups, t0, src);
  }

  /** One iteration of `_merge`: `if k not in items_into: items_into[k] = v`. */
  method InsertIfAbsent(into: NvTable, k: int, g: Group)
    modifies into
    ensures into.groups == if k in old(into.groups) then old(into.groups) else old(into.groups)[k := g]
  {
    if k !in into.groups {
      into.groups := into.groups[k := g];
    }
  }

  /** The table after the loop of `_merge` has handled the incoming ids in `done`. */
  predicate MergedSoFar(cur: Table, into: Table, incoming: Table, done: set<int>) {
    && done <= incoming.Keys
    && cur.Keys == into.Keys + done
    && forall k :: k in cur ==> cur[k] == if k in into then into[k] else incoming[k]
  }

  /** One iteration of the loop of `_merge` handles one more incoming id. */
  lemma MergeStep(before: Table, after: Table, into: Table, incoming: Table, done: set<int>, k: int)
    requires MergedSoFar(before, into, incoming, done) && k in incoming
    requires after == if k in before then before else before[k := incoming[k]]
    ensures MergedSoFar(after, into, incoming, done + {k})
  {
  }

  /** A table holding the ids of both, with the old group where there was one, is the merge. */
  lemma MergedPointwise(cur: Table, into: Table, incoming: Table)
    requires MergedSoFar(cur, into, incoming, incoming.Keys)
    ensures cur == MergeTables(into, incoming)
  {
    var m := MergeTables(into, incoming);
    assert cur.Keys == m.Keys;
    forall k | k in cur ensures cur[k] == m[k] {
    }
  }

  /** Merging keeps tables well formed. */
  lemma MergeWellFormed(into: Table, incoming: Table)
    requires WellFormed(into) && WellFormed(incoming)
    ensures WellFormed(MergeTables(into, incoming))
  {
  }

  /** The fold of `main`: merge each later table into the accumulated one, in order. */
  function FoldMerge(base: Table, tiers: seq<Table>): Table
    decreases |tiers|
  {
    if tiers == [] then base else FoldMerge(MergeTables(base, tiers[0]), tiers[1..])
  }

  /** The ids of the fold are those of the base and of every merged table. */
  lemma {:induction false} FoldMergeKeys(base: Table, tiers: seq<Table>, k: int)
    ensures k in FoldMerge(base, tiers) <==> k in base || exists i :: 0 <= i < |tiers| && k in tiers[i]
    decreases |tiers|
  {
    if tiers != [] {
      FoldMergeKeys(MergeTables(base, tiers[0]), tiers[1..], k);
      if exists i :: 0 <= i < |tiers| && k in tiers[i] {
        var i :| 0 <= i < |tiers| && k in tiers[i];
        if i > 0 {
          assert k in tiers[1..][i - 1];
        }
      }
      if exists i :: 0 <= i < |tiers| - 1 && k in tiers[1..][i] {
        var i :| 0 <= i < |tiers| - 1 && k in tiers[1..][i];
        assert k in tiers[i + 1];
      }
    }
  }

  /** The group the base table holds for an id survives every merge. */
  lemma {:induction false} FoldMergeKeepsBase(base: Table, tiers: seq<Table>, k: int)
    requires k in base
    ensures k in FoldMerge(base, tiers) && FoldMerge(base, tiers)[k] == base[k]
    decreases |tiers|
  {
    if tiers != [] {
      FoldMergeKeepsBase(MergeTables(base, tiers[0]), tiers[1..], k);
    }
  }

  /** An id the base lacks takes its group from the first merged table holding it. */
  lemma {:induction false} FoldMergeFirstTier(base: Table, tiers: seq<Table>, k: int, i: nat)
    requires k !in base && i < |tiers| && k in tiers[i]
    requires forall j :: 0 <= j < i ==> k !in tiers[j]
    ensures k in FoldMerge(base, tiers) && FoldMerge(base, tiers)[k] == tiers[i][k]
    decreases |tiers|
  {
    if i == 0 {
      FoldMergeKeepsBase(MergeTables(base, tiers[0]), tiers[1..], k);
    } else {
      assert k !in tiers[0];
      forall j | 0 <= j < i - 1 ensures k !in tiers[1..][j] {
        assert tiers[1..][j] == tiers[j + 1];
      }
      FoldMergeFirstTier(MergeTables(base, tiers[0]), tiers[1..], k, i - 1);
    }
  }

  /** The fold keeps tables well formed. */
  lemma {:induction false} FoldMergeWellFormed(base: Table, tiers: seq<Table>)
    requires WellFormed(base) && forall i :: 0 <= i < |tiers| ==> WellFormed(tiers[i])
    ensures WellFormed(FoldMerge(base, tiers))
    decreases |tiers|
  {
    if tiers != [] {
      MergeWellFormed(base, tiers[0]);
      FoldMergeWellFormed(MergeTables(base, tiers[0]), tiers[1..]);
    }
  }
}
