/**
 * The writer of the merged table (`_generate_c`): the table sorted by id, one initialiser line
 * per id holding the id right-aligned in five columns, the quoted names joined by `.` and the
 * quoted descriptions joined by ` | ` (or a bare `0`), then the all-zero closing entry.
 */
module Serializer {
  import opened Wrappers
  import opened PyStr
  import opened Canonical
  import opened NvTables

  // ---------------------------------------------------------------------------------------
  // The two text columns of one group
  // ---------------------------------------------------------------------------------------

  /** The present names of a run of slots, in slot order. */
  function PresentNames(names: seq<Option<string>>): seq<string>
    decreases |names|
  {
    if names == [] then []
    else PresentNames(names[..|names| - 1]) + (if names[|names| - 1].Some? then [names[|names| - 1].value] else [])
  }

  /** `parts` without its leading empty strings. */
  function DropLeadingEmpty(parts: seq<string>): (r: seq<string>)
    ensures r == [] || r[0] != ""
  {
    if parts == [] then []
    else if parts[0] == "" then DropLeadingEmpty(parts[1..])
    else parts
  }

  /**
   * The text of the name column: the present names joined by `.`. The loop tests the
   * accumulator's truthiness, so an empty name met while it is still empty adds nothing.
   */
  function NameText(g: Group): string {
    Join(DropLeadingEmpty(PresentNames(g.names)), ".")
  }

  /** Whether a description is truthy: present and not empty. */
  predicate Truthy(d: Option<string>) {
    d.Some? && d.value != ""
  }

  /** The descriptions that reach the output: the truthy ones of slots whose name is present. */
  function LiveDescs(names: seq<Option<string>>, descs: seq<Option<string>>): seq<string>
    requires |names| == |descs|
    decreases |names|
  {
    if names == [] then []
    else
      var n := |names| - 1;
      LiveDescs(names[..n], descs[..n]) + (if names[n].Some? && Truthy(descs[n]) then [descs[n].value] else [])
  }

  /** The text of the description column: the live descriptions joined by ` | `. */
  function DescText(g: Group): string
    requires Aligned(g)
  {
    Join(LiveDescs(g.names, g.descs), " | ")
  }

  function Quoted(s: string): string {
    "\"" + s + "\""
  }

  /** The description column as written: quoted text, or the bare marker `0` when the text is empty. */
  function DescColumn(g: Group): string
    requires Aligned(g)
  {
    if DescText(g) != "" then Quoted(DescText(g)) else "0"
  }

  /** `'{%5d,%s,%s},' % (nv_id, nv_name, nv_desc)`. */
  function Entry(id: int, name: string, desc: string): string {
    "{" + PadLeft(FormatDecimal(id), 5) + "," + name + "," + desc + "},"
  }

  /** The line of one id and its group. */
  function FormatLine(id: int, g: Group): string
    requires Aligned(g)
  {
    Entry(id, Quoted(NameText(g)), DescColumn(g))
  }

  /** The line printed after all ids. */
  const EndLine: string := "{0,0,0}"

  lemma {:induction false} DropLeadingEmptySnoc(parts: seq<string>, x: string)
    ensures DropLeadingEmpty(parts + [x]) ==
      if DropLeadingEmpty(parts) == [] then (if x == "" then [] else [x]) else DropLeadingEmpty(parts) + [x]
    decreases |parts|
  {
    if parts == [] {
      assert [] + [x] == [x];
      assert [x][1..] == [];
    } else {
      assert (parts + [x])[0] == parts[0];
      if parts[0] == "" {
        assert (parts + [x])[1..] == parts[1..] + [x];
        DropLeadingEmptySnoc(parts[1..], x);
      }
    }
  }

  lemma JoinHeadNonEmpty(parts: seq<string>, sep: string)
    requires parts != [] && parts[0] != ""
    ensures Join(parts, sep) != ""
  {
    if |parts| > 1 {
      assert |Join(parts, sep)| >= |parts[0]|;
    }
  }

  /** One slot's effect on the name accumulator. */
  lemma NameStep(names: seq<Option<string>>, i: nat)
    requires i < |names|
    ensures var acc := Join(DropLeadingEmpty(PresentNames(names[..i])), ".");
      Join(DropLeadingEmpty(PresentNames(names[..i + 1])), ".") ==
        if names[i].None? then acc
        else if acc != "" then acc + "." + names[i].value
        else names[i].value
  {
    assert names[..i + 1][..i] == names[..i];
    var p := PresentNames(names[..i]);
    var d := DropLeadingEmpty(p);
    assert PresentNames(names[..i + 1]) == p + (if names[i].Some? then [names[i].value] else []);
    if names[i].None? {
      assert p + [] == p;
    } else {
      var v := names[i].value;
      DropLeadingEmptySnoc(p, v);
      if d != [] {
        JoinHeadNonEmpty(d, ".");
        JoinSnoc(d, v, ".");
      }
    }
  }

  lemma {:induction false} LiveDescsNonEmpty(names: seq<Option<string>>, descs: seq<Option<string>>)
    requires |names| == |descs|
    ensures forall i :: 0 <= i < |LiveDescs(names, descs)| ==> LiveDescs(names, descs)[i] != ""
    decreases |names|
  {
    if names != [] {
      LiveDescsNonEmpty(names[..|names| - 1], descs[..|names| - 1]);
    }
  }

  /** One slot's effect on the description accumulator. */
  lemma DescStep(names: seq<Option<string>>, descs: seq<Option<string>>, i: nat)
    requires |names| == |descs| && i < |names|
    ensures var acc := Join(LiveDescs(names[..i], descs[..i]), " | ");
      Join(LiveDescs(names[..i + 1], descs[..i + 1]), " | ") ==
        if names[i].None? || !Truthy(descs[i]) then acc
        else if acc != "" then acc + " | " + descs[i].value
        else descs[i].value
  {
    assert names[..i + 1][..i] == names[..i];
    assert descs[..i + 1][..i] == descs[..i];
    var l := LiveDescs(names[..i], descs[..i]);
    assert LiveDescs(names[..i + 1], descs[..i + 1]) ==
      l + (if names[i].Some? && Truthy(descs[i]) then [descs[i].value] else []);
    if !(names[i].Some? && Truthy(descs[i])) {
      assert l + [] == l;
    } else {
      var v := descs[i].value;
      LiveDescsNonEmpty(names[..i], descs[..i]);
      JoinEmpty(l, " | ");
      if l != [] {
        JoinSnoc(l, v, " | ");
      } else {
        assert l + [v] == [v];
      }
    }
  }

  /** The inner loop of `_generate_c`: the name and description columns of one group, unquoted. */
  method RenderFields(g: Group) returns (nvName: string, nvDesc: string)
    requires Aligned(g)
    ensures nvName == NameText(g) && nvDesc == DescText(g)
  {
    var names := g.names;
    var descs := g.descs;
    var nNames := |names|;
    nvName := "";
    nvDesc := "";
    for i := 0 to nNames
      invariant nvName == Join(DropLeadingEmpty(PresentNames(names[..i])), ".")
      invariant nvDesc == Join(LiveDescs(names[..i], descs[..i]), " | ")
    {
      NameStep(names, i);
      DescStep(names, descs, i);
      if names[i].None? {
        continue;
      }
      if nvName != "" {
        nvName := nvName + "." + names[i].value;
      } else {
        nvName := names[i].value;
      }
      if nvDesc != "" {
        if Truthy(descs[i]) {
          nvDesc := nvDesc + " | " + descs[i].value;
        }
      } else {
        if Truthy(descs[i]) {
          nvDesc := nvDesc + descs[i].value;
        }
      }
    }
    assert names[..nNames] == names && descs[..nNames] == descs;
  }

  // ---------------------------------------------------------------------------------------
  // Ordering and the output as a whole
  // ---------------------------------------------------------------------------------------

  lemma {:induction false} HasLeast(ks: set<int>)
    requires ks != {}
    ensures exists m :: m in ks && forall k :: k in ks ==> m <= k
    decreases |ks|
  {
    NonEmpty(ks);
    var x :| x in ks;
    var rest := ks - {x};
    if rest == {} {
      assert ks <= {x} + rest;
    } else {
      HasLeast(rest);
      var m :| m in rest && forall k :: k in rest ==> m <= k;
      var least := if x < m then x else m;
      assert least in ks;
      forall k | k in ks ensures least <= k {
        if k != x {
          assert k in rest;
        }
      }
    }
  }

  /** The smallest id of a non-empty set. */
  function Least(ks: set<int>): (m: int)
    requires ks != {}
    ensures m in ks && forall k :: k in ks ==> m <= k
  {
    HasLeast(ks);
    var m :| m in ks && forall k :: k in ks ==> m <= k;
    m
  }

  /** `sorted()` on a set of ids. */
  function SortedKeys(ks: set<int>): seq<int>
    decreases |ks|
  {
    if ks == {} then [] else [Least(ks)] + SortedKeys(ks - {Least(ks)})
  }

  /** The sorted ids are strictly ascending and are exactly the ids of the set. */
  lemma {:induction false} SortedKeysProperties(ks: set<int>)
    ensures |SortedKeys(ks)| == |ks|
    ensures forall i, j :: 0 <= i < j < |SortedKeys(ks)| ==> SortedKeys(ks)[i] < SortedKeys(ks)[j]
    ensures forall k :: k in ks <==> k in SortedKeys(ks)
    decreases |ks|
  {
    if ks != {} {
      var m := Least(ks);
      var rest := ks - {m};
      SortedKeysProperties(rest);
      var r := SortedKeys(ks);
      assert r == [m] + SortedKeys(rest);
      forall i, j | 0 <= i < j < |r| ensures r[i] < r[j] {
        if i == 0 {
          assert r[j] == SortedKeys(rest)[j - 1];
          assert r[j] in rest;
        } else {
          assert r[i] == SortedKeys(rest)[i - 1] && r[j] == SortedKeys(rest)[j - 1];
        }
      }
    }
  }

  /** The lines for the ids `ids`, in that order. */
  function RenderIds(t: Table, ids: seq<int>): (r: seq<string>)
    requires WellFormed(t) && forall i :: 0 <= i < |ids| ==> ids[i] in t
  {
    seq(|ids|, i requires 0 <= i < |ids| => FormatLine(ids[i], t[ids[i]]))
  }

  /** Everything `_generate_c` prints for a table, one string per line. */
  function Render(t: Table): seq<string>
    requires WellFormed(t)
  {
    var ids := SortedKeys(t.Keys);
    SortedKeysProperties(t.Keys);
    RenderIds(t, ids) + [EndLine]
  }

  /** A prefix one longer is the prefix and the next element. */
  lemma PrefixSnoc<T>(s: seq<T>, i: nat)
    requires i < |s|
    ensures s[..i + 1] == s[..i] + [s[i]]
  {
  }

  lemma PrefixAll<T>(s: seq<T>)
    ensures s[..|s|] == s
  {
  }

  /** One turn of the outer loop of `_generate_c`: the line printed for one id. */
  method RenderLine(nvId: int, g: Group) returns (line: string)
    requires Aligned(g)
    ensures line == FormatLine(nvId, g)
  {
    var nvName, nvDesc := RenderFields(g);
    nvName := Quoted(nvName);
    if nvDesc != "" {
      nvDesc := Quoted(nvDesc);
    } else {
      nvDesc := "0";
    }
    line := Entry(nvId, nvName, nvDesc);
  }

  /** `_generate_c`, returning its lines instead of printing them. */
  method GenerateC(t: NvTable) returns (out: seq<string>)
    requires WellFormed(t.groups)
    ensures out == Render(t.groups)
  {
    var items := t.groups;
    var ids := SortedKeys(items.Keys);
    SortedKeysProperties(items.Keys);
    ghost var lines := RenderIds(items, ids);
    out := [];
    for i := 0 to |ids|
      invariant out == lines[..i]
    {
      var line := RenderLine(ids[i], items[ids[i]]);
      assert line == lines[i];
      PrefixSnoc(lines, i);
      out := out + [line];
    }
    PrefixAll(lines);
    out := out + [EndLine];
  }

  /**
   * The output has one line per id, in strictly ascending id order, each the formatted line of
   * that id's group, and then the single closing line.
   */
  lemma OutputShape(t: Table)
    requires WellFormed(t)
    ensures |Render(t)| == |t| + 1
    ensures Render(t)[|t|] == EndLine
    ensures forall i :: 0 <= i < |t| ==> SortedKeys(t.Keys)[i] in t && Render(t)[i] == FormatLine(SortedKeys(t.Keys)[i], t[SortedKeys(t.Keys)[i]])
    ensures forall i, j :: 0 <= i < j < |t| ==> SortedKeys(t.Keys)[i] < SortedKeys(t.Keys)[j]
    ensures forall k :: k in t <==> k in SortedKeys(t.Keys)
  {
    SortedKeysProperties(t.Keys);
    assert |t.Keys| == |t|;
  }

  /** The name column joins the present names in slot order when the first of them is not empty. */
  lemma NameTextJoins(g: Group)
    requires PresentNames(g.names) == [] || PresentNames(g.names)[0] != ""
    ensures NameText(g) == Join(PresentNames(g.names), ".")
  {
  }

  /** The description column is the bare `0` exactly when no slot with a name has a truthy description. */
  lemma EmptyDescMarker(g: Group)
    requires Aligned(g)
    ensures DescColumn(g) == "0" <==> LiveDescs(g.names, g.descs) == []
    ensures DescColumn(g) != "0" ==> DescColumn(g) == Quoted(Join(LiveDescs(g.names, g.descs), " | "))
  {
    LiveDescsNonEmpty(g.names, g.descs);
    JoinEmpty(LiveDescs(g.names, g.descs), " | ");
  }

  /** The padded id column has no comma or brace, and stripping it gives back the decimal text. */
  lemma PaddedId(id: int)
    ensures var p := PadLeft(FormatDecimal(id), 5);
      ',' !in p && '{' !in p && '}' !in p && p != [] && Strip(p, Whitespace) == FormatDecimal(id)
  {
    var s := FormatDecimal(id);
    FormattedPlain(id);
    assert ',' !in s && '{' !in s && '}' !in s;
    PadLeftStrip(s, 5);
    PadLeftChars(s, 5, ',');
    PadLeftChars(s, 5, '{');
    PadLeftChars(s, 5, '}');
  }

  /**
   * The writer's lines read back through the canonical reader: a line decodes to its id, its name
   * text and its description text (absent for the bare `0`), provided neither text holds a comma
   * or a quote.
   */
  lemma LineReadsBack(id: int, g: Group)
    requires Aligned(g)
    requires ',' !in NameText(g) && '"' !in NameText(g)
    requires ',' !in DescText(g) && '"' !in DescText(g)
    ensures DecodeEntry(FormatLine(id, g)) ==
      Fields(id, Some(NameText(g)), if DescText(g) == "" then None else Some(DescText(g)))
  {
    var a := PadLeft(FormatDecimal(id), 5);
    var b := Quoted(NameText(g));
    var c := DescColumn(g);
    PaddedId(id);
    ParseFormatted(id);
    assert ',' !in b && ',' !in c;
    assert b[0] == '"' && b[|b| - 1] == '"';
    StripKeeps(b, Whitespace);
    DecodeQuoted(NameText(g));
    StripKeeps(c, Whitespace);
    if DescText(g) != "" {
      assert c[0] == '"' && c[|c| - 1] == '"';
      DecodeQuoted(DescText(g));
    }
    DecodeBraced(a, b, c, "},");
  }

  /** The closing line the writer prints is the entry that closes the block for the reader. */
  lemma EndLineCloses()
    ensures IsTerminator(DecodeEntry(EndLine))
  {
    TerminatorText(EndLine);
  }
}
