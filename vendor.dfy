/**
 * The three vendor-header readers (`_parse_vendor_1`, `_parse_vendor_2`, `_parse_vendor_3`).
 * Each strips every line and tries its patterns in order; the first pattern that matches
 * yields one record with an id and a name and no description, and a line no pattern matches
 * yields nothing. The patterns themselves are parameters: a dialect is the ordered list of
 * matchers of one reader.
 */
module Vendor {
  import opened Wrappers
  import opened PyStr
  import opened Canonical

  /** What a pattern extracts from a line: the id (already converted) and the name group. */
  datatype NvMatch = NvMatch(id: int, name: string)

  /** The patterns of one reader, in the order the reader tries them. */
  datatype Dialect = Dialect(patterns: seq<string -> Option<NvMatch>>)

  /** The match of the first pattern that matches `line`, if any. */
  function FirstMatch(patterns: seq<string -> Option<NvMatch>>, line: string): (r: Option<NvMatch>)
    ensures r.None? <==> forall i :: 0 <= i < |patterns| ==> patterns[i](line).None?
    ensures r.Some? ==>
      exists i :: 0 <= i < |patterns| && patterns[i](line) == r && (forall j :: 0 <= j < i ==> patterns[j](line).None?)
  {
    if patterns == [] then None
    else if patterns[0](line).Some? then patterns[0](line)
    else
      var r := FirstMatch(patterns[1..], line);
      FirstMatchShift(patterns, line, r);
      r
  }

  /** Moving the first-match facts of the tail past a first pattern that does not match. */
  lemma FirstMatchShift(patterns: seq<string -> Option<NvMatch>>, line: string, r: Option<NvMatch>)
    requires patterns != [] && patterns[0](line).None?
    requires r.None? <==> forall i :: 0 <= i < |patterns| - 1 ==> patterns[1..][i](line).None?
    requires r.Some? ==>
      exists i :: 0 <= i < |patterns| - 1 && patterns[1..][i](line) == r && (forall j :: 0 <= j < i ==> patterns[1..][j](line).None?)
    ensures r.None? <==> forall i :: 0 <= i < |patterns| ==> patterns[i](line).None?
    ensures r.Some? ==>
      exists i :: 0 <= i < |patterns| && patterns[i](line) == r && (forall j :: 0 <= j < i ==> patterns[j](line).None?)
  {
    var tail := patterns[1..];
    if r.Some? {
      var i :| 0 <= i < |tail| && tail[i](line) == r && forall j :: 0 <= j < i ==> tail[j](line).None?;
      assert patterns[i + 1](line) == r;
      forall j | 0 <= j < i + 1 ensures patterns[j](line).None? {
        if j > 0 {
          assert patterns[j] == tail[j - 1];
        }
      }
    } else {
      forall i | 0 <= i < |patterns| ensures patterns[i](line).None? {
        if i > 0 {
          assert patterns[i] == tail[i - 1];
        }
      }
    }
  }

  /** The records one line yields: none, or the first match with an absent description. */
  function LineItems(line: string, d: Dialect): seq<Record> {
    match FirstMatch(d.patterns, Strip(line, Whitespace))
    case None => []
    case Some(m) => [Record(m.id, m.name, None)]
  }

  /** The records a vendor file yields, line by line. */
  function VendorRecords(lines: seq<string>, d: Dialect): seq<Record>
    decreases |lines|
  {
    if lines == [] then []
    else VendorRecords(lines[..|lines| - 1], d) + LineItems(lines[|lines| - 1], d)
  }

  /** The reader itself: one pass over the lines, yielding as it goes. */
  method ParseVendor(lines: seq<string>, d: Dialect) returns (rs: seq<Record>)
    ensures rs == VendorRecords(lines, d)
  {
    rs := [];
    var n := 0;
    while n < |lines|
      invariant 0 <= n <= |lines|
      invariant rs == VendorRecords(lines[..n], d)
    {
      var line := Strip(lines[n], Whitespace);
      var m := FirstMatch(d.patterns, line);
      if m.Some? {
        rs := rs + [Record(m.value.id, m.value.name, None)];
      }
      assert lines[..n + 1][..n] == lines[..n];
      n := n + 1;
    }
    assert lines[..n] == lines;
  }

  /** Reading two pieces of a file one after the other yields the records of the whole. */
  lemma {:induction false} VendorRecordsAppend(a: seq<string>, b: seq<string>, d: Dialect)
    ensures VendorRecords(a + b, d) == VendorRecords(a, d) + VendorRecords(b, d)
    decreases |b|
  {
    if b == [] {
      assert a + b == a;
    } else {
      var b' := b[..|b| - 1];
      assert (a + b)[..|a + b| - 1] == a + b';
      assert (a + b)[|a + b| - 1] == b[|b| - 1];
      VendorRecordsAppend(a, b', d);
    }
  }

  /**
   * Every vendor record comes from one line's first match and has no description; a file
   * yields at most one record per line.
   */
  lemma {:induction false} VendorRecordsShape(lines: seq<string>, d: Dialect)
    ensures |VendorRecords(lines, d)| <= |lines|
    ensures forall r :: r in VendorRecords(lines, d) ==> r.desc.None?
    ensures forall r :: r in VendorRecords(lines, d) ==>
      exists n :: 0 <= n < |lines| && FirstMatch(d.patterns, Strip(lines[n], Whitespace)) == Some(NvMatch(r.id, r.name))
    decreases |lines|
  {
    if lines != [] {
      var init := lines[..|lines| - 1];
      VendorRecordsShape(init, d);
      forall r | r in VendorRecords(lines, d)
        ensures r.desc.None?
        ensures exists n :: 0 <= n < |lines| && FirstMatch(d.patterns, Strip(lines[n], Whitespace)) == Some(NvMatch(r.id, r.name))
      {
        if r in VendorRecords(init, d) {
          var n :| 0 <= n < |init| && FirstMatch(d.patterns, Strip(init[n], Whitespace)) == Some(NvMatch(r.id, r.name));
          assert lines[n] == init[n];
        } else {
          assert r in LineItems(lines[|lines| - 1], d);
        }
      }
    }
  }

  /** A line that no pattern matches contributes nothing. */
  lemma UnmatchedLine(lines: seq<string>, line: string, d: Dialect)
    requires forall i :: 0 <= i < |d.patterns| ==> d.patterns[i](Strip(line, Whitespace)).None?
    ensures VendorRecords(lines + [line], d) == VendorRecords(lines, d)
  {
    assert (lines + [line])[..|lines|] == lines;
  }
}
