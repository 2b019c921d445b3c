/**
 * The reader of the canonical table (`_parse_orig`): a two-state line scanner that looks for the
 * line opening the `nvid[]` initialiser, then decodes one `{id,name,description},` entry per line
 * until the all-zero entry closes the block.
 */
module Canonical {
  import opened Wrappers
  import opened PyStr

  /** The text whose presence on a line opens the block. */
  const BlockMarker: string := "struct nvdesc nvid[] = {"

  /** One entry of the block; a yielded entry always has a name. */
  datatype Record = Record(id: int, name: string, desc: Option<string>)

  /** The exceptions that abort the run; `line` is 1-based and `raw` is the line as read. */
  datatype ParseError =
    | FieldCount(line: nat, raw: string)   // not exactly three comma-separated fields
    | BadId(literal: string)               // int() refused the first field (its message names only the literal)
    | NoName(line: nat, raw: string)       // a name of 0 or NULL on an entry that is not the terminator

  /** An in-block line after decoding its fields. */
  datatype Decoded =
    | Fields(id: int, name: Option<string>, desc: Option<string>)
    | WrongFieldCount
    | InvalidId(literal: string)

  /** A name or description field: the magic literals `0` and `NULL` mean "absent"; otherwise outer quotes go. */
  function DecodeField(f: string): (r: Option<string>)
    ensures r.None? <==> f == "0" || f == "NULL"
    ensures r.Some? ==> r.value == [] || (r.value[0] != '"' && r.value[|r.value| - 1] != '"')
    ensures r.Some? ==> |r.value| <= |f|
  {
    if f == "0" || f == "NULL" then None
    else
      StripShape(f, Only('"'));
      Some(Strip(f, Only('"')))
  }

  /** A quoted field decodes to its contents, provided they hold no quote. */
  lemma DecodeQuoted(v: string)
    requires '"' !in v
    ensures DecodeField("\"" + v + "\"") == Some(v)
  {
    var f := "\"" + v + "\"";
    assert f[0] == '"';
    if v == [] {
      assert Strip(f, Only('"')) == [];
    } else {
      assert v[0] in v && v[|v| - 1] in v;
      StripSurrounded("\"", v, "\"", Only('"'));
    }
  }

  /** The entry with the leading `{` and the trailing `,` and `}` removed, in that order. */
  function Unbrace(line: string): string {
    RStrip(RStrip(LStrip(line, Only('{')), Only(',')), Only('}'))
  }

  function StripEach(parts: seq<string>): (r: seq<string>)
    ensures |r| == |parts|
    ensures forall i :: 0 <= i < |parts| ==> r[i] == Strip(parts[i], Whitespace)
  {
    if parts == [] then [] else [Strip(parts[0], Whitespace)] + StripEach(parts[1..])
  }

  /** Decodes one in-block line (already stripped of whitespace) into its three fields. */
  function DecodeEntry(line: string): Decoded {
    var parts := StripEach(Split(Unbrace(line), ','));
    if |parts| != 3 then WrongFieldCount
    else
      match ParseDecimal(parts[0])
      case None => InvalidId(parts[0])
      case Some(id) => Fields(id, DecodeField(parts[1]), DecodeField(parts[2]))
  }

  /**
   * An entry has the wrong number of fields exactly when its unbraced text does not hold two commas;
   * otherwise its fields are the three comma-separated pieces, each stripped of whitespace.
   */
  lemma DecodeEntryFields(line: string)
    ensures DecodeEntry(line).WrongFieldCount? <==> multiset(Unbrace(line))[','] != 2
    ensures DecodeEntry(line).Fields? ==>
      var parts := Split(Unbrace(line), ',');
      ParseDecimal(Strip(parts[0], Whitespace)) == Some(DecodeEntry(line).id)
      && DecodeEntry(line).name == DecodeField(Strip(parts[1], Whitespace))
      && DecodeEntry(line).desc == DecodeField(Strip(parts[2], Whitespace))
  {
    SplitProperties(Unbrace(line), ',');
  }

  /** Unbracing `{body},` gives `body` back when `body` neither starts nor ends with a brace. */
  lemma UnbraceWithComma(body: string)
    requires body != [] && body[0] != '{' && body[|body| - 1] != '}'
    ensures Unbrace("{" + body + "},") == body
  {
    var l := LStrip("{" + body + "},", Only('{'));
    assert l == body + "}," by {
      assert "{" + body + "}," == "{" + (body + "},");
      LStripPrefix("{", body + "},", Only('{'));
    }
    var r := RStrip(l, Only(','));
    assert r == body + "}" by {
      assert body + "}," == (body + "}") + ",";
      RStripSuffix(body + "}", ",", Only(','));
    }
    assert RStrip(r, Only('}')) == body by {
      RStripSuffix(body, "}", Only('}'));
    }
  }

  /** Unbracing `{body}` gives `body` back when `body` neither starts nor ends with a brace. */
  lemma UnbraceWithoutComma(body: string)
    requires body != [] && body[0] != '{' && body[|body| - 1] != '}'
    ensures Unbrace("{" + body + "}") == body
  {
    var l := LStrip("{" + body + "}", Only('{'));
    assert l == body + "}" by {
      assert "{" + body + "}" == "{" + (body + "}");
      LStripPrefix("{", body + "}", Only('{'));
    }
    assert RStrip(l, Only(',')) == l by {
      assert l[|l| - 1] == '}';
    }
    assert RStrip(l, Only('}')) == body by {
      RStripSuffix(body, "}", Only('}'));
    }
  }

  /** Three comma-free pieces glued with commas split back into those pieces. */
  lemma SplitThree(a: string, b: string, c: string)
    requires ',' !in a && ',' !in b && ',' !in c
    ensures Split(a + "," + b + "," + c, ',') == [a, b, c]
  {
    assert a + "," + b + "," + c == a + [','] + (b + [','] + c);
    SplitGlued(a, b + [','] + c, ',');
    SplitGlued(b, c, ',');
    SplitNone(c, ',');
  }

  /** A line whose unbraced text is three comma-free pieces decodes field by field. */
  lemma DecodeThree(line: string, a: string, b: string, c: string)
    requires ',' !in a && ',' !in b && ',' !in c
    requires Unbrace(line) == a + "," + b + "," + c
    ensures DecodeEntry(line) ==
      match ParseDecimal(Strip(a, Whitespace))
      case None => InvalidId(Strip(a, Whitespace))
      case Some(id) => Fields(id, DecodeField(Strip(b, Whitespace)), DecodeField(Strip(c, Whitespace)))
  {
    SplitThree(a, b, c);
    assert StripEach([a, b, c]) == [Strip(a, Whitespace), Strip(b, Whitespace), Strip(c, Whitespace)];
  }

  /**
   * An entry written as `{a,b,c}` or `{a,b,c},` (with `a`, `b`, `c` free of commas, `a` not
   * starting with a brace and `c` not ending with one) decodes field by field.
   */
  lemma DecodeBraced(a: string, b: string, c: string, tail: string)
    requires ',' !in a && ',' !in b && ',' !in c
    requires a != [] && a[0] != '{' && c != [] && c[|c| - 1] != '}'
    requires tail == "}" || tail == "},"
    ensures DecodeEntry("{" + a + "," + b + "," + c + tail) ==
      match ParseDecimal(Strip(a, Whitespace))
      case None => InvalidId(Strip(a, Whitespace))
      case Some(id) => Fields(id, DecodeField(Strip(b, Whitespace)), DecodeField(Strip(c, Whitespace)))
  {
    var body := a + "," + b + "," + c;
    assert Unbrace("{" + a + "," + b + "," + c + tail) == body by {
      assert body[0] == a[0] && body[|body| - 1] == c[|c| - 1];
      assert "{" + a + "," + b + "," + c + tail == "{" + body + tail;
      if tail == "}," {
        UnbraceWithComma(body);
      } else {
        UnbraceWithoutComma(body);
      }
    }
    DecodeThree("{" + a + "," + b + "," + c + tail, a, b, c);
  }

  /** The all-zero entry that closes the block. */
  predicate IsTerminator(d: Decoded) {
    d == Fields(0, None, None)
  }

  /**
   * A line of the file as the scanner sees it: the raw text, whether (once stripped) it holds
   * the block-opening text, and what it decodes to as an entry.
   */
  datatype Line = Line(raw: string, isMarker: bool, entry: Decoded)

  function Classify(raw: string): Line {
    var line := Strip(raw, Whitespace);
    Line(raw, Contains(line, BlockMarker), DecodeEntry(line))
  }

  function ClassifyAll(lines: seq<string>): (ls: seq<Line>)
    ensures |ls| == |lines|
    ensures forall j :: 0 <= j < |lines| ==> ls[j] == Classify(lines[j])
  {
    seq(|lines|, j requires 0 <= j < |lines| => Classify(lines[j]))
  }

  /** What one line does to the scanner. */
  datatype Step = Next(inList: bool, item: Option<Record>) | Fail(error: ParseError)

  /** One iteration of the scanner on the `n`-th line (1-based), in state `inList`. */
  function StepLine(inList: bool, l: Line, n: nat): Step {
    if l.isMarker then Next(true, None)
    else if !inList then Next(false, None)
    else
      match l.entry
      case WrongFieldCount => Fail(FieldCount(n, l.raw))
      case InvalidId(lit) => Fail(BadId(lit))
      case Fields(id, name, desc) =>
        if id == 0 && name.None? && desc.None? then Next(false, None)
        else if name.None? then Fail(NoName(n, l.raw))
        else Next(true, Some(Record(id, name.value, desc)))
  }

  function ItemSeq(item: Option<Record>): seq<Record> {
    if item.Some? then [item.value] else []
  }

  /** The scanner run over lines `k..` from state `inList`: the records yielded, or the error raised. */
  function ScanFrom(ls: seq<Line>, k: nat, inList: bool): Result<seq<Record>, ParseError>
    requires k <= |ls|
    decreases |ls| - k
  {
    if k == |ls| then Ok([])
    else
      match StepLine(inList, ls[k], k + 1)
      case Fail(e) => Err(e)
      case Next(s, item) =>
        match ScanFrom(ls, k + 1, s)
        case Err(e) => Err(e)
        case Ok(rs) => Ok(ItemSeq(item) + rs)
  }

  /** The reader of the canonical file as a whole. */
  function Scan(lines: seq<string>): Result<seq<Record>, ParseError> {
    ScanFrom(ClassifyAll(lines), 0, false)
  }

  /** `items` followed by the records of `r`, or the error of `r`. */
  function Prefixed(items: seq<Record>, r: Result<seq<Record>, ParseError>): Result<seq<Record>, ParseError> {
    match r
    case Err(e) => Err(e)
    case Ok(rs) => Ok(items + rs)
  }

  /** A line that raises ends the scan with its error. */
  lemma ScanFails(ls: seq<Line>, k: nat, inList: bool)
    requires k < |ls| && StepLine(inList, ls[k], k + 1).Fail?
    ensures ScanFrom(ls, k, inList) == Err(StepLine(inList, ls[k], k + 1).error)
  {
  }

  /** A line that does not raise contributes its item, if any, ahead of the rest of the scan. */
  lemma ScanContinues(ls: seq<Line>, k: nat, inList: bool, items: seq<Record>)
    requires k < |ls| && StepLine(inList, ls[k], k + 1).Next?
    ensures Prefixed(items, ScanFrom(ls, k, inList))
      == Prefixed(items + ItemSeq(StepLine(inList, ls[k], k + 1).item),
                  ScanFrom(ls, k + 1, StepLine(inList, ls[k], k + 1).inList))
  {
    var st := StepLine(inList, ls[k], k + 1);
    var rest := ScanFrom(ls, k + 1, st.inList);
    assert ScanFrom(ls, k, inList) ==
      match rest case Err(e) => Err(e) case Ok(rs) => Ok(ItemSeq(st.item) + rs);
    match rest
    case Err(_) =>
    case Ok(rs) =>
      assert items + (ItemSeq(st.item) + rs) == (items + ItemSeq(st.item)) + rs;
  }

  /** `_parse_orig` over the lines of the file: the list it yields in full, or the error it raises. */
  method ParseCanonical(lines: seq<string>) returns (r: Result<seq<Record>, ParseError>)
    ensures r == Scan(lines)
  {
    ghost var ls := ClassifyAll(lines);
    var listStarted := false;
    var n := 0;
    var items: seq<Record> := [];
    match ScanFrom(ls, 0, false) {
      case Err(_) =>
      case Ok(rs) => assert items + rs == rs;
    }
    while n < |lines|
      invariant n <= |lines|
      invariant Scan(lines) == Prefixed(items, ScanFrom(ls, n, listStarted))
    {
      var raw := lines[n];
      ghost var step := StepLine(listStarted, ls[n], n + 1);
      ghost var before := items;
      if step.Fail? {
        ScanFails(ls, n, listStarted);
      } else {
        ScanContinues(ls, n, listStarted, items);
      }
      n := n + 1;
      var line := Strip(raw, Whitespace);
      ghost var l := ls[n - 1];
      assert l.raw == raw && l.isMarker == Contains(line, BlockMarker) && l.entry == DecodeEntry(line) by {
        assert l == Classify(raw);
      }
      if Contains(line, BlockMarker) {
        listStarted := true;
      } else if listStarted {
        var d := DecodeEntry(line);
        if d.WrongFieldCount? {
          assert step == Fail(FieldCount(n, raw));
          return Err(FieldCount(n, raw));
        } else if d.InvalidId? {
          assert step == Fail(BadId(d.literal));
          return Err(BadId(d.literal));
        }
        if d.id == 0 && d.name.None? && d.desc.None? {
          listStarted := false;
        } else {
          if d.name.None? {
            assert step == Fail(NoName(n, raw));
            return Err(NoName(n, raw));
          }
          items := items + [Record(d.id, d.name.value, d.desc)];
        }
      }
      assert step.Next? && step.inList == listStarted;
      assert items == before + ItemSeq(step.item);
    }
    assert items + [] == items;
    return Ok(items);
  }

  // ---------------------------------------------------------------------------------------------
  // A line-by-line account of the scanner, independent of its loop: each line's state, its error
  // and its record are defined from the lines before it, and the scan is shown to agree with it.

  /** Whether the block is open when line `j` (0-based) is reached: a marker opens it, a terminator closes it. */
  ghost function InBlockBefore(ls: seq<Line>, j: nat): bool
    requires j <= |ls|
  {
    if j == 0 then false
    else if ls[j - 1].isMarker then true
    else InBlockBefore(ls, j - 1) && !IsTerminator(ls[j - 1].entry)
  }

  /** The error line `j` raises, if it is an entry of the open block that is malformed or nameless. */
  ghost function LineError(ls: seq<Line>, j: nat): Option<ParseError>
    requires j < |ls|
  {
    if ls[j].isMarker || !InBlockBefore(ls, j) then None
    else
      match ls[j].entry
      case WrongFieldCount => Some(FieldCount(j + 1, ls[j].raw))
      case InvalidId(lit) => Some(BadId(lit))
      case Fields(id, name, desc) =>
        if name.None? && !(id == 0 && desc.None?) then Some(NoName(j + 1, ls[j].raw)) else None
  }

  /** The record line `j` contributes: one for a named entry of the open block, none otherwise. */
  ghost function LineRecords(ls: seq<Line>, j: nat): seq<Record>
    requires j < |ls|
  {
    if ls[j].isMarker || !InBlockBefore(ls, j) then []
    else
      match ls[j].entry
      case Fields(id, Some(name), desc) => [Record(id, name, desc)]
      case _ => []
  }

  /** The records of lines `k..`, in line order. */
  ghost function RecordsFrom(ls: seq<Line>, k: nat): seq<Record>
    requires k <= |ls|
    decreases |ls| - k
  {
    if k == |ls| then [] else LineRecords(ls, k) + RecordsFrom(ls, k + 1)
  }

  /** One scanner step agrees with the line-by-line account of line `k`. */
  lemma StepAgrees(ls: seq<Line>, k: nat)
    requires k < |ls|
    ensures var st := StepLine(InBlockBefore(ls, k), ls[k], k + 1);
      && (st.Fail? <==> LineError(ls, k).Some?)
      && (st.Fail? ==> st.error == LineError(ls, k).value)
      && (st.Next? ==> st.inList == InBlockBefore(ls, k + 1) && ItemSeq(st.item) == LineRecords(ls, k))
  {
  }

  /** With no error on lines `k..`, the scan yields exactly their records. */
  lemma {:induction false} ScanYieldsRecords(ls: seq<Line>, k: nat)
    requires k <= |ls|
    requires forall j :: k <= j < |ls| ==> LineError(ls, j).None?
    ensures ScanFrom(ls, k, InBlockBefore(ls, k)) == Ok(RecordsFrom(ls, k))
    decreases |ls| - k
  {
    if k < |ls| {
      StepAgrees(ls, k);
      ScanYieldsRecords(ls, k + 1);
    }
  }

  /** The scan raises the error of the first line of `k..` that has one. */
  lemma {:induction false} ScanRaisesFirstError(ls: seq<Line>, k: nat, j: nat)
    requires k <= j < |ls|
    requires LineError(ls, j).Some?
    requires forall i :: k <= i < j ==> LineError(ls, i).None?
    ensures ScanFrom(ls, k, InBlockBefore(ls, k)) == Err(LineError(ls, j).value)
    decreases j - k
  {
    StepAgrees(ls, k);
    if k < j {
      ScanRaisesFirstError(ls, k + 1, j);
    }
  }

  /**
   * The whole of `_parse_orig` (run it on `ClassifyAll(lines)`): it raises the error of the first
   * line that has one, and otherwise yields the records of the block's lines in order.
   */
  lemma ParseOutcome(ls: seq<Line>)
    ensures (forall j :: 0 <= j < |ls| ==> LineError(ls, j).None?) ==> ScanFrom(ls, 0, false) == Ok(RecordsFrom(ls, 0))
    ensures forall j :: (0 <= j < |ls| && LineError(ls, j).Some?
                         && (forall i :: 0 <= i < j ==> LineError(ls, i).None?))
                        ==> ScanFrom(ls, 0, false) == Err(LineError(ls, j).value)
  {
    if forall j :: 0 <= j < |ls| ==> LineError(ls, j).None? {
      ScanYieldsRecords(ls, 0);
    }
    forall j | 0 <= j < |ls| && LineError(ls, j).Some? && (forall i :: 0 <= i < j ==> LineError(ls, i).None?)
      ensures ScanFrom(ls, 0, false) == Err(LineError(ls, j).value)
    {
      ScanRaisesFirstError(ls, 0, j);
    }
  }

  /** Before the first marker line the block is closed: those lines neither yield nor raise. */
  lemma {:induction false} NothingBeforeMarker(ls: seq<Line>, j: nat)
    requires j <= |ls|
    requires forall i :: 0 <= i < j ==> !ls[i].isMarker
    ensures !InBlockBefore(ls, j)
    ensures forall i :: 0 <= i < j ==> LineRecords(ls, i) == [] && LineError(ls, i).None?
  {
    if j > 0 {
      NothingBeforeMarker(ls, j - 1);
    }
  }

  /**
   * The terminator entry closes the block and is not yielded: from it up to the next marker
   * line, nothing is yielded or raised.
   */
  lemma {:induction false} TerminatorCloses(ls: seq<Line>, j: nat, m: nat)
    requires j < m <= |ls|
    requires InBlockBefore(ls, j) && !ls[j].isMarker && IsTerminator(ls[j].entry)
    requires forall i :: j < i < m ==> !ls[i].isMarker
    ensures !InBlockBefore(ls, m)
    ensures forall i :: j <= i < m ==> LineRecords(ls, i) == [] && LineError(ls, i).None?
  {
    if m > j + 1 {
      TerminatorCloses(ls, j, m - 1);
    }
  }

  /** The block-start line is recognised as the marker. */
  lemma MarkerLine()
    ensures Classify(BlockMarker).isMarker
  {
    StripKeeps(BlockMarker, Whitespace);
    assert OccursAt(BlockMarker, BlockMarker, 0);
  }

  /** A one-digit string parses to that digit's value. */
  lemma ParseOneDigit(d: string)
    requires |d| == 1 && IsDigit(d[0])
    ensures ParseDecimal(d) == Some(d[0] as int - '0' as int)
  {
    assert AllDigits(d);
    assert d[..0] == [];
    assert DigitsValue(d) == 10 * DigitsValue([]) + (d[0] as int - '0' as int);
  }

  /** The text `{0,0,0}` decodes to the entry that closes the block. */
  lemma TerminatorText(raw: string)
    requires raw == "{0,0,0}"
    ensures IsTerminator(DecodeEntry(raw))
  {
    var z := "0";
    assert raw == "{" + z + "," + z + "," + z + "}";
    DecodeBraced(z, z, z, "}");
    StripKeeps(z, Whitespace);
    ParseOneDigit(z);
  }

}
