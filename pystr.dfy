/**
 * The handful of Python `str` operations the merge script relies on, written out over `seq<char>`:
 * `strip`/`lstrip`/`rstrip` (with and without a character argument), `split` on one character,
 * `in` as a substring test, `'sep'.join`, base-10 `int()` and `'%5d'`.
 */
module PyStr {
  import opened Wrappers

  /** `str.isspace()` of one character: the characters Python's strip() removes by default. */
  predicate IsSpace(c: char) {
    var k := c as int;
    (9 <= k <= 13) || (28 <= k <= 32) || k == 0x85 || k == 0xA0 || k == 0x1680
    || (0x2000 <= k <= 0x200A) || k == 0x2028 || k == 0x2029 || k == 0x202F
    || k == 0x205F || k == 0x3000
  }

  /** What a strip removes: whitespace (no argument) or one given character (`strip('"')`). */
  datatype CharClass = Whitespace | Only(c: char)

  predicate InClass(c: char, cls: CharClass) {
    match cls
    case Whitespace => IsSpace(c)
    case Only(d) => c == d
  }

  /** How many leading characters of `s` belong to `cls`: what `s.lstrip(...)` removes. */
  function LStripCount(s: string, cls: CharClass): (n: nat)
    ensures n <= |s|
    ensures forall i :: 0 <= i < n ==> InClass(s[i], cls)
    ensures n < |s| ==> !InClass(s[n], cls)
  {
    if s != [] && InClass(s[0], cls) then 1 + LStripCount(s[1..], cls) else 0
  }

  /** `s.lstrip(...)`. */
  function LStrip(s: string, cls: CharClass): string {
    s[LStripCount(s, cls)..]
  }

  /** How many characters of `s` remain once trailing characters of `cls` are dropped: what `s.rstrip(...)` keeps. */
  function RStripCount(s: string, cls: CharClass): (n: nat)
    ensures n <= |s|
    ensures forall i :: n <= i < |s| ==> InClass(s[i], cls)
    ensures n > 0 ==> !InClass(s[n - 1], cls)
  {
    if s != [] && InClass(s[|s| - 1], cls) then RStripCount(s[..|s| - 1], cls) else |s|
  }

  /** `s.rstrip(...)`. */
  function RStrip(s: string, cls: CharClass): string {
    s[..RStripCount(s, cls)]
  }

  /** `s.strip(...)`: both ends. */
  function Strip(s: string, cls: CharClass): string {
    RStrip(LStrip(s, cls), cls)
  }

  /** A string that neither starts nor ends with a character of `cls` is left alone by a strip. */
  lemma StripKeeps(s: string, cls: CharClass)
    requires s == [] || (!InClass(s[0], cls) && !InClass(s[|s| - 1], cls))
    ensures Strip(s, cls) == s
  {
    assert LStrip(s, cls) == s;
  }

  /** An lstrip removes exactly a prefix of stripped characters in front of a string that does not start with one. */
  lemma LStripPrefix(pre: string, s: string, cls: CharClass)
    requires forall i :: 0 <= i < |pre| ==> InClass(pre[i], cls)
    requires s == [] || !InClass(s[0], cls)
    ensures LStrip(pre + s, cls) == s
  {
    var w := pre + s;
    if s != [] {
      assert w[|pre|] == s[0];
    }
    assert LStripCount(w, cls) == |pre|;
    assert w[|pre|..] == s;
  }

  /** An rstrip removes exactly a suffix of stripped characters after a string that does not end with one. */
  lemma RStripSuffix(s: string, post: string, cls: CharClass)
    requires forall i :: 0 <= i < |post| ==> InClass(post[i], cls)
    requires s == [] || !InClass(s[|s| - 1], cls)
    ensures RStrip(s + post, cls) == s
  {
    var w := s + post;
    if s != [] {
      assert w[|s| - 1] == s[|s| - 1];
    }
    assert RStripCount(w, cls) == |s|;
    assert w[..|s|] == s;
  }

  /** Stripping `cls` from a string surrounded by characters of `cls` gives back the inner string. */
  lemma StripSurrounded(pre: string, s: string, post: string, cls: CharClass)
    requires forall i :: 0 <= i < |pre| ==> InClass(pre[i], cls)
    requires forall i :: 0 <= i < |post| ==> InClass(post[i], cls)
    requires s == [] || (!InClass(s[0], cls) && !InClass(s[|s| - 1], cls))
    ensures Strip(pre + s + post, cls) == s
  {
    if s == [] {
      assert pre + s + post == pre + post + [];
      LStripPrefix(pre + post, [], cls);
    } else {
      assert pre + s + post == pre + (s + post);
      LStripPrefix(pre, s + post, cls);
      RStripSuffix(s, post, cls);
    }
  }

  /** What a strip leaves is no longer than the input and neither starts nor ends with a stripped character. */
  lemma StripShape(s: string, cls: CharClass)
    ensures var r := Strip(s, cls);
      |r| <= |s| && (r == [] || (!InClass(r[0], cls) && !InClass(r[|r| - 1], cls)))
  {
    var l := LStrip(s, cls);
    var r := RStrip(l, cls);
    if r != [] {
      assert r[0] == l[0];
    }
  }

  /** `sep.join(parts)`. */
  function Join(parts: seq<string>, sep: string): string {
    if |parts| == 0 then ""
    else if |parts| == 1 then parts[0]
    else parts[0] + sep + Join(parts[1..], sep)
  }

  /** Joining one more part appends the separator and that part. */
  lemma {:induction false} JoinSnoc(parts: seq<string>, x: string, sep: string)
    requires parts != []
    ensures Join(parts + [x], sep) == Join(parts, sep) + sep + x
  {
    if |parts| == 1 {
      assert parts + [x] == [parts[0], x];
      assert [parts[0], x][1..] == [x];
    } else {
      assert (parts + [x])[1..] == parts[1..] + [x];
      JoinSnoc(parts[1..], x, sep);
    }
  }

  /** A join of non-empty parts is empty exactly when there are no parts. */
  lemma {:induction false} JoinEmpty(parts: seq<string>, sep: string)
    requires forall i :: 0 <= i < |parts| ==> parts[i] != ""
    ensures Join(parts, sep) == "" <==> parts == []
  {
    if |parts| >= 2 {
      assert |Join(parts, sep)| >= |parts[0]| > 0;
    }
  }

  /** `s.split(sep)` for a one-character separator. */
  function Split(s: string, sep: char): seq<string> {
    if s == [] then [""]
    else
      var rest := Split(s[1..], sep);
      if s[0] == sep then [""] + rest else [[s[0]] + rest[0]] + rest[1..]
  }

  /** `split` yields one more piece than there are separators. */
  lemma {:induction false} SplitCount(s: string, sep: char)
    ensures |Split(s, sep)| == multiset(s)[sep] + 1
  {
    if s != [] {
      SplitCount(s[1..], sep);
      assert s == [s[0]] + s[1..];
    }
  }

  /** No piece of `split` holds the separator. */
  lemma {:induction false} SplitPieces(s: string, sep: char)
    ensures forall i :: 0 <= i < |Split(s, sep)| ==> sep !in Split(s, sep)[i]
  {
    if s != [] {
      var rest := Split(s[1..], sep);
      SplitPieces(s[1..], sep);
      if s[0] != sep {
        var r := [[s[0]] + rest[0]] + rest[1..];
        forall i | 0 <= i < |r| ensures sep !in r[i] {
          if i > 0 {
            assert r[i] == rest[i];
          }
        }
      }
    }
  }

  /** Joining the pieces of `split` with the separator restores the string. */
  lemma {:induction false} SplitJoin(s: string, sep: char)
    ensures Join(Split(s, sep), [sep]) == s
  {
    if s != [] {
      var rest := Split(s[1..], sep);
      SplitJoin(s[1..], sep);
      assert s == [s[0]] + s[1..];
      if s[0] == sep {
        assert ([""] + rest)[1..] == rest;
      } else {
        var r := [[s[0]] + rest[0]] + rest[1..];
        if |rest| > 1 {
          assert r[1..] == rest[1..];
        }
      }
    }
  }

  /** The three facts about `split` together. */
  lemma SplitProperties(s: string, sep: char)
    ensures |Split(s, sep)| == multiset(s)[sep] + 1
    ensures forall i :: 0 <= i < |Split(s, sep)| ==> sep !in Split(s, sep)[i]
    ensures Join(Split(s, sep), [sep]) == s
  {
    SplitCount(s, sep);
    SplitPieces(s, sep);
    SplitJoin(s, sep);
  }

  /** Splitting on a separator that occurs exactly where the parts are glued gives the parts back. */
  lemma {:induction false} SplitGlued(a: string, rest: string, sep: char)
    requires sep !in a
    ensures Split(a + [sep] + rest, sep) == [a] + Split(rest, sep)
  {
    if a == [] {
      assert ([] + [sep] + rest)[1..] == rest;
    } else {
      assert (a + [sep] + rest)[1..] == a[1..] + [sep] + rest;
      SplitGlued(a[1..], rest, sep);
      assert [a[0]] + a[1..] == a;
    }
  }

  /** A string without the separator splits into itself. */
  lemma {:induction false} SplitNone(a: string, sep: char)
    requires sep !in a
    ensures Split(a, sep) == [a]
  {
    if a != [] {
      SplitNone(a[1..], sep);
      assert [a[0]] + a[1..] == a;
    }
  }

  /** `pat` occurs in `s` at position `i`. */
  ghost predicate OccursAt(s: string, pat: string, i: int) {
    0 <= i && i + |pat| <= |s| && s[i..i + |pat|] == pat
  }

  /** Python's `pat in s` for strings. */
  function Contains(s: string, pat: string): (r: bool)
    ensures r <==> exists i :: OccursAt(s, pat, i)
    decreases |s|
  {
    if |pat| > |s| then false
    else if s[..|pat|] == pat then assert OccursAt(s, pat, 0); true
    else
      var r := Contains(s[1..], pat);
      assert forall i :: OccursAt(s[1..], pat, i) <==> OccursAt(s, pat, i + 1) by {
        forall i ensures OccursAt(s[1..], pat, i) <==> OccursAt(s, pat, i + 1) {
          if 0 <= i && i + |pat| <= |s| - 1 {
            assert s[1..][i..i + |pat|] == s[i + 1..i + 1 + |pat|];
          }
        }
      }
      assert !OccursAt(s, pat, 0);
      assert (exists i :: OccursAt(s, pat, i)) ==> exists i :: OccursAt(s[1..], pat, i) by {
        if exists i :: OccursAt(s, pat, i) {
          var i :| OccursAt(s, pat, i);
          assert OccursAt(s[1..], pat, i - 1);
        }
      }
      r
  }

  predicate IsDigit(c: char) {
    '0' <= c <= '9'
  }

  predicate AllDigits(s: string) {
    forall i :: 0 <= i < |s| ==> IsDigit(s[i])
  }

  /** The value of a string of decimal digits, most significant first. */
  function DigitsValue(s: string): nat
    requires AllDigits(s)
  {
    if s == [] then 0
    else 10 * DigitsValue(s[..|s| - 1]) + (s[|s| - 1] as int - '0' as int)
  }

  /**
   * Python's `int(s)` (base 10) on a string without surrounding whitespace: an optional
   * sign and at least one decimal digit; anything else raises, modelled as `None`.
   */
  function ParseDecimal(s: string): Option<int> {
    if s != [] && (s[0] == '+' || s[0] == '-') then
      var digits := s[1..];
      if digits != [] && AllDigits(digits) then
        var v: int := DigitsValue(digits);
        Some(if s[0] == '-' then -v else v)
      else None
    else if s != [] && AllDigits(s) then Some(DigitsValue(s))
    else None
  }

  /** The decimal digits of `n`, without leading zeros. */
  function Digits(n: nat): string {
    var d := [('0' as int + n % 10) as char];
    if n < 10 then d else Digits(n / 10) + d
  }

  /** The digits of `n` are a non-empty run of decimal digits whose value is `n`. */
  lemma {:induction false} DigitsProperties(n: nat)
    ensures Digits(n) != [] && AllDigits(Digits(n))
    ensures DigitsValue(Digits(n)) == n
    ensures n >= 10 ==> Digits(n)[0] != '0'
    ensures n < 10 ==> |Digits(n)| == 1
  {
    if n >= 10 {
      DigitsProperties(n / 10);
      var r := Digits(n);
      assert r[..|r| - 1] == Digits(n / 10);
    }
  }

  /** Python's `'%d' % n`. */
  function FormatDecimal(n: int): string {
    if n < 0 then "-" + Digits(-n) else Digits(n)
  }

  /** `int()` reads back what `'%d'` writes. */
  lemma ParseFormatted(n: int)
    ensures ParseDecimal(FormatDecimal(n)) == Some(n)
  {
    if n < 0 {
      DigitsProperties(-n);
      assert FormatDecimal(n)[1..] == Digits(-n);
    } else {
      DigitsProperties(n);
    }
  }

  /** `'%5d'` output and the like never contain a comma, a quote or a brace, and start and end without space. */
  lemma FormattedPlain(n: int)
    ensures forall i :: 0 <= i < |FormatDecimal(n)| ==> FormatDecimal(n)[i] == '-' || IsDigit(FormatDecimal(n)[i])
    ensures FormatDecimal(n) != [] && !IsSpace(FormatDecimal(n)[0])
    ensures !IsSpace(FormatDecimal(n)[|FormatDecimal(n)| - 1])
  {
    DigitsProperties(if n < 0 then -n else n);
  }

  function Spaces(n: nat): string {
    seq(n, _ => ' ')
  }

  /** Right-aligns `s` in a field of `width` characters, padding with spaces: the `5` of `'%5d'`. */
  function PadLeft(s: string, width: nat): string {
    if |s| < width then Spaces(width - |s|) + s else s
  }

  /** The padded field is `width` wide (or `s` itself when longer): spaces, then `s` unchanged. */
  lemma PadLeftShape(s: string, width: nat)
    ensures var r := PadLeft(s, width);
      |r| == (if |s| < width then width else |s|) &&
      r[|r| - |s|..] == s &&
      forall i :: 0 <= i < |r| - |s| ==> r[i] == ' '
  {
    var r := PadLeft(s, width);
    if |s| < width {
      assert r[|r| - |s|..] == s;
    }
  }

  /** Stripping a padded field gives back a text that neither starts nor ends with whitespace. */
  lemma PadLeftStrip(s: string, width: nat)
    requires s != [] && !IsSpace(s[0]) && !IsSpace(s[|s| - 1])
    ensures Strip(PadLeft(s, width), Whitespace) == s
  {
    var p := PadLeft(s, width);
    PadLeftShape(s, width);
    var pre := p[..|p| - |s|];
    assert p == pre + s + "";
    StripSurrounded(pre, s, "", Whitespace);
  }

  /** Padding adds only spaces. */
  lemma PadLeftChars(s: string, width: nat, c: char)
    requires c != ' ' && c !in s
    ensures c !in PadLeft(s, width)
  {
    var p := PadLeft(s, width);
    PadLeftShape(s, width);
    forall i | 0 <= i < |p| ensures p[i] != c {
      if i >= |p| - |s| {
        assert p[i] == s[i - (|p| - |s|)];
      }
    }
  }
}
