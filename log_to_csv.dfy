/**
 * `tools/jewel_log_to_csv.py`: turns the text of a log into a table.
 * The text is cut into records at "{RECORD}" and each record into
 * fields at "{FIELD}"; a field "[name]contents" becomes one entry of an
 * ordered dictionary; the table has one column per field name, in the
 * order the names first appear, and one row per record.
 *
 * Python's `OrderedDict` is an association list with distinct keys in
 * insertion order; `str.split` and `str.strip` are the functions below.
 */
module LogToCsv {

  // ---------------------------------------------------------------------
  // Ordered dictionaries

  function Keys<V>(d: seq<(string, V)>): (ks: seq<string>)
    ensures |ks| == |d| && forall i :: 0 <= i < |d| ==> ks[i] == d[i].0
  {
    seq(|d|, i requires 0 <= i < |d| => d[i].0)
  }

  predicate DistinctKeys<V>(d: seq<(string, V)>) {
    forall i, j :: 0 <= i < j < |d| ==> d[i].0 != d[j].0
  }

  /** An `OrderedDict` with string keys. */
  type ODict<V> = d: seq<(string, V)> | DistinctKeys(d) witness []

  /** The position of key k. */
  function IndexOf<V>(d: seq<(string, V)>, k: string): (i: nat)
    requires k in Keys(d)
    ensures i < |d| && d[i].0 == k
  {
    if d[|d| - 1].0 == k then |d| - 1
    else
      assert Keys(d[..|d| - 1]) == Keys(d)[..|d| - 1];
      IndexOf(d[..|d| - 1], k)
  }

  /** `d[k]`. */
  function Get<V>(d: ODict<V>, k: string): V
    requires k in Keys(d)
  {
    d[IndexOf(d, k)].1
  }

  /** `d[k] = v`: a new key goes last; an existing key keeps its position and takes v. */
  function Put<V>(d: ODict<V>, k: string, v: V): (r: ODict<V>)
    ensures Keys(r) == if k in Keys(d) then Keys(d) else Keys(d) + [k]
  {
    if k in Keys(d) then d[IndexOf(d, k) := (k, v)] else d + [(k, v)]
  }

  /** After `d[k] = v`, k maps to v and every other key to what it mapped to. */
  lemma PutGet<V>(d: ODict<V>, k: string, v: V, k': string)
    requires k' == k || k' in Keys(d)
    ensures k' in Keys(Put(d, k, v))
    ensures Get(Put(d, k, v), k') == if k' == k then v else Get(d, k')
  {
    var r := Put(d, k, v);
    var i := IndexOf(r, k');
    if k' != k {
      var j := IndexOf(d, k');
      assert r[j] == d[j];
    }
  }

  // ---------------------------------------------------------------------
  // Python strings

  /** `str.split(sep)`: the text between the non-overlapping occurrences of sep, leftmost first. */
  function Split(s: string, sep: string): (parts: seq<string>)
    requires |sep| > 0
    ensures |parts| >= 1
    decreases |s|
  {
    if |s| < |sep| then [s]
    else if s[..|sep|] == sep then [""] + Split(s[|sep|..], sep)
    else
      var rest := Split(s[1..], sep);
      [[s[0]] + rest[0]] + rest[1..]
  }

  /** `sep.join(parts)`. */
  function Join(parts: seq<string>, sep: string): string
    requires |parts| >= 1
  {
    if |parts| == 1 then parts[0] else parts[0] + sep + Join(parts[1..], sep)
  }

  /** Splitting loses nothing: joining the parts gives back the text. */
  lemma {:induction false} JoinSplit(s: string, sep: string)
    requires |sep| > 0
    ensures Join(Split(s, sep), sep) == s
    decreases |s|
  {
    if |s| < |sep| {
    } else if s[..|sep|] == sep {
      JoinSplit(s[|sep|..], sep);
      assert s == "" + sep + s[|sep|..];
    } else {
      var rest := Split(s[1..], sep);
      JoinSplit(s[1..], sep);
      JoinFirst(s[0], rest, sep);
      assert s == [s[0]] + s[1..];
    }
  }

  /** sep occurs in p starting at position i. */
  predicate OccursAt(p: string, sep: string, i: int) {
    0 <= i && i + |sep| <= |p| && p[i..i + |sep|] == sep
  }

  predicate Contains(p: string, sep: string) {
    exists i :: 0 <= i <= |p| - |sep| && OccursAt(p, sep, i)
  }

  /**
   * No occurrence of sep starts inside a part, not even one that runs on
   * into the separator after it, and the last part holds none.
   */
  predicate Leftmost(parts: seq<string>, sep: string)
    requires |parts| >= 1 && |sep| > 0
  {
    (forall k :: 0 <= k < |parts| - 1 ==> !Contains(parts[k] + sep[..|sep| - 1], sep))
    && !Contains(parts[|parts| - 1], sep)
  }

  /** The split is the leftmost one. */
  lemma {:induction false} SplitLeftmost(s: string, sep: string)
    requires |sep| > 0
    ensures Leftmost(Split(s, sep), sep)
    decreases |s|
  {
    if |s| < |sep| {
    } else if s[..|sep|] == sep {
      SplitLeftmost(s[|sep|..], sep);
      LeftmostAfterSep(Split(s[|sep|..], sep), sep);
    } else {
      SplitLeftmost(s[1..], sep);
      JoinSplit(s[1..], sep);
      LeftmostExtend(Split(s[1..], sep), sep, s);
    }
  }

  // An empty part in front keeps the split leftmost.
  lemma LeftmostAfterSep(rest: seq<string>, sep: string)
    requires |rest| >= 1 && |sep| > 0 && Leftmost(rest, sep)
    ensures Leftmost([""] + rest, sep)
  {
    var parts := [""] + rest;
    assert !Contains("" + sep[..|sep| - 1], sep);
    forall k | 1 <= k < |parts| - 1 ensures !Contains(parts[k] + sep[..|sep| - 1], sep) {
      assert parts[k] == rest[k - 1];
    }
    assert parts[|parts| - 1] == rest[|rest| - 1];
  }

  // Growing the first part by the first character of a text that does not start with sep.
  lemma LeftmostExtend(rest: seq<string>, sep: string, s: string)
    requires |rest| >= 1 && |sep| > 0 && Leftmost(rest, sep)
    requires |s| >= |sep| && s[..|sep|] != sep && Join(rest, sep) == s[1..]
    ensures Leftmost([[s[0]] + rest[0]] + rest[1..], sep)
  {
    if |rest| == 1 {
      assert s == [s[0]] + rest[0];
      ConsNoOccurrence(s[0], rest[0], sep, s);
      assert [[s[0]] + rest[0]] + rest[1..] == [s];
    } else {
      FirstPartLeftmost(rest, sep, s);
      assert ([s[0]] + rest[0]) + sep[..|sep| - 1] == [s[0]] + (rest[0] + sep[..|sep| - 1]);
      LeftmostReplaceFirst([s[0]] + rest[0], rest, sep);
    }
  }

  // Replacing the first of several parts by one that is leftmost keeps the split leftmost.
  lemma LeftmostReplaceFirst(p: string, rest: seq<string>, sep: string)
    requires |rest| > 1 && |sep| > 0 && Leftmost(rest, sep)
    requires !Contains(p + sep[..|sep| - 1], sep)
    ensures Leftmost([p] + rest[1..], sep)
  {
    var parts := [p] + rest[1..];
    forall k | 1 <= k < |parts| - 1 ensures !Contains(parts[k] + sep[..|sep| - 1], sep) {
      assert parts[k] == rest[k];
    }
    assert parts[|parts| - 1] == rest[|rest| - 1];
  }

  // The first of several parts, grown by one character, stays leftmost.
  lemma FirstPartLeftmost(rest: seq<string>, sep: string, s: string)
    requires |rest| > 1 && |sep| > 0 && !Contains(rest[0] + sep[..|sep| - 1], sep)
    requires |s| >= |sep| && s[..|sep|] != sep && Join(rest, sep) == s[1..]
    ensures !Contains([s[0]] + (rest[0] + sep[..|sep| - 1]), sep)
  {
    var w := rest[0] + sep[..|sep| - 1];
    var u := rest[0] + sep;
    assert s[1..] == u + Join(rest[1..], sep);
    assert w == u[..|w|];
    assert [s[0]] + w == s[..1 + |w|];
    ConsNoOccurrence(s[0], w, sep, s);
  }

  // A character in front adds no occurrence when the text it starts does not begin with sep.
  lemma ConsNoOccurrence(c: char, w: string, sep: string, s: string)
    requires |sep| > 0 && !Contains(w, sep)
    requires 1 + |w| <= |s| && [c] + w == s[..1 + |w|]
    requires |sep| <= |s| && s[..|sep|] != sep
    ensures !Contains([c] + w, sep)
  {
    var p := [c] + w;
    forall i ensures !OccursAt(p, sep, i) {
      if i == 0 && |sep| <= |p| {
        assert p[..|sep|] == s[..|sep|];
      } else if 1 <= i && i + |sep| <= |p| {
        assert p[i..i + |sep|] == w[i - 1..i - 1 + |sep|];
        assert !OccursAt(w, sep, i - 1);
      }
    }
  }

  /** In particular no part contains the separator. */
  lemma SplitPartsFree(s: string, sep: string)
    requires |sep| > 0
    ensures var parts := Split(s, sep);
      forall k :: 0 <= k < |parts| ==> !Contains(parts[k], sep)
  {
    var parts := Split(s, sep);
    SplitLeftmost(s, sep);
    assert forall k :: 0 <= k < |parts| - 1 ==> !Contains(parts[k] + sep[..|sep| - 1], sep);
    forall k | 0 <= k < |parts| - 1 ensures !Contains(parts[k], sep) {
      var t := sep[..|sep| - 1];
      forall i ensures !OccursAt(parts[k], sep, i) {
        if 0 <= i && i + |sep| <= |parts[k]| {
          assert (parts[k] + t)[i..i + |sep|] == parts[k][i..i + |sep|];
          assert !OccursAt(parts[k] + t, sep, i);
        }
      }
    }
  }

  // Joining with a longer first part.
  lemma JoinFirst(c: char, rest: seq<string>, sep: string)
    requires |rest| >= 1
    ensures Join([[c] + rest[0]] + rest[1..], sep) == [c] + Join(rest, sep)
  {
    var parts := [[c] + rest[0]] + rest[1..];
    if |rest| > 1 {
      assert parts[1..] == rest[1..];
    }
  }

  /** The characters `str.isspace` accepts. */
  predicate IsSpace(c: char) {
    c == ' ' || '\t' <= c <= '\r' || '\U{1C}' <= c <= '\U{1F}' || c == '\U{85}' || c == '\U{A0}'
    || c == '\U{1680}' || '\U{2000}' <= c <= '\U{200A}' || c == '\U{2028}' || c == '\U{2029}'
    || c == '\U{202F}' || c == '\U{205F}' || c == '\U{3000}'
  }

  function TrimLeft(s: string): (r: string)
    ensures |r| <= |s| && r == s[|s| - |r|..]
    ensures forall k :: 0 <= k < |s| - |r| ==> IsSpace(s[k])
    ensures r != [] ==> !IsSpace(r[0])
  {
    if s != [] && IsSpace(s[0]) then TrimLeft(s[1..]) else s
  }

  function TrimRight(s: string): (r: string)
    ensures |r| <= |s| && r == s[..|r|]
    ensures forall k :: |r| <= k < |s| ==> IsSpace(s[k])
    ensures r != [] ==> !IsSpace(r[|r| - 1])
  {
    if s != [] && IsSpace(s[|s| - 1]) then TrimRight(s[..|s| - 1]) else s
  }

  /** `str.strip()`. */
  function Strip(s: string): (r: string)
    ensures r != [] ==> !IsSpace(r[0]) && !IsSpace(r[|r| - 1])
  {
    TrimRight(TrimLeft(s))
  }

  /** A text without surrounding whitespace is left alone. */
  lemma StripNoSpace(s: string)
    requires s != [] ==> !IsSpace(s[0]) && !IsSpace(s[|s| - 1])
    ensures Strip(s) == s
  {
  }

  lemma StripIdempotent(s: string)
    ensures Strip(Strip(s)) == Strip(s)
  {
    StripNoSpace(Strip(s));
  }

  /** Stripping gives "" exactly for all-whitespace text. */
  lemma StripEmpty(s: string)
    ensures Strip(s) == [] <==> forall k :: 0 <= k < |s| ==> IsSpace(s[k])
  {
  }

  // ---------------------------------------------------------------------
  // One field

  /** The position of the first ']', or the length if there is none. */
  function FirstClose(cell: string): (p: nat)
    ensures p <= |cell| && ']' !in cell[..p]
    ensures p < |cell| ==> cell[p] == ']'
  {
    if cell == [] || cell[0] == ']' then 0
    else
      var p := FirstClose(cell[1..]);
      assert cell[..p + 1] == [cell[0]] + cell[1..][..p];
      p + 1
  }

  /** s without the character c. */
  function Without(s: string, c: char): (r: string)
    ensures c !in r && |r| <= |s|
  {
    if s == [] then [] else Without(s[..|s| - 1], c) + (if s[|s| - 1] == c then [] else [s[|s| - 1]])
  }

  lemma WithoutSnoc(s: string, x: char, c: char)
    ensures Without(s + [x], c) == Without(s, c) + (if x == c then [] else [x])
  {
    assert (s + [x])[..|s|] == s;
  }

  /** The name: every char before the first ']' except '['. */
  function FieldName(cell: string): string {
    Without(cell[..FirstClose(cell)], '[')
  }

  /** The contents: every char after the first ']' except ']'; '[' is kept. */
  function FieldContents(cell: string): string {
    Without(cell[FirstClose(cell)..], ']')
  }

  // The name and the contents gathered from the first i chars, p being the first ']'.
  function NameSoFar(cell: string, p: nat, i: nat): string
    requires p <= |cell| && i <= |cell|
  {
    Without(cell[..if i <= p then i else p], '[')
  }

  function ContentsSoFar(cell: string, p: nat, i: nat): string
    requires p <= |cell| && i <= |cell|
  {
    Without(cell[if i <= p then i else p..i], ']')
  }

  // The name and the contents gathered so far are those of the first i chars.
  ghost predicate Scanned(cell: string, p: nat, i: nat, name: string, contents: string) {
    p <= |cell| && i <= |cell| && name == NameSoFar(cell, p, i) && contents == ContentsSoFar(cell, p, i)
  }

  // No ']' comes before the first one.
  lemma CloseNotBefore(cell: string, p: nat, i: nat)
    requires p == FirstClose(cell) && i < |cell|
    ensures cell[i] == ']' ==> i >= p
  {
    if i < p {
      assert cell[..p][i] == cell[i];
    }
  }

  // One char of the scan: before the first ']' it joins the name unless it
  // is '['; the first ']' itself joins nothing; after it, everything but ']'
  // joins the contents.
  lemma ScanStep(cell: string, p: nat, i: nat, name: string, contents: string, name': string, contents': string)
    requires p == FirstClose(cell) && i < |cell| && Scanned(cell, p, i, name, contents)
    requires name' == if cell[i] != ']' && cell[i] != '[' && i <= p then name + [cell[i]] else name
    requires contents' == if cell[i] != ']' && i > p then contents + [cell[i]] else contents
    ensures Scanned(cell, p, i + 1, name', contents')
  {
    if i < p {
      ScanStepBefore(cell, p, i);
    } else if i == p {
      ScanStepAt(cell, p);
    } else {
      ScanStepAfter(cell, p, i);
    }
  }

  lemma ScanStepBefore(cell: string, p: nat, i: nat)
    requires p <= |cell| && ']' !in cell[..p] && i < p
    ensures cell[i] != ']'
    ensures NameSoFar(cell, p, i + 1) == NameSoFar(cell, p, i) + (if cell[i] != '[' then [cell[i]] else [])
    ensures ContentsSoFar(cell, p, i + 1) == ContentsSoFar(cell, p, i)
  {
    var c := cell[i];
    assert cell[..p][i] == c;
    assert cell[..i + 1] == cell[..i] + [c];
    WithoutSnoc(cell[..i], c, '[');
    assert cell[i + 1..i + 1] == cell[i..i] == [];
  }

  lemma ScanStepAt(cell: string, p: nat)
    requires p < |cell| && cell[p] == ']'
    ensures NameSoFar(cell, p, p + 1) == NameSoFar(cell, p, p)
    ensures ContentsSoFar(cell, p, p + 1) == ContentsSoFar(cell, p, p)
  {
    assert cell[p..p + 1] == [']'];
    assert cell[p..p] == [];
    assert Without([']'], ']') == Without([], ']');
  }

  lemma ScanStepAfter(cell: string, p: nat, i: nat)
    requires p < i < |cell|
    ensures NameSoFar(cell, p, i + 1) == NameSoFar(cell, p, i)
    ensures ContentsSoFar(cell, p, i + 1) == ContentsSoFar(cell, p, i) + (if cell[i] != ']' then [cell[i]] else [])
  {
    assert cell[p..i + 1] == cell[p..i] + [cell[i]];
    WithoutSnoc(cell[p..i], cell[i], ']');
  }

  /** The character loop over one cell, with the `in_contents` flag. */
  method ScanCell(cell: string) returns (name: string, contents: string)
    ensures name == FieldName(cell) && contents == FieldContents(cell)
  {
    var p := FirstClose(cell);
    name, contents := [], [];
    var inContents := false;
    for i := 0 to |cell|
      invariant inContents <==> i > p
      invariant Scanned(cell, p, i, name, contents)
    {
      var c := cell[i];
      ghost var name0, contents0 := name, contents;
      CloseNotBefore(cell, p, i);
      if c == ']' {
        inContents := true;
      } else if c != '[' && !inContents {
        name := name + [c];
      } else if inContents {
        contents := contents + [c];
      }
      ScanStep(cell, p, i, name0, contents0, name, contents);
    }
    ScanDone(cell, name, contents);
  }

  lemma ScanDone(cell: string, name: string, contents: string)
    requires Scanned(cell, FirstClose(cell), |cell|, name, contents)
    ensures name == FieldName(cell) && contents == FieldContents(cell)
  {
    var p := FirstClose(cell);
    DropToEnd(cell, p);
  }

  lemma DropToEnd(s: string, p: nat)
    requires p <= |s|
    ensures s[p..|s|] == s[p..]
  {
  }

  lemma {:induction false} WithoutAppend(s: string, t: string, c: char)
    ensures Without(s + t, c) == Without(s, c) + Without(t, c)
  {
    if t == [] {
      assert s + t == s;
    } else {
      var t', x := t[..|t| - 1], t[|t| - 1];
      var tail := if x == c then [] else [x];
      assert s + t == (s + t') + [x];
      assert t' + [x] == t;
      calc {
        Without(s + t, c);
        { WithoutSnoc(s + t', x, c); }
        Without(s + t', c) + tail;
        { WithoutAppend(s, t', c); }
        (Without(s, c) + Without(t', c)) + tail;
        Without(s, c) + (Without(t', c) + tail);
        { WithoutSnoc(t', x, c); }
        Without(s, c) + Without(t, c);
      }
    }
  }

  lemma {:induction false} WithoutAbsent(s: string, c: char)
    requires c !in s
    ensures Without(s, c) == s
  {
    if s != [] {
      WithoutAbsent(s[..|s| - 1], c);
    }
  }

  /**
   * A cell written as the logger writes it, "[name]contents", gives back
   * that name and those contents, less any further ']'.
   */
  lemma FieldOfWellFormed(name: string, contents: string)
    requires '[' !in name && ']' !in name
    ensures FieldName("[" + name + "]" + contents) == name
    ensures FieldContents("[" + name + "]" + contents) == Without(contents, ']')
  {
    WellFormedClose(name, contents);
    WellFormedName(name, contents);
    WellFormedContents(name, contents);
  }

  // In "[name]contents" the first ']' closes the name.
  lemma WellFormedClose(name: string, contents: string)
    requires ']' !in name
    ensures FirstClose("[" + name + "]" + contents) == |name| + 1
  {
    var cell := "[" + name + "]" + contents;
    assert cell[..|name| + 1] == "[" + name;
    FirstCloseIs(cell, |name| + 1);
  }

  lemma WellFormedName(name: string, contents: string)
    requires '[' !in name && FirstClose("[" + name + "]" + contents) == |name| + 1
    ensures FieldName("[" + name + "]" + contents) == name
  {
    var cell := "[" + name + "]" + contents;
    assert cell[..|name| + 1] == "[" + name;
    WithoutAppend("[", name, '[');
    WithoutSnoc([], '[', '[');
    assert [] + ['['] == "[";
    WithoutAbsent(name, '[');
  }

  lemma WellFormedContents(name: string, contents: string)
    requires FirstClose("[" + name + "]" + contents) == |name| + 1
    ensures FieldContents("[" + name + "]" + contents) == Without(contents, ']')
  {
    var cell := "[" + name + "]" + contents;
    assert cell[|name| + 1..] == "]" + contents;
    WithoutAppend("]", contents, ']');
    WithoutSnoc([], ']', ']');
    assert [] + [']'] == "]";
  }

  /** FirstClose is the position of a ']' with none before it. */
  lemma {:induction false} FirstCloseIs(cell: string, p: nat)
    requires p < |cell| && cell[p] == ']' && ']' !in cell[..p]
    ensures FirstClose(cell) == p
  {
    if p > 0 {
      assert cell[0] == cell[..p][0];
      assert cell[1..][..p - 1] == cell[1..p];
      assert forall k :: 0 <= k < p - 1 ==> cell[1..p][k] == cell[..p][k + 1];
      FirstCloseIs(cell[1..], p - 1);
    }
  }

  /** A cell with no ']' is all name: every char but '['. */
  lemma FieldWithoutClose(cell: string)
    requires ']' !in cell
    ensures FieldName(cell) == Without(cell, '[') && FieldContents(cell) == []
  {
    assert FirstClose(cell) == |cell|;
    assert cell[..|cell|] == cell;
  }

  /**
   * The shape of the scan's example "[a]x]y", for any chars a, x and y
   * that are not brackets: a later ']' is dropped from the contents.
   */
  lemma ScanExampleClosed(a: char, x: char, y: char)
    requires a !in "[]" && x !in "[]" && y !in "[]"
    ensures FieldName(['[', a, ']', x, ']', y]) == [a]
    ensures FieldContents(['[', a, ']', x, ']', y]) == [x, y]
  {
    assert ['[', a, ']', x, ']', y] == "[" + [a] + "]" + [x, ']', y];
    FieldOfWellFormed([a], [x, ']', y]);
    WithoutMiddle(x, y);
  }

  lemma WithoutMiddle(x: char, y: char)
    requires x != ']' && y != ']'
    ensures Without([x, ']', y], ']') == [x, y]
  {
    assert [x, ']', y] == ([x] + [']']) + [y];
    WithoutAppend([x] + [']'], [y], ']');
    WithoutDropLast(x);
    WithoutAbsent([y], ']');
  }

  lemma WithoutDropLast(x: char)
    requires x != ']'
    ensures Without([x] + [']'], ']') == [x]
  {
    WithoutAppend([x], [']'], ']');
    WithoutAbsent([x], ']');
    WithoutSnoc([], ']', ']');
    assert [] + [']'] == [']'];
  }

  /** The shape of the scan's example "[ab": a cell without ']' is all name. */
  lemma ScanExampleOpen(a: char, b: char)
    requires a !in "[]" && b !in "[]"
    ensures FieldName(['[', a, b]) == [a, b] && FieldContents(['[', a, b]) == []
  {
    FieldWithoutClose(['[', a, b]);
    assert ['[', a, b] == "[" + [a, b];
    WithoutAppend("[", [a, b], '[');
    WithoutSnoc([], '[', '[');
    assert [] + ['['] == "[";
    WithoutAbsent([a, b], '[');
  }

  // ---------------------------------------------------------------------
  // Records

  datatype Result<T> = Ok(value: T) | AssertionFailed

  const RecordSeparator: string := "{RECORD}"
  const FieldSeparator: string := "{FIELD}"

  /** One cell of a record: blank ones are skipped, and the rest must start with '['. */
  function AddCell(d: ODict<string>, rawCell: string): Result<ODict<string>> {
    var cell := Strip(rawCell);
    if |cell| == 0 then Ok(d)
    else if cell[0] != '[' then AssertionFailed
    else Ok(Put(d, FieldName(cell), FieldContents(cell)))
  }

  /** The dictionary the cells of a record make, left to right. */
  function RecordOf(cells: seq<string>): Result<ODict<string>> {
    var empty: ODict<string> := [];
    if cells == [] then Ok(empty)
    else
      match RecordOf(cells[..|cells| - 1])
      case AssertionFailed => AssertionFailed
      case Ok(d) => AddCell(d, cells[|cells| - 1])
  }

  /** The dictionaries the raw records make: blank records are skipped. */
  function DictsOf(rawRecords: seq<string>): Result<seq<ODict<string>>> {
    if rawRecords == [] then Ok([])
    else
      match DictsOf(rawRecords[..|rawRecords| - 1])
      case AssertionFailed => AssertionFailed
      case Ok(ds) =>
        var raw := Strip(rawRecords[|rawRecords| - 1]);
        if |raw| == 0 then Ok(ds)
        else
          match RecordOf(Split(raw, FieldSeparator))
          case AssertionFailed => AssertionFailed
          case Ok(d) => Ok(ds + [d])
  }

  /** What `log_string_to_dict_list` returns for a log text, or the assertion failure. */
  function LogDicts(log: string): Result<seq<ODict<string>>> {
    DictsOf(Split(log, RecordSeparator))
  }

  /** `log_string_to_dict_list`: the loop over the records; RecordCells and ScanCell are its inner loops. */
  method LogStringToDictList(log: string) returns (r: Result<seq<ODict<string>>>)
    ensures r == LogDicts(log)
  {
    var rawRecords := Split(log, RecordSeparator);
    var ret: seq<ODict<string>> := [];
    for a := 0 to |rawRecords|
      invariant DictsOf(rawRecords[..a]) == Ok(ret)
    {
      var rawRecord := Strip(rawRecords[a]);
      if |rawRecord| == 0 {
        DictsStep(rawRecords, a, ret);
        continue;
      }
      var cells := Split(rawRecord, FieldSeparator);
      var record := RecordCells(cells);
      RecordDictsStep(rawRecords, a, ret, record);
      if record.AssertionFailed? {
        return AssertionFailed;
      }
      ret := ret + [record.value];
    }
    assert rawRecords[..|rawRecords|] == rawRecords;
    return Ok(ret);
  }

  /** The loop over the cells of one record, which stops at the first failed assertion. */
  method RecordCells(cells: seq<string>) returns (r: Result<ODict<string>>)
    ensures r == RecordOf(cells)
  {
    var record: ODict<string> := [];
    for b := 0 to |cells|
      invariant RecordOf(cells[..b]) == Ok(record)
    {
      RecordStep(cells, b, record);
      var cell := Strip(cells[b]);
      if |cell| == 0 {
        continue;
      }
      if cell[0] != '[' {
        FailurePropagates(cells, b + 1);
        return AssertionFailed;
      }
      var name, contents := ScanCell(cell);
      record := Put(record, name, contents);
    }
    assert cells[..|cells|] == cells;
    return Ok(record);
  }

  // One more raw record: a blank one changes nothing, a failing one fails
  // the log, and any other adds its dictionary.
  lemma DictsStep(raws: seq<string>, a: nat, ret: seq<ODict<string>>)
    requires a < |raws| && DictsOf(raws[..a]) == Ok(ret)
    ensures var raw := Strip(raws[a]);
      DictsOf(raws[..a + 1]) ==
        if |raw| == 0 then Ok(ret)
        else match RecordOf(Split(raw, FieldSeparator))
          case AssertionFailed => AssertionFailed
          case Ok(d) => Ok(ret + [d])
  {
    assert raws[..a + 1][..a] == raws[..a];
  }

  // One more non-blank raw record, given the dictionary its cells make.
  lemma RecordDictsStep(raws: seq<string>, a: nat, ret: seq<ODict<string>>, record: Result<ODict<string>>)
    requires a < |raws| && DictsOf(raws[..a]) == Ok(ret) && |Strip(raws[a])| > 0
    requires record == RecordOf(Split(Strip(raws[a]), FieldSeparator))
    ensures record.AssertionFailed? ==> DictsOf(raws) == AssertionFailed
    ensures record.Ok? ==> DictsOf(raws[..a + 1]) == Ok(ret + [record.value])
  {
    DictsStep(raws, a, ret);
    if record.AssertionFailed? {
      FailurePropagatesDicts(raws, a + 1);
    }
  }

  // One more cell: a blank one changes nothing, one not starting with '['
  // fails, and any other is put into the record.
  lemma RecordStep(cells: seq<string>, b: nat, record: ODict<string>)
    requires b < |cells| && RecordOf(cells[..b]) == Ok(record)
    ensures RecordOf(cells[..b + 1]) == AddCell(record, cells[b])
  {
    assert cells[..b + 1][..b] == cells[..b];
  }

  // Once a cell fails, the record fails.
  lemma {:induction false} FailurePropagates(cells: seq<string>, m: nat)
    requires m <= |cells| && RecordOf(cells[..m]) == AssertionFailed
    ensures RecordOf(cells) == AssertionFailed
    decreases |cells| - m
  {
    if m < |cells| {
      assert cells[..m + 1][..m] == cells[..m];
      FailurePropagates(cells, m + 1);
    } else {
      assert cells[..m] == cells;
    }
  }

  // Once a record fails, the whole log fails.
  lemma {:induction false} FailurePropagatesDicts(raws: seq<string>, m: nat)
    requires m <= |raws| && DictsOf(raws[..m]) == AssertionFailed
    ensures DictsOf(raws) == AssertionFailed
    decreases |raws| - m
  {
    if m < |raws| {
      assert raws[..m + 1][..m] == raws[..m];
      FailurePropagatesDicts(raws, m + 1);
    } else {
      assert raws[..m] == raws;
    }
  }

  predicate ValidCell(rawCell: string) {
    var cell := Strip(rawCell);
    |cell| > 0 && cell[0] == '['
  }

  /**
   * A field whose name is already in the record keeps its position and
   * takes the new contents; a new name is added last.
   */
  lemma RepeatedNameKeepsPositionTakesLastValue(cells: seq<string>, rawCell: string, d: ODict<string>)
    requires RecordOf(cells) == Ok(d) && ValidCell(rawCell)
    ensures RecordOf(cells + [rawCell]).Ok?
    ensures var cell := Strip(rawCell);
      var name := FieldName(cell);
      var d' := RecordOf(cells + [rawCell]).value;
      Keys(d') == (if name in Keys(d) then Keys(d) else Keys(d) + [name]) &&
      name in Keys(d') && Get(d', name) == FieldContents(cell)
  {
    var all := cells + [rawCell];
    assert all[..|all| - 1] == cells;
    var cell := Strip(rawCell);
    PutGet(d, FieldName(cell), FieldContents(cell), FieldName(cell));
  }

  /** A chunk that is not blank and does not start with '[' fails the assertion. */
  lemma BadCellFails(cells: seq<string>, rawCell: string)
    requires var cell := Strip(rawCell); |cell| > 0 && cell[0] != '['
    ensures RecordOf(cells + [rawCell]) == AssertionFailed
  {
    var all := cells + [rawCell];
    assert all[..|all| - 1] == cells;
  }

  // ---------------------------------------------------------------------
  // The table

  /** `raw_ret[name] = None`: a name already present keeps its place. */
  function AddName(h: seq<string>, k: string): seq<string> {
    if k in h then h else h + [k]
  }

  /** The names of one dictionary added in order. */
  function AddNames(h: seq<string>, names: seq<string>): seq<string> {
    if names == [] then h else AddName(AddNames(h, names[..|names| - 1]), names[|names| - 1])
  }

  /** The header names: every field name in the order it first appears. */
  function HeaderNames(ds: seq<ODict<string>>): seq<string> {
    if ds == [] then [] else AddNames(HeaderNames(ds[..|ds| - 1]), Keys(ds[|ds| - 1]))
  }

  predicate Distinct(h: seq<string>) {
    forall i, j :: 0 <= i < j < |h| ==> h[i] != h[j]
  }

  lemma {:induction false} AddNamesProperties(h: seq<string>, names: seq<string>)
    requires Distinct(h)
    ensures Distinct(AddNames(h, names)) && h <= AddNames(h, names)
    ensures forall k :: k in AddNames(h, names) <==> k in h || k in names
  {
    if names != [] {
      AddNamesProperties(h, names[..|names| - 1]);
      assert names == names[..|names| - 1] + [names[|names| - 1]];
    }
  }

  /** The headers are distinct, name exactly the fields that occur, and only grow as records are added. */
  lemma {:induction false} HeaderNamesProperties(ds: seq<ODict<string>>)
    ensures Distinct(HeaderNames(ds))
    ensures forall k :: k in HeaderNames(ds) <==> exists a :: 0 <= a < |ds| && k in Keys(ds[a])
    ensures forall m :: 0 <= m <= |ds| ==> HeaderNames(ds[..m]) <= HeaderNames(ds)
  {
    if ds != [] {
      var init := ds[..|ds| - 1];
      HeaderNamesProperties(init);
      AddNamesProperties(HeaderNames(init), Keys(ds[|ds| - 1]));
      forall k
        ensures k in HeaderNames(ds) <==> exists a :: 0 <= a < |ds| && k in Keys(ds[a])
      {
        if k in HeaderNames(init) {
          var a :| 0 <= a < |init| && k in Keys(init[a]);
          assert ds[a] == init[a];
        }
        if exists a :: 0 <= a < |ds| && k in Keys(ds[a]) {
          var a :| 0 <= a < |ds| && k in Keys(ds[a]);
          if a < |init| {
            assert init[a] == ds[a];
          }
        }
      }
      forall m | 0 <= m <= |ds|
        ensures HeaderNames(ds[..m]) <= HeaderNames(ds)
      {
        if m < |ds| {
          assert init[..m] == ds[..m];
        } else {
          assert ds[..m] == ds;
        }
      }
    }
  }

  /** `make_headers`: collect the names, then number them from 0. */
  method MakeHeaders(ds: seq<ODict<string>>) returns (headers: ODict<nat>)
    ensures Keys(headers) == HeaderNames(ds)
    ensures Numbered(headers)
  {
    var raw: seq<string> := [];
    for a := 0 to |ds|
      invariant raw == HeaderNames(ds[..a])
    {
      var d := ds[a];
      var names := Keys(d);
      for b := 0 to |d|
        invariant raw == AddNames(HeaderNames(ds[..a]), names[..b])
      {
        AddNamesStep(HeaderNames(ds[..a]), names, b);
        raw := AddName(raw, d[b].0);
      }
      HeaderNamesStep(ds, a);
    }
    assert ds[..|ds|] == ds;
    HeaderNamesProperties(ds);
    headers := [];
    for i := 0 to |raw|
      invariant Keys(headers) == raw[..i]
      invariant Numbered(headers)
    {
      NumberStep(raw, i, headers);
      headers := Put(headers, raw[i], |headers|);
    }
    assert raw[..|raw|] == raw;
  }

  // One more name of one dictionary.
  lemma AddNamesStep(h: seq<string>, names: seq<string>, b: nat)
    requires b < |names|
    ensures AddNames(h, names[..b + 1]) == AddName(AddNames(h, names[..b]), names[b])
  {
    assert names[..b + 1][..b] == names[..b];
  }

  // One more dictionary.
  lemma HeaderNamesStep(ds: seq<ODict<string>>, a: nat)
    requires a < |ds|
    ensures HeaderNames(ds[..a + 1]) == AddNames(HeaderNames(ds[..a]), Keys(ds[a])[..|ds[a]|])
  {
    assert ds[..a + 1][..a] == ds[..a];
    assert Keys(ds[a])[..|ds[a]|] == Keys(ds[a]);
  }

  /** Each header's number is its position. */
  predicate Numbered(headers: ODict<nat>) {
    forall i :: 0 <= i < |headers| ==> headers[i].1 == i
  }

  /** A new name gets the next number and goes last. */
  lemma NumberNew(headers: ODict<nat>, k: string)
    requires Numbered(headers) && k !in Keys(headers)
    ensures Put(headers, k, |headers|) == headers + [(k, |headers|)]
    ensures Numbered(Put(headers, k, |headers|))
    ensures Keys(Put(headers, k, |headers|)) == Keys(headers) + [k]
  {
  }

  // Numbering one more distinct name appends it with the next index.
  lemma NumberStep(raw: seq<string>, i: nat, headers: ODict<nat>)
    requires i < |raw| && Distinct(raw) && Keys(headers) == raw[..i] && Numbered(headers)
    ensures raw[i] !in Keys(headers)
    ensures Numbered(Put(headers, raw[i], |headers|))
    ensures Keys(Put(headers, raw[i], |headers|)) == raw[..i + 1]
  {
    assert raw[..i + 1] == raw[..i] + [raw[i]];
    NumberNew(headers, raw[i]);
  }

  /** A row: each header's value in the record, "" where the record has none. */
  function RowOf(h: seq<string>, d: ODict<string>): (row: seq<string>)
    ensures |row| == |h|
  {
    seq(|h|, i requires 0 <= i < |h| => if h[i] in Keys(d) then Get(d, h[i]) else "")
  }

  /** `make_row`: start with "" everywhere, then write each item at its header's index. */
  method MakeRow(headers: ODict<nat>, d: ODict<string>) returns (row: seq<string>)
    requires Numbered(headers)
    requires forall k :: k in Keys(d) ==> k in Keys(headers)
    ensures row == RowOf(Keys(headers), d)
  {
    row := seq(|headers|, _ => "");
    for b := 0 to |d|
      invariant |row| == |headers|
      invariant forall i :: 0 <= i < |headers| ==>
        row[i] == if headers[i].0 in Keys(d[..b]) then Get(d[..b], headers[i].0) else ""
    {
      var key := d[b].0;
      assert key in Keys(d);
      var pos := Get(headers, key);
      assert headers[pos].0 == key;
      row := row[pos := d[b].1];
      forall i | 0 <= i < |headers|
        ensures row[i] == if headers[i].0 in Keys(d[..b + 1]) then Get(d[..b + 1], headers[i].0) else ""
      {
        PrefixGet(d, b, headers[i].0);
      }
    }
    assert d[..|d|] == d;
  }

  // Looking a key up in one more item of a dictionary.
  lemma PrefixGet(d: ODict<string>, b: nat, k: string)
    requires b < |d|
    ensures k in Keys(d[..b + 1]) <==> k in Keys(d[..b]) || k == d[b].0
    ensures k == d[b].0 ==> Get(d[..b + 1], k) == d[b].1
    ensures k != d[b].0 && k in Keys(d[..b]) ==> Get(d[..b + 1], k) == Get(d[..b], k)
  {
    var p, q := d[..b + 1], d[..b];
    assert Keys(p) == Keys(q) + [d[b].0];
    if k in Keys(p) && k != d[b].0 {
      assert p[..b] == q;
    }
  }

  /** `make_table`: the header row, then one row per record in order. */
  method MakeTable(ds: seq<ODict<string>>) returns (table: seq<seq<string>>)
    ensures |table| == |ds| + 1
    ensures table[0] == HeaderNames(ds)
    ensures forall r :: 0 <= r < |ds| ==> table[r + 1] == RowOf(HeaderNames(ds), ds[r])
  {
    var headers := MakeHeaders(ds);
    HeaderNamesProperties(ds);
    table := [Keys(headers)];
    for r := 0 to |ds|
      invariant |table| == r + 1 && table[0] == HeaderNames(ds)
      invariant forall s :: 0 <= s < r ==> table[s + 1] == RowOf(HeaderNames(ds), ds[s])
    {
      forall k | k in Keys(ds[r])
        ensures k in Keys(headers)
      {
      }
      var row := MakeRow(headers, ds[r]);
      table := table + [row];
    }
  }

  /** The table a list of records makes. */
  function TableOf(ds: seq<ODict<string>>): (t: seq<seq<string>>)
    ensures |t| == |ds| + 1
  {
    [HeaderNames(ds)] + seq(|ds|, r requires 0 <= r < |ds| => RowOf(HeaderNames(ds), ds[r]))
  }

  /** An empty log gives a table holding one empty header row. */
  lemma EmptyLog()
    ensures LogDicts("") == Ok([])
    ensures TableOf([]) == [[]]
  {
    assert Split("", RecordSeparator) == [""];
    assert Strip("") == "";
    assert [""][..0] == [];
  }

  /**
   * The records {a: 1, b: 2} and {b: 3} make the table
   * [["a", "b"], ["1", "2"], ["", "3"]]: a missing field is "".
   */
  lemma ExampleTable()
    ensures TableOf([[("a", "1"), ("b", "2")], [("b", "3")]]) == [["a", "b"], ["1", "2"], ["", "3"]]
  {
    var d1: ODict<string> := [("a", "1"), ("b", "2")];
    var d2: ODict<string> := [("b", "3")];
    assert Keys(d1) == ["a", "b"] && Keys(d2) == ["b"];
    assert HeaderNames([d1]) == ["a", "b"] by {
      assert AddNames([], ["a", "b"]) == AddName(AddNames([], ["a"]), "b");
    }
    var ds := [d1, d2];
    assert ds[..1] == [d1];
    assert AddNames(["a", "b"], ["b"]) == AddName(AddNames(["a", "b"], []), "b") by {
      assert ["b"][..0] == [];
    }
    assert "b" in ["a", "b"];
    assert HeaderNames(ds) == ["a", "b"];
    assert RowOf(["a", "b"], d1) == ["1", "2"];
    assert "a" !in Keys(d2);
    assert Get(d2, "b") == "3";
    assert RowOf(["a", "b"], d2) == ["", "3"];
  }
}
