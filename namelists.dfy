/** The name-list helpers of ens-collections' `utils.js`: turning a loose list
    of ENS names (a comma/white-space separated string, an array, or a CSV
    export) into a list of names, and coercing a value to an array. */
module NameLists {
  import opened JsValues
  import opened JsStrings

  /** The class `[\s,]` that separates names in a list. */
  predicate IsNameSeparator(c: char) {
    IsSpace(c) || c == ','
  }

  /** A list entry as `getListOfNames` returns it from a string: non-empty,
      no separator inside. */
  predicate IsName(s: string) {
    s != [] && NoneIn(s, IsNameSeparator)
  }

  /** The message Node gives when `split` is called on a truthy value that is
      neither a string nor an array. */
  const SplitNotAFunction := "val.split is not a function"

  /** `.map((x) => x.trim())` */
  function TrimAll(ps: seq<string>): (r: seq<string>)
    ensures |r| == |ps|
    ensures forall k :: 0 <= k < |ps| ==> r[k] == Trim(ps[k])
  {
    seq(|ps|, k requires 0 <= k < |ps| => Trim(ps[k]))
  }

  /** `.filter(Boolean)` on a list of strings: the empty ones are dropped, the
      others kept in order. */
  function DropEmpty(ps: seq<string>): (r: seq<string>)
    ensures forall k :: 0 <= k < |r| ==> r[k] != [] && r[k] in ps
    ensures Concat(r) == Concat(ps)
  {
    if ps == [] then []
    else if ps[0] == [] then DropEmpty(ps[1..])
    else [ps[0]] + DropEmpty(ps[1..])
  }

  /** `val.split(/[\s,]+/g).map((x) => x.trim()).filter(Boolean)`
      (`utils.js`:144-146): the names of a list given as one string. */
  function SplitNames(val: string): (names: seq<string>)
    ensures forall k :: 0 <= k < |names| ==> IsName(names[k])
  {
    var pieces := SplitRuns(val, IsNameSeparator);
    TrimAllFixed(pieces);
    DropEmptyOfPieces(pieces);
    DropEmpty(TrimAll(pieces))
  }

  lemma DropEmptyOfPieces(ps: seq<string>)
    requires forall k :: 0 <= k < |ps| ==> NoneIn(ps[k], IsNameSeparator)
    ensures forall k :: 0 <= k < |DropEmpty(ps)| ==> IsName(DropEmpty(ps)[k])
  {
    var r := DropEmpty(ps);
    forall k | 0 <= k < |r|
      ensures IsName(r[k])
    {
      var j :| 0 <= j < |ps| && ps[j] == r[k];
    }
  }

  /** Every piece of a separator split is its own trim. */
  lemma TrimAllFixed(ps: seq<string>)
    requires forall k :: 0 <= k < |ps| ==> NoneIn(ps[k], IsNameSeparator)
    ensures TrimAll(ps) == ps
  {
    forall k | 0 <= k < |ps|
      ensures Trim(ps[k]) == ps[k]
    {
      TrimSpaceless(ps[k]);
    }
  }

  /** The strings of a list, as JavaScript string values. */
  function Strs(ss: seq<string>): (r: seq<JsValue>)
    ensures |r| == |ss| && forall k :: 0 <= k < |ss| ==> r[k] == Str(ss[k])
  {
    seq(|ss|, k requires 0 <= k < |ss| => Str(ss[k]))
  }

  /** `getListOfNames(val)` (`utils.js`:140-147). */
  function GetListOfNames(val: JsValue): (r: Result<seq<JsValue>>)
    ensures Falsy(val) ==> r == Ok([])
    ensures val.Arr? ==> r == Ok(Flat(val.items))
    ensures !Falsy(val) && val.Str? ==>
      r.Ok? && forall k :: 0 <= k < |r.value| ==> r.value[k].Str? && IsName(r.value[k].s)
    ensures r.Err? <==> !Falsy(val) && !val.Arr? && !val.Str?
  {
    if Falsy(val) then Ok([])
    else if val.Arr? then Ok(Flat(val.items))
    else if val.Str? then Ok(Strs(SplitNames(val.s)))
    else Err(SplitNotAFunction)
  }

  /** Splitting a name list keeps every character that is not a separator, in
      order: no name is lost, cut short or reordered. */
  lemma SplitNamesContent(val: string)
    ensures Concat(SplitNames(val)) == Without(val, IsNameSeparator)
  {
    var pieces := SplitRuns(val, IsNameSeparator);
    TrimAllFixed(pieces);
    SplitRunsContent(val, IsNameSeparator);
  }

  lemma {:induction false} DropEmptyOfNonEmpty(ps: seq<string>)
    requires forall k :: 0 <= k < |ps| ==> ps[k] != []
    ensures DropEmpty(ps) == ps
  {
    if ps != [] {
      DropEmptyOfNonEmpty(ps[1..]);
      assert [ps[0]] + ps[1..] == ps;
    }
  }

  /** `filter(Boolean)` of one string keeps it exactly when it is non-empty. */
  lemma DropEmptySingleton(p: string)
    ensures DropEmpty([p]) == if p == [] then [] else [p]
  {
    assert [p][1..] == [];
  }

  /** `filter(Boolean)` works string by string: it distributes over
      concatenation, so with `DropEmptySingleton` it keeps exactly the
      non-empty strings, in order and with their repetitions. */
  lemma {:induction false} DropEmptyAppend(a: seq<string>, b: seq<string>)
    ensures DropEmpty(a + b) == DropEmpty(a) + DropEmpty(b)
  {
    if a == [] {
      assert a + b == b;
    } else {
      var ab := a + b;
      assert ab[0] == a[0] && ab[1..] == a[1..] + b;
      DropEmptyAppend(a[1..], b);
      if a[0] == [] {
        assert DropEmpty(ab) == DropEmpty(a[1..] + b);
      } else {
        assert DropEmpty(ab) == [a[0]] + DropEmpty(a[1..] + b);
        assert DropEmpty(a) == [a[0]] + DropEmpty(a[1..]);
      }
    }
  }

  /** Pieces of a separator split that are all empty leave no name. */
  lemma SplitNamesOfEmptyPieces(ps: seq<string>)
    requires ps == [[]] || ps == [[], []]
    ensures DropEmpty(TrimAll(ps)) == []
  {
    TrimAllFixed(ps);
    DropEmptySingleton([]);
    if ps != [[]] {
      assert ps == [[]] + [[]];
      DropEmptyAppend([[]], [[]]);
    }
  }

  /** A text that holds only separators holds no name. */
  lemma SplitNamesOfSeparators(s: string)
    requires AllIn(s, IsNameSeparator)
    ensures SplitNames(s) == []
  {
    if s != [] {
      SplitRunsAllSep(s, IsNameSeparator);
    }
    SplitNamesOfEmptyPieces(SplitRuns(s, IsNameSeparator));
  }

  lemma AllInAppend(a: string, b: string, cls: char -> bool)
    requires AllIn(a, cls) && AllIn(b, cls)
    ensures AllIn(a + b, cls)
  {
    forall i | 0 <= i < |a + b|
      ensures cls((a + b)[i])
    {
      if i >= |a| {
        assert (a + b)[i] == b[i - |a|];
      }
    }
  }

  /** The layout of a name list given as one string: the names, with a
      non-empty run of commas and white space between each two, and
      optionally such a run before the first and after the last. */
  predicate NameListLayout(lead: string, names: seq<string>, seps: seq<string>, trail: string) {
    (if names == [] then seps == [] else |seps| == |names| - 1)
    && (forall k :: 0 <= k < |names| ==> IsName(names[k]))
    && (forall k :: 0 <= k < |seps| ==> seps[k] != [] && AllIn(seps[k], IsNameSeparator))
    && AllIn(lead, IsNameSeparator) && AllIn(trail, IsNameSeparator)
  }

  /** Non-empty strings framed by at most one empty string on each side:
      `filter(Boolean)` leaves exactly the non-empty ones. */
  lemma DropEmptyFramed(front: seq<string>, names: seq<string>, back: seq<string>)
    requires front == [] || front == [[]]
    requires back == [] || back == [[]]
    requires forall k :: 0 <= k < |names| ==> names[k] != []
    ensures DropEmpty(front + names + back) == names
  {
    DropEmptyAppend(front + names, back);
    DropEmptyAppend(front, names);
    DropEmptyOfNonEmpty(names);
    DropEmptySingleton([]);
    assert DropEmpty(front) == [] && DropEmpty(back) == [];
  }

  /** Splitting a name list laid out that way gives back exactly its names:
      no name is lost, cut, merged with another, repeated or reordered. */
  lemma SplitNamesLayout(lead: string, names: seq<string>, seps: seq<string>, trail: string)
    requires NameListLayout(lead, names, seps, trail)
    ensures SplitNames(lead + Interleave(names, seps) + trail) == names
  {
    var text := lead + Interleave(names, seps) + trail;
    if names == [] {
      assert text == lead + trail;
      AllInAppend(lead, trail, IsNameSeparator);
      SplitNamesOfSeparators(text);
    } else {
      SplitRunsLayout(lead, names, seps, trail, IsNameSeparator);
      var pieces := SplitRuns(text, IsNameSeparator);
      TrimAllFixed(pieces);
      DropEmptyFramed(if lead == [] then [] else [[]], names, if trail == [] then [] else [[]]);
    }
  }

  /** `getListOfNames` reads such a string back as exactly its names, the
      empty list included (an empty string is falsy and gives `[]` directly). */
  lemma GetListOfNamesRoundTrip(lead: string, names: seq<string>, seps: seq<string>, trail: string)
    requires NameListLayout(lead, names, seps, trail)
    ensures GetListOfNames(Str(lead + Interleave(names, seps) + trail)) == Ok(Strs(names))
  {
    var text := lead + Interleave(names, seps) + trail;
    SplitNamesLayout(lead, names, seps, trail);
    if names != [] {
      InterleaveHead(names, seps);
      assert |text| >= |Interleave(names, seps)| > 0;
    }
    GetListOfNamesOfText(text, names);
  }

  /** A string whose names are `names`, and which is empty only when there
      are none, is read back as those names. */
  lemma GetListOfNamesOfText(text: string, names: seq<string>)
    requires SplitNames(text) == names
    requires names != [] ==> text != []
    ensures GetListOfNames(Str(text)) == Ok(Strs(names))
  {
    if text == [] {
      assert Falsy(Str(text));
    } else {
      assert !Falsy(Str(text));
    }
  }

  /** A list of names joined with one separator character is laid out as a name list. */
  lemma JoinedNamesLayout(names: seq<string>, d: char)
    requires IsNameSeparator(d)
    requires forall k :: 0 <= k < |names| ==> IsName(names[k])
    ensures NameListLayout([], names, Copies(if names == [] then 0 else |names| - 1, [d]), [])
  {
    assert AllIn([d], IsNameSeparator);
  }

  /** In particular `getListOfNames` undoes `names.join(d)` for any one
      separator character `d`, such as `','`. */
  lemma GetListOfNamesJoin(names: seq<string>, d: char)
    requires IsNameSeparator(d)
    requires forall k :: 0 <= k < |names| ==> IsName(names[k])
    ensures GetListOfNames(Str(Join(names, [d]))) == Ok(Strs(names))
  {
    var seps := Copies(if names == [] then 0 else |names| - 1, [d]);
    JoinAsInterleave(names, [d]);
    JoinedNamesLayout(names, d);
    GetListOfNamesRoundTrip([], names, seps, []);
  }

  // ---------------------------------------------------------------------------
  // getNamesFromCSV

  /** The name a CSV line contributes, before `.filter(Boolean)`
      (`utils.js`:17-25): its first comma-field, trimmed, or nothing for the
      header line whose first field is `name`. */
  function CsvName(line: string): Option<string> {
    var name := SplitOn(line, ',')[0];
    if name == "name" then None else Some(Trim(name))
  }

  /** `.map(CsvName).filter(Boolean)` over the lines. */
  function NamesOfLines(lines: seq<string>): (names: seq<string>)
    ensures |names| <= |lines|
    ensures forall k :: 0 <= k < |names| ==> names[k] != []
  {
    if lines == [] then []
    else
      var rest := NamesOfLines(lines[1..]);
      match CsvName(lines[0])
      case Some(n) => if n != [] then [n] + rest else rest
      case None => rest
  }

  /** `getNamesFromCSV(str)` (`utils.js`:14-27). */
  function GetNamesFromCSV(str: string): seq<string> {
    NamesOfLines(SplitRuns(str, IsSpace))
  }

  /** The first comma-field of a line without white space holds no separator. */
  lemma FirstFieldFree(line: string)
    requires NoneIn(line, IsSpace)
    ensures NoneIn(SplitOn(line, ',')[0], IsNameSeparator)
  {
    var first := SplitOn(line, ',')[0];
    forall i | 0 <= i < |first|
      ensures !IsNameSeparator(first[i])
    {
      assert first[i] in first;
      var j :| 0 <= j < |line| && line[j] == first[i];
      assert !IsSpace(line[j]);
    }
  }

  /** The name a line without white space contributes holds no separator
      and is not the header word. */
  lemma CsvNameShape(line: string)
    requires NoneIn(line, IsSpace)
    ensures CsvName(line).Some? ==>
      NoneIn(CsvName(line).value, IsNameSeparator) && CsvName(line).value != "name"
  {
    var first := SplitOn(line, ',')[0];
    FirstFieldFree(line);
    assert NoneIn(first, IsSpace) by {
      forall i | 0 <= i < |first| ensures !IsSpace(first[i]) {
        assert !IsNameSeparator(first[i]);
      }
    }
    TrimSpaceless(first);
  }

  /** A name as the CSV reader may return it: a list entry, and not the header word. */
  predicate ListedName(n: string) {
    IsName(n) && n != "name"
  }

  lemma {:induction false} NamesOfLinesShape(lines: seq<string>)
    requires forall k :: 0 <= k < |lines| ==> NoneIn(lines[k], IsSpace)
    ensures forall k :: 0 <= k < |NamesOfLines(lines)| ==> ListedName(NamesOfLines(lines)[k])
  {
    if lines != [] {
      var r := NamesOfLines(lines);
      var rest := NamesOfLines(lines[1..]);
      assert forall k :: 0 <= k < |lines[1..]| ==> lines[1..][k] == lines[k + 1];
      NamesOfLinesShape(lines[1..]);
      CsvNameShape(lines[0]);
      var c := CsvName(lines[0]);
      if c.Some? && c.value != [] {
        assert r == [c.value] + rest;
        forall k | 0 <= k < |r|
          ensures ListedName(r[k])
        {
          if k > 0 {
            assert r[k] == rest[k - 1];
          }
        }
      } else {
        assert r == rest;
      }
    }
  }

  /** Every name read from a CSV export is non-empty, holds no comma or white
      space, and is never the header word `name`. */
  lemma GetNamesFromCSVShape(str: string)
    ensures forall k :: 0 <= k < |GetNamesFromCSV(str)| ==>
      IsName(GetNamesFromCSV(str)[k]) && GetNamesFromCSV(str)[k] != "name"
  {
    NamesOfLinesShape(SplitRuns(str, IsSpace));
  }

  /** One CSV record: the name column and whatever columns follow it. */
  datatype CsvRow = CsvRow(name: string, others: Option<string>)

  /** A record as a CSV line: the name, then a comma and the other columns
      when there are any; a one-column export has `None` there. */
  function RowLine(r: CsvRow): string {
    match r.others
    case None => r.name
    case Some(o) => r.name + "," + o
  }

  function RowLines(rows: seq<CsvRow>): (lines: seq<string>)
    ensures |lines| == |rows| && forall k :: 0 <= k < |rows| ==> lines[k] == RowLine(rows[k])
  {
    seq(|rows|, k requires 0 <= k < |rows| => RowLine(rows[k]))
  }

  /** A record as the CSV reader is meant to accept it: no white space, no
      comma inside the name, and no empty line (a one-column record has a
      non-empty name). */
  predicate WellFormedRow(r: CsvRow) {
    NoneIn(r.name, IsNameSeparator)
    && (r.others.None? ==> r.name != [])
    && (r.others.Some? ==> NoneIn(r.others.value, IsSpace))
  }

  /** The names the rows hold, in order, without empty names and the header. */
  function RowNames(rows: seq<CsvRow>): seq<string> {
    if rows == [] then []
    else if rows[0].name == [] || rows[0].name == "name" then RowNames(rows[1..])
    else [rows[0].name] + RowNames(rows[1..])
  }

  /** The CSV reader takes a well-formed record's name column, and drops the header. */
  lemma RowName(r: CsvRow)
    requires WellFormedRow(r)
    ensures CsvName(RowLine(r)) == if r.name == "name" then None else Some(r.name)
  {
    assert ',' !in r.name;
    match r.others {
      case None =>
        SplitOnFree(r.name, ',');
      case Some(o) =>
        assert RowLine(r) == r.name + [','] + o;
        SplitOnPrefix(r.name, ',', o);
    }
    assert NoneIn(r.name, IsSpace) by {
      forall i | 0 <= i < |r.name| ensures !IsSpace(r.name[i]) {
        assert !IsNameSeparator(r.name[i]);
      }
    }
    TrimSpaceless(r.name);
  }

  /** A well-formed record is a non-empty line without white space. */
  lemma RowLineShape(r: CsvRow)
    requires WellFormedRow(r)
    ensures RowLine(r) != [] && NoneIn(RowLine(r), IsSpace)
  {
    var line := RowLine(r);
    forall i | 0 <= i < |line|
      ensures !IsSpace(line[i])
    {
      if i < |r.name| {
        assert line[i] == r.name[i] && !IsNameSeparator(r.name[i]);
      } else if i > |r.name| {
        assert line[i] == r.others.value[i - |r.name| - 1];
      }
    }
  }

  lemma {:induction false} NamesOfRowLines(rows: seq<CsvRow>)
    requires forall k :: 0 <= k < |rows| ==> WellFormedRow(rows[k])
    ensures NamesOfLines(RowLines(rows)) == RowNames(rows)
  {
    if rows != [] {
      NamesOfRowLines(rows[1..]);
      assert RowLines(rows)[1..] == RowLines(rows[1..]);
      RowName(rows[0]);
    }
  }

  /** `.map(CsvName).filter(Boolean)` works line by line. */
  lemma {:induction false} NamesOfLinesAppend(a: seq<string>, b: seq<string>)
    ensures NamesOfLines(a + b) == NamesOfLines(a) + NamesOfLines(b)
  {
    if a == [] {
      assert a + b == b;
    } else {
      assert (a + b)[1..] == a[1..] + b;
      NamesOfLinesAppend(a[1..], b);
    }
  }

  /** An empty line contributes no name. */
  lemma NamesOfEmptyLine()
    ensures NamesOfLines([[]]) == []
  {
    var empty: string := [];
    assert SplitOn(empty, ',')[0] == [];
    assert Trim(empty) == [];
    assert [empty][1..] == [];
  }

  /** The layout of a CSV export: its lines, with a non-empty run of white
      space (`\n`, `\r\n`, blank lines, …) between each two, and optionally
      such a run before the first and after the last. */
  predicate CsvLayout(lead: string, rows: seq<CsvRow>, seps: seq<string>, trail: string) {
    (if rows == [] then seps == [] else |seps| == |rows| - 1)
    && (forall k :: 0 <= k < |rows| ==> WellFormedRow(rows[k]))
    && (forall k :: 0 <= k < |seps| ==> seps[k] != [] && AllIn(seps[k], IsSpace))
    && AllIn(lead, IsSpace) && AllIn(trail, IsSpace)
  }

  /** The CSV reader splits any text of non-empty lines without white space,
      separated by white-space runs and possibly led and trailed by them, into
      exactly those lines: what it returns is what the lines give, line by line. */
  lemma GetNamesFromCSVLines(lead: string, lines: seq<string>, seps: seq<string>, trail: string)
    requires if lines == [] then seps == [] else |seps| == |lines| - 1
    requires forall k :: 0 <= k < |lines| ==> lines[k] != [] && NoneIn(lines[k], IsSpace)
    requires forall k :: 0 <= k < |seps| ==> seps[k] != [] && AllIn(seps[k], IsSpace)
    requires AllIn(lead, IsSpace) && AllIn(trail, IsSpace)
    ensures GetNamesFromCSV(lead + Interleave(lines, seps) + trail) == NamesOfLines(lines)
  {
    var text := lead + Interleave(lines, seps) + trail;
    if lines == [] {
      assert text == lead + trail;
      AllInAppend(lead, trail, IsSpace);
      NamesOfBlankText(text);
    } else {
      SplitRunsLayout(lead, lines, seps, trail, IsSpace);
      NamesOfFramedLines(if lead == [] then [] else [[]], lines, if trail == [] then [] else [[]]);
    }
  }

  /** A text of white space only holds no name. */
  lemma NamesOfBlankText(text: string)
    requires AllIn(text, IsSpace)
    ensures GetNamesFromCSV(text) == []
  {
    NamesOfEmptyLine();
    if text != [] {
      SplitRunsAllSep(text, IsSpace);
      assert NamesOfLines([[], []]) == NamesOfLines([[]] + [[]]);
      NamesOfLinesAppend([[]], [[]]);
    }
  }

  /** The empty lines a leading and a trailing white-space run produce give no name. */
  lemma NamesOfFramedLines(front: seq<string>, lines: seq<string>, back: seq<string>)
    requires front == [] || front == [[]]
    requires back == [] || back == [[]]
    ensures NamesOfLines(front + lines + back) == NamesOfLines(lines)
  {
    NamesOfEmptyLine();
    NamesOfLinesAppend(front + lines, back);
    NamesOfLinesAppend(front, lines);
  }

  /** A line with no comma and no white space is a name on its own: the
      reader returns it whole, unless it is the header word. */
  lemma CsvNameOfBareLine(line: string)
    requires NoneIn(line, IsNameSeparator)
    ensures CsvName(line) == if line == "name" then None else Some(line)
  {
    if line == [] {
      assert SplitOn(line, ',')[0] == [];
      assert Trim(line) == [];
    } else {
      RowName(CsvRow(line, None));
    }
  }

  /** A CSV export laid out that way, with one or more columns, is read back
      as the name column of its records, in order, with the header line and
      empty names dropped. */
  lemma GetNamesFromCSVRoundTrip(lead: string, rows: seq<CsvRow>, seps: seq<string>, trail: string)
    requires CsvLayout(lead, rows, seps, trail)
    ensures GetNamesFromCSV(lead + Interleave(RowLines(rows), seps) + trail) == RowNames(rows)
  {
    var lines := RowLines(rows);
    forall k | 0 <= k < |lines|
      ensures lines[k] != [] && NoneIn(lines[k], IsSpace)
    {
      RowLineShape(rows[k]);
    }
    GetNamesFromCSVLines(lead, lines, seps, trail);
    NamesOfRowLines(rows);
  }

  /** Records joined by `\n` are laid out as a CSV export. */
  lemma JoinedRowsLayout(rows: seq<CsvRow>)
    requires forall k :: 0 <= k < |rows| ==> WellFormedRow(rows[k])
    ensures CsvLayout([], rows, Copies(if rows == [] then 0 else |rows| - 1, "\n"), [])
  {
    assert AllIn("\n", IsSpace);
  }

  /** In particular a CSV export whose records are joined by `\n` is read back that way. */
  lemma GetNamesFromCSVJoin(rows: seq<CsvRow>)
    requires forall k :: 0 <= k < |rows| ==> WellFormedRow(rows[k])
    ensures GetNamesFromCSV(Join(RowLines(rows), "\n")) == RowNames(rows)
  {
    var lines := RowLines(rows);
    var seps := Copies(if rows == [] then 0 else |rows| - 1, "\n");
    JoinAsInterleave(lines, "\n");
    JoinedRowsLayout(rows);
    GetNamesFromCSVRoundTrip([], rows, seps, []);
  }

  /** A one-column export with its header: `"name\nalice\nbob"` gives `["alice", "bob"]`. */
  lemma OneColumnExport()
    ensures GetNamesFromCSV("name\nalice\nbob") == ["alice", "bob"]
  {
    var rows := [CsvRow("name", None), CsvRow("alice", None), CsvRow("bob", None)];
    OneColumnWellFormed(rows);
    OneColumnText(rows);
    OneColumnNames(rows);
    GetNamesFromCSVJoin(rows);
  }

  lemma OneColumnWellFormed(rows: seq<CsvRow>)
    requires rows == [CsvRow("name", None), CsvRow("alice", None), CsvRow("bob", None)]
    ensures forall k :: 0 <= k < |rows| ==> WellFormedRow(rows[k])
  {
  }

  lemma OneColumnText(rows: seq<CsvRow>)
    requires rows == [CsvRow("name", None), CsvRow("alice", None), CsvRow("bob", None)]
    ensures Join(RowLines(rows), "\n") == "name\nalice\nbob"
  {
    assert RowLines(rows) == ["name", "alice", "bob"];
    assert Join(["name", "alice", "bob"], "\n") == "name" + "\n" + ("alice" + "\n" + "bob");
  }

  lemma OneColumnNames(rows: seq<CsvRow>)
    requires rows == [CsvRow("name", None), CsvRow("alice", None), CsvRow("bob", None)]
    ensures RowNames(rows) == ["alice", "bob"]
  {
    var bob := [CsvRow("bob", None)];
    assert bob[1..] == [];
    assert |"bob"| != |"name"|;
    assert RowNames(bob) == ["bob"];
    assert rows[1..] == [CsvRow("alice", None)] + bob;
    assert ([CsvRow("alice", None)] + bob)[1..] == bob;
    assert "alice"[0] != "name"[0];
    assert RowNames(rows[1..]) == ["alice", "bob"];
  }

  // ---------------------------------------------------------------------------
  // arrayify

  /** `arrayify(val)` (`utils.js`:105-111). */
  function Arrayify(val: JsValue): (r: seq<JsValue>)
    ensures Falsy(val) ==> r == []
    ensures val.Arr? ==> r == Flat(val.items)
    ensures !Falsy(val) && !val.Arr? ==> r == [val]
  {
    if Falsy(val) then []
    else if val.Arr? then Flat(val.items)
    else [val]
  }

  /** A value that `arrayify` turns into a list free of arrays: anything but an
      array, or an array whose nested arrays hold no arrays themselves. */
  predicate ArrayifiesFlat(val: JsValue) {
    val.Arr? ==> Shallow(val.items)
  }

  /** Arrayifying the result of `arrayify` again changes nothing, when the
      input is nested at most two levels deep. */
  lemma ArrayifyIdempotent(val: JsValue)
    requires ArrayifiesFlat(val)
    ensures Arrayify(Arr(Arrayify(val))) == Arrayify(val)
  {
    if val.Arr? {
      FlatOfShallow(val.items);
    }
  }

  /** An array of arrays is arrayified to the concatenation of its members. */
  lemma {:induction false} ArrayifyConcat(a: seq<JsValue>, b: seq<JsValue>)
    ensures Arrayify(Arr([Arr(a), Arr(b)])) == a + b
  {
    FlatAppend([Arr(a)], [Arr(b)]);
    assert Flat([Arr(a)]) == a + Flat([]);
    assert Flat([Arr(b)]) == b + Flat([]);
    assert [Arr(a), Arr(b)] == [Arr(a)] + [Arr(b)];
  }
}
