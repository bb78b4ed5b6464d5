/** The DTK result pipeline: reading `case#result` lines, normalising case
    names, loading the case-to-module and module-to-owner tables, resolving a
    case to its module by longest prefix, and merging the latest results with
    the baseline into attributed rows. */
module Dtk {
  import opened Wrappers
  import opened Text
  import opened OrderedDict

  /** The two `ValueError`s a result line can raise. */
  datatype FormatError =
    | EmptyLine                    // the line is blank once trimmed
    | InvalidFormat(line: string)  // the trimmed line is not `<case>#<result>`

  /** One parsed line: a case name and its result, absent when the line ends at `#`. */
  datatype CaseEntry = CaseEntry(caseName: string, value: Option<string>)

  /** The text of a line that carries `e`: the case, `#`, then the result or nothing. */
  function FormatLine(e: CaseEntry): string {
    e.caseName + "#" + e.value.GetOr("")
  }

  // ---------------------------------------------------------------------
  // Result lines

  /** `_parse_result_line`: trim the line, demand exactly one `#` and a
      non-empty case before it, and turn an empty result into `None`. */
  function ParseResultLine(line: string): Result<CaseEntry, FormatError>
  {
    var trimmed := Strip(line);
    if trimmed == [] then Failure(EmptyLine)
    else if Count(trimmed, '#') != 1 then Failure(InvalidFormat(trimmed))
    else
      var i := IndexOf(trimmed, '#');
      var caseName, result := trimmed[..i], trimmed[i + 1..];
      if caseName == [] then Failure(InvalidFormat(trimmed))
      else if result == [] then Success(CaseEntry(caseName, None))
      else Success(CaseEntry(caseName, Some(result)))
  }

  /** A line is refused as empty exactly when it is blank; it is refused as
      malformed, quoting the trimmed line, when it does not hold exactly one
      `#` or starts with it; otherwise the case, `#` and the result (nothing
      for `None`) spell out the trimmed line again, and the result is never
      the empty string. */
  lemma ParseResultLineSpec(line: string)
    ensures ParseResultLine(line) == Failure(EmptyLine) <==> Strip(line) == []
    ensures ParseResultLine(line).Failure? && Strip(line) != [] ==>
              ParseResultLine(line).error == InvalidFormat(Strip(line))
    ensures ParseResultLine(line).Success? <==>
              Strip(line) != [] && Count(Strip(line), '#') == 1 && Strip(line)[0] != '#'
    ensures ParseResultLine(line).Success? ==>
              && FormatLine(ParseResultLine(line).value) == Strip(line)
              && ParseResultLine(line).value.caseName != [] && '#' !in ParseResultLine(line).value.caseName
              && ParseResultLine(line).value.value != Some([])
  {
  }

  /** The entries a result file can carry: a non-empty case and a present
      result, neither holding `#`, with no whitespace at either end of the line. */
  predicate Writable(e: CaseEntry) {
    && e.caseName != [] && '#' !in e.caseName && !IsSpace(e.caseName[0])
    && match e.value
       case None => true
       case Some(v) => v != [] && '#' !in v && !IsSpace(v[|v| - 1])
  }

  /** The line of a writable entry has no surrounding whitespace, exactly one
      `#`, and that `#` right after the case. */
  lemma FormatLineShape(e: CaseEntry)
    requires Writable(e)
    ensures Strip(FormatLine(e)) == FormatLine(e)
    ensures Count(FormatLine(e), '#') == 1
    ensures IndexOf(FormatLine(e), '#') == |e.caseName|
  {
    var line := FormatLine(e);
    var v := e.value.GetOr("");
    assert line[|line| - 1] == if v == [] then '#' else v[|v| - 1];
    assert line[0] == e.caseName[0];
    StripUnchanged(line);
    CountAppend(e.caseName, "#", '#');
    CountAppend(e.caseName + "#", v, '#');
    assert line[..|e.caseName|] == e.caseName;
  }

  /** A writable entry survives formatting and parsing unchanged. */
  lemma ParseFormat(e: CaseEntry)
    requires Writable(e)
    ensures ParseResultLine(FormatLine(e)) == Success(e)
  {
    var line := FormatLine(e);
    FormatLineShape(e);
    assert line[..|e.caseName|] == e.caseName;
    assert line[|e.caseName| + 1..] == e.value.GetOr("");
  }

  /** Only a writable entry survives formatting and parsing unchanged. */
  lemma FormatParseOnlyWritable(e: CaseEntry)
    requires ParseResultLine(FormatLine(e)) == Success(e)
    ensures Writable(e)
  {
    var line := FormatLine(e);
    var v := e.value.GetOr("");
    assert && Strip(line) == line && Count(line, '#') == 1
           && e.caseName != [] && '#' !in e.caseName && e.value != Some([]) by {
      ParseResultLineSpec(line);
    }
    assert '#' !in v by {
      CountAppend(e.caseName, "#", '#');
      CountAppend(e.caseName + "#", v, '#');
    }
    assert !IsSpace(line[0]) && !IsSpace(line[|line| - 1]) by {
      StripEnds(line);
    }
    assert line[0] == e.caseName[0];
    if e.value.Some? {
      assert line[|line| - 1] == v[|v| - 1];
    }
  }

  /** Parsing undoes formatting exactly for the writable entries, and for no others. */
  lemma ParseFormatRoundTrip(e: CaseEntry)
    ensures ParseResultLine(FormatLine(e)) == Success(e) <==> Writable(e)
  {
    if Writable(e) {
      ParseFormat(e);
    } else if ParseResultLine(FormatLine(e)) == Success(e) {
      FormatParseOnlyWritable(e);
    }
  }

  /** `_read_cases` drops a trailing `.jpg`, matched ignoring case, from a case name. */
  function NormalizeCase(caseName: string): string {
    if LowerEndsWith(caseName, ".jpg") then caseName[..|caseName| - 4] else caseName
  }

  /** An image artifact's case, with any capitalisation of the `.jpg`
      extension, is folded onto the case it belongs to; nothing else is removed. */
  lemma NormalizeCaseDropsImageSuffix(caseName: string, ext: string)
    requires Lower(ext) == ".jpg"
    ensures NormalizeCase(caseName + ext) == caseName
  {
  }

  /** A four-character extension lower-cases to `.jpg` exactly when it is
      `.jpg` in some mix of capitals and lower-case letters. */
  lemma LowerIsJpg(ext: string)
    requires |ext| == 4
    ensures Lower(ext) == ".jpg" <==>
              ext[0] == '.' && ext[1] in "jJ" && ext[2] in "pP" && ext[3] in "gG"
  {
    var l := Lower(ext);
    assert l[0] == LowerChar(ext[0]) && l[1] == LowerChar(ext[1]);
    assert l[2] == LowerChar(ext[2]) && l[3] == LowerChar(ext[3]);
    if l == ".jpg" {
      assert l[0] == '.' && l[1] == 'j' && l[2] == 'p' && l[3] == 'g';
    }
    if ext[0] == '.' && ext[1] in "jJ" && ext[2] in "pP" && ext[3] in "gG" {
      assert l[0] == '.' && l[1] == 'j' && l[2] == 'p' && l[3] == 'g';
      assert l == ".jpg";
    }
  }

  /** An image artifact named in capitals is folded onto its case. */
  lemma NormalizeCaseExample()
    ensures NormalizeCase("Foo.JPG") == "Foo"
  {
    NormalizeCaseDropsImageSuffix("Foo", ".JPG");
    assert "Foo" + ".JPG" == "Foo.JPG";
  }

  /** Normalising only ever cuts off a suffix, and one that is exactly `.jpg` ignoring case. */
  lemma NormalizeCaseIsPrefix(caseName: string)
    ensures NormalizeCase(caseName) <= caseName
    ensures NormalizeCase(caseName) != caseName ==>
              |NormalizeCase(caseName)| == |caseName| - 4 && Lower(caseName[|caseName| - 4..]) == ".jpg"
  {
  }

  /** A line whose case is only the image extension passes the empty-case
      check... */
  lemma BareImageLineParses()
    ensures ParseResultLine(".jpg#pass") == Success(CaseEntry(".jpg", Some("pass")))
  {
    var e := CaseEntry(".jpg", Some("pass"));
    assert FormatLine(e) == ".jpg#pass";
    assert !IsSpace('.') && !IsSpace('s');
    ParseFormat(e);
  }

  /** ...and its case then normalises to the empty case name. */
  lemma BareImageCaseBecomesEmpty()
    ensures NormalizeCase(".jpg") == ""
  {
  }

  /** One line of a results or baseline file: parsed, then its case normalised. */
  function ReadCase(line: string): Result<CaseEntry, FormatError> {
    match ParseResultLine(line)
    case Failure(err) => Failure(err)
    case Success(e) => Success(CaseEntry(NormalizeCase(e.caseName), e.value))
  }

  /** Every line read in order by `read`, or the error of the first line it refuses. */
  function ReadLines<T, E>(lines: seq<string>, read: string -> Result<T, E>): Result<seq<T>, E> {
    if lines == [] then Success([])
    else
      match read(lines[0])
      case Failure(err) => Failure(err)
      case Success(v) =>
        match ReadLines(lines[1..], read)
        case Failure(err) => Failure(err)
        case Success(vs) => Success([v] + vs)
  }

  /** Reading succeeds exactly when every line reads, and then yields one
      value per line in order; a failure carries the error of the first line
      that does not read. */
  lemma {:induction false} ReadLinesSpec<T, E>(lines: seq<string>, read: string -> Result<T, E>)
    ensures ReadLines(lines, read).Success? <==> forall i :: 0 <= i < |lines| ==> read(lines[i]).Success?
    ensures ReadLines(lines, read).Success? ==>
              |ReadLines(lines, read).value| == |lines| &&
              forall i :: 0 <= i < |lines| ==> read(lines[i]) == Success(ReadLines(lines, read).value[i])
    ensures ReadLines(lines, read).Failure? ==>
              exists i :: 0 <= i < |lines| && read(lines[i]) == Failure(ReadLines(lines, read).error) &&
                forall j :: 0 <= j < i ==> read(lines[j]).Success?
  {
    if lines != [] {
      ReadLinesSpec(lines[1..], read);
      assert forall j :: 0 < j < |lines| ==> lines[j] == lines[1..][j - 1];
      if read(lines[0]).Success? && ReadLines(lines[1..], read).Failure? {
        var i :| 0 <= i < |lines| - 1 && read(lines[1..][i]) == Failure(ReadLines(lines[1..], read).error) &&
                 forall j :: 0 <= j < i ==> read(lines[1..][j]).Success?;
        assert read(lines[i + 1]) == Failure(ReadLines(lines, read).error);
      }
    }
  }

  /** The entries of a whole results or baseline file. */
  function ParseCases(lines: seq<string>): Result<seq<CaseEntry>, FormatError> {
    ReadLines(lines, ReadCase)
  }

  lemma TakeOneMore<T>(s: seq<T>, n: nat)
    requires n < |s|
    ensures s[..n + 1] == s[..n] + [s[n]]
  {
  }

  lemma SplitJoin<T>(s: seq<T>, n: nat)
    requires n <= |s|
    ensures s[..n] + s[n..] == s && s[..|s|] == s
  {
  }

  /** Reading one more line: it either fails with that line's error or
      appends that line's value; an earlier failure stands. */
  lemma {:induction false} ReadLinesSnoc<T, E>(lines: seq<string>, line: string, read: string -> Result<T, E>)
    ensures ReadLines(lines + [line], read) ==
            match ReadLines(lines, read)
            case Failure(err) => Failure(err)
            case Success(vs) =>
              match read(line)
              case Failure(err) => Failure(err)
              case Success(v) => Success(vs + [v])
  {
    if lines == [] {
      assert lines + [line] == [line] && [line][0] == line && [line][1..] == [];
      if read(line).Success? {
        assert [read(line).value] + [] == [] + [read(line).value];
      }
    } else {
      assert (lines + [line])[0] == lines[0];
      assert (lines + [line])[1..] == lines[1..] + [line];
      ReadLinesSnoc(lines[1..], line, read);
      if read(lines[0]).Success? && ReadLines(lines[1..], read).Success? && read(line).Success? {
        var v0, vs, v := read(lines[0]).value, ReadLines(lines[1..], read).value, read(line).value;
        assert [v0] + (vs + [v]) == ([v0] + vs) + [v];
      }
    }
  }

  /** Once a prefix fails, the lines after it are never looked at. */
  lemma {:induction false} ReadLinesStopsAtFailure<T, E>(lines: seq<string>, more: seq<string>, read: string -> Result<T, E>)
    requires ReadLines(lines, read).Failure?
    ensures ReadLines(lines + more, read) == ReadLines(lines, read)
  {
    assert (lines + more)[0] == lines[0];
    if read(lines[0]).Success? {
      assert (lines + more)[1..] == lines[1..] + more;
      ReadLinesStopsAtFailure(lines[1..], more, read);
    }
  }

  /** `_read_cases`: read the lines in order, stopping at the first malformed one. */
  method ReadCases(lines: seq<string>) returns (r: Result<seq<CaseEntry>, FormatError>)
    ensures r == ParseCases(lines)
  {
    var cases: seq<CaseEntry> := [];
    var n := 0;
    while n < |lines|
      invariant 0 <= n <= |lines|
      invariant ParseCases(lines[..n]) == Success(cases)
    {
      TakeOneMore(lines, n);
      ReadLinesSnoc(lines[..n], lines[n], ReadCase);
      var parsed := ParseResultLine(lines[n]);
      if parsed.Failure? {
        assert ReadCase(lines[n]) == Failure(parsed.error);
        ReadLinesStopsAtFailure(lines[..n + 1], lines[n + 1..], ReadCase);
        SplitJoin(lines, n + 1);
        return Failure(parsed.error);
      }
      var caseName := parsed.value.caseName;
      if LowerEndsWith(caseName, ".jpg") {
        caseName := caseName[..|caseName| - 4];
      }
      assert ReadCase(lines[n]) == Success(CaseEntry(caseName, parsed.value.value));
      cases := cases + [CaseEntry(caseName, parsed.value.value)];
      n := n + 1;
    }
    SplitJoin(lines, n);
    return Success(cases);
  }

  // ---------------------------------------------------------------------
  // Mapping tables

  /** A CSV file as a dict reader sees it: the header, then one map per data
      row from column name to text (a column the row lacks is absent). */
  datatype CsvFile = CsvFile(fieldnames: seq<string>, rows: seq<map<string, string>>)

  /** `(row.get(name) or "")`. */
  function Field(row: map<string, string>, name: string): string {
    if name in row then row[name] else ""
  }

  /** The key and value a row contributes: both trimmed, and none when either is empty. */
  function MappingItem(row: map<string, string>, keyField: string, valueField: string): Option<(string, string)> {
    var key := Strip(Field(row, keyField));
    var value := Strip(Field(row, valueField));
    if key == [] || value == [] then None else Some((key, value))
  }

  /** What each row contributes, in file order. */
  function MappingItems(rows: seq<map<string, string>>, keyField: string, valueField: string): seq<Option<(string, string)>> {
    seq(|rows|, i requires 0 <= i < |rows| => MappingItem(rows[i], keyField, valueField))
  }

  /** The dict filled by assigning each contributed item in turn. */
  function Assign(items: seq<Option<(string, string)>>): Dict<string> {
    if items == [] then []
    else
      var mapping := Assign(items[..|items| - 1]);
      match items[|items| - 1]
      case None => mapping
      case Some(item) => Put(mapping, item.0, item.1)
  }

  /** The dict `_load_mapping` fills from `rows`. */
  function MappingFrom(rows: seq<map<string, string>>, keyField: string, valueField: string): Dict<string> {
    Assign(MappingItems(rows, keyField, valueField))
  }

  /** The header is non-empty and names both columns. */
  predicate HasColumns(file: CsvFile, keyField: string, valueField: string) {
    file.fieldnames != [] && keyField in file.fieldnames && valueField in file.fieldnames
  }

  /** Assigning one more item extends the fold by one step. */
  lemma AssignSnoc(items: seq<Option<(string, string)>>, n: nat)
    requires n < |items|
    ensures Assign(items[..n + 1]) == match items[n]
                                      case None => Assign(items[..n])
                                      case Some(item) => Put(Assign(items[..n]), item.0, item.1)
  {
    TakeOneMore(items, n);
    assert items[..n + 1][..n] == items[..n];
  }

  /** `_load_mapping` over a file that may be missing (`None`). */
  method LoadMapping(file: Option<CsvFile>, keyField: string, valueField: string) returns (mapping: Dict<string>)
    ensures file.None? || !HasColumns(file.value, keyField, valueField) ==> mapping == []
    ensures file.Some? && HasColumns(file.value, keyField, valueField) ==>
              mapping == MappingFrom(file.value.rows, keyField, valueField)
  {
    mapping := [];
    if file.None? || !HasColumns(file.value, keyField, valueField) {
      return;
    }
    var rows := file.value.rows;
    ghost var items := MappingItems(rows, keyField, valueField);
    for n := 0 to |rows|
      invariant mapping == Assign(items[..n])
    {
      AssignSnoc(items, n);
      var key := Strip(Field(rows[n], keyField));
      var value := Strip(Field(rows[n], valueField));
      if key == [] || value == [] {
        continue;
      }
      mapping := Put(mapping, key, value);
    }
    SplitJoin(items, |rows|);
  }

  /** Item `i` is the last item for `key`. */
  ghost predicate LastFor(items: seq<Option<(string, string)>>, key: string, i: int) {
    && 0 <= i < |items|
    && items[i].Some?
    && items[i].value.0 == key
    && forall j :: i < j < |items| ==> items[j].None? || items[j].value.0 != key
  }

  /** A key and value that are non-empty and carry no surrounding whitespace. */
  ghost predicate CleanItem(item: (string, string)) {
    item.0 != [] && item.1 != [] && Strip(item.0) == item.0 && Strip(item.1) == item.1
  }

  lemma StripTwice(s: string)
    ensures Strip(Strip(s)) == Strip(s)
  {
    StripEnds(s);
    StripUnchanged(Strip(s));
  }

  /** What a row contributes is clean. */
  lemma MappingItemClean(row: map<string, string>, keyField: string, valueField: string)
    ensures MappingItem(row, keyField, valueField).Some? ==> CleanItem(MappingItem(row, keyField, valueField).value)
  {
    StripTwice(Field(row, keyField));
    StripTwice(Field(row, valueField));
  }

  /** Assigning keeps keys distinct. */
  lemma {:induction false} AssignDistinct(items: seq<Option<(string, string)>>)
    ensures DistinctKeys(Assign(items))
  {
    if items != [] {
      AssignDistinct(items[..|items| - 1]);
      var item := items[|items| - 1];
      if item.Some? {
        PutDistinct(Assign(items[..|items| - 1]), item.value.0, item.value.1);
      }
    }
  }

  /** Every item of the filled dict is one of the items assigned. */
  lemma {:induction false} AssignFrom(items: seq<Option<(string, string)>>)
    ensures forall p :: p in Assign(items) ==> Some(p) in items
  {
    if items != [] {
      var init := items[..|items| - 1];
      AssignFrom(init);
      assert forall x :: x in init ==> x in items;
      var item := items[|items| - 1];
      if item.Some? {
        PutItems(Assign(init), item.value.0, item.value.1);
      }
    }
  }

  /** No item carries `key`. */
  ghost predicate Absent(items: seq<Option<(string, string)>>, key: string) {
    forall j :: 0 <= j < |items| ==> items[j].None? || items[j].value.0 != key
  }

  /** A key no item carries is not in the filled dict. */
  lemma {:induction false} AssignAbsent(items: seq<Option<(string, string)>>, key: string)
    requires Absent(items, key)
    ensures Get(Assign(items), key) == None
  {
    if items != [] {
      var init := items[..|items| - 1];
      assert forall j :: 0 <= j < |init| ==> init[j] == items[j];
      AssignAbsent(init, key);
      var item := items[|items| - 1];
      if item.Some? {
        PutGet(Assign(init), item.value.0, item.value.1, key);
      }
    }
  }

  /** Looking a key up in the filled dict gives the value of the last item for that key. */
  lemma {:induction false} AssignLastWins(items: seq<Option<(string, string)>>, key: string, i: int)
    requires LastFor(items, key, i)
    ensures Get(Assign(items), key) == Some(items[i].value.1)
  {
    var init := items[..|items| - 1];
    var item := items[|items| - 1];
    if i == |items| - 1 {
      PutGet(Assign(init), item.value.0, item.value.1, key);
    } else {
      assert LastFor(init, key, i) by {
        assert forall j :: 0 <= j < |init| ==> init[j] == items[j];
      }
      AssignLastWins(init, key, i);
      if item.Some? {
        PutGet(Assign(init), item.value.0, item.value.1, key);
      }
    }
  }

  /** A loaded table is a dict. */
  lemma MappingFromDistinct(rows: seq<map<string, string>>, keyField: string, valueField: string)
    ensures DistinctKeys(MappingFrom(rows, keyField, valueField))
  {
    AssignDistinct(MappingItems(rows, keyField, valueField));
  }

  /** Rows with an empty key or value never reach the table, and what does is trimmed. */
  lemma MappingFromClean(rows: seq<map<string, string>>, keyField: string, valueField: string)
    ensures forall p :: p in MappingFrom(rows, keyField, valueField) ==> CleanItem(p)
  {
    var items := MappingItems(rows, keyField, valueField);
    AssignFrom(items);
    forall p | p in Assign(items)
      ensures CleanItem(p)
    {
      var i :| 0 <= i < |items| && items[i] == Some(p);
      MappingItemClean(rows[i], keyField, valueField);
    }
  }

  /** Looking a key up in a loaded table gives nothing for a key no row
      contributes, and otherwise the value of the last row that contributes it. */
  lemma MappingFromLastWins(rows: seq<map<string, string>>, keyField: string, valueField: string, key: string)
    ensures Absent(MappingItems(rows, keyField, valueField), key) ==>
              Get(MappingFrom(rows, keyField, valueField), key) == None
    ensures forall i :: LastFor(MappingItems(rows, keyField, valueField), key, i) ==>
              Get(MappingFrom(rows, keyField, valueField), key) == Some(MappingItem(rows[i], keyField, valueField).value.1)
  {
    var items := MappingItems(rows, keyField, valueField);
    if Absent(items, key) {
      AssignAbsent(items, key);
    }
    forall i | LastFor(items, key, i)
      ensures Get(Assign(items), key) == Some(items[i].value.1)
    {
      AssignLastWins(items, key, i);
    }
  }

  // ---------------------------------------------------------------------
  // Case-to-module resolution

  /** Item `i`'s key is a non-empty prefix of `case`, no matching key is
      longer, and every matching key before it is shorter: the key the scan keeps. */
  ghost predicate IsBestKey(caseName: string, d: Dict<string>, i: int) {
    && 0 <= i < |d|
    && d[i].0 != [] && StartsWith(caseName, d[i].0)
    && (forall j :: 0 <= j < |d| && StartsWith(caseName, d[j].0) ==> |d[j].0| <= |d[i].0|)
    && (forall j :: 0 <= j < i && StartsWith(caseName, d[j].0) ==> |d[j].0| < |d[i].0|)
  }

  /** The module and key length the scan of `_module_for_case` holds after the items of `d`. */
  function BestMatch(caseName: string, d: Dict<string>): (Option<string>, nat) {
    if d == [] then (None, 0)
    else
      var (key, moduleName) := d[|d| - 1];
      var (best, length) := BestMatch(caseName, d[..|d| - 1]);
      if StartsWith(caseName, key) && |key| > length then (Some(moduleName), |key|) else (best, length)
  }

  /** The scan finds nothing exactly when no non-empty key is a prefix of the
      case (an empty key never wins); otherwise it holds the module of the
      first of the longest matching keys, and that key's length. */
  lemma {:induction false} BestMatchSpec(caseName: string, d: Dict<string>)
    ensures BestMatch(caseName, d).0.None? <==>
              forall i :: 0 <= i < |d| && StartsWith(caseName, d[i].0) ==> d[i].0 == []
    ensures BestMatch(caseName, d).0.None? ==> BestMatch(caseName, d).1 == 0
    ensures BestMatch(caseName, d).0.Some? ==>
              exists i :: IsBestKey(caseName, d, i) && d[i].1 == BestMatch(caseName, d).0.value &&
                          |d[i].0| == BestMatch(caseName, d).1
  {
    if d != [] {
      var init := d[..|d| - 1];
      BestMatchSpec(caseName, init);
      var (key, moduleName) := d[|d| - 1];
      var (best, length) := BestMatch(caseName, init);
      assert forall j :: 0 <= j < |init| ==> init[j] == d[j];
      if StartsWith(caseName, key) && |key| > length {
        assert IsBestKey(caseName, d, |d| - 1);
      } else if best.Some? {
        var i :| IsBestKey(caseName, init, i) && init[i].1 == best.value && |init[i].0| == length;
        assert IsBestKey(caseName, d, i);
      }
    }
  }

  /** The module `_module_for_case` resolves `case` to. */
  function ModuleFor(caseName: string, caseToModule: Dict<string>): Option<string> {
    BestMatch(caseName, caseToModule).0
  }

  /** `_module_for_case`: scan the items in order, keeping a matching key
      only when it is strictly longer than the best so far. */
  method ModuleForCase(caseName: string, caseToModule: Dict<string>) returns (bestMatch: Option<string>)
    ensures bestMatch == ModuleFor(caseName, caseToModule)
  {
    bestMatch := None;
    var bestLength := 0;
    for n := 0 to |caseToModule|
      invariant (bestMatch, bestLength) == BestMatch(caseName, caseToModule[..n])
    {
      assert caseToModule[..n + 1][..n] == caseToModule[..n];
      var (casename, moduleName) := caseToModule[n];
      if !StartsWith(caseName, casename) {
        continue;
      }
      if |casename| > bestLength {
        bestMatch := Some(moduleName);
        bestLength := |casename|;
      }
    }
    assert caseToModule[..|caseToModule|] == caseToModule;
  }

  /** In a dict no two keys are equal, so the longest matching key is
      unique and the order of the items never decides the module. */
  lemma LongestMatchUnique(caseName: string, d: Dict<string>, i: int, j: int)
    requires DistinctKeys(d)
    requires 0 <= i < |d| && 0 <= j < |d|
    requires StartsWith(caseName, d[i].0) && StartsWith(caseName, d[j].0) && |d[i].0| == |d[j].0|
    ensures i == j
  {
  }

  /** `module_to_owner.get(module) if module else None`. */
  function OwnerFor(moduleName: Option<string>, moduleToOwner: Dict<string>): (owner: Option<string>)
    ensures owner.None? <==>
              || moduleName.None? || moduleName.value == []
              || forall i :: 0 <= i < |moduleToOwner| ==> moduleToOwner[i].0 != moduleName.value
    ensures owner.Some? ==> moduleName.Some? && moduleName.value != [] && (moduleName.value, owner.value) in moduleToOwner
  {
    if moduleName.Some? && moduleName.value != [] then Get(moduleToOwner, moduleName.value) else None
  }

  /** In a dict, a non-empty module listed in the table gets the owner stored beside it. */
  lemma OwnerForStored(moduleName: string, moduleToOwner: Dict<string>, i: nat)
    requires DistinctKeys(moduleToOwner) && i < |moduleToOwner|
    requires moduleName != [] && moduleToOwner[i].0 == moduleName
    ensures OwnerFor(Some(moduleName), moduleToOwner) == Some(moduleToOwner[i].1)
  {
    GetAt(moduleToOwner, i);
  }

  // ---------------------------------------------------------------------
  // Reconciling results with the baseline

  /** One output row of the DTK table. */
  datatype DtkRow = DtkRow(
    execId: string, caseName: string, moduleName: Option<string>, owner: Option<string>,
    result: Option<string>, baseline: Option<string>)

  /** A row for `case`, attributed to its module and that module's owner. */
  function Attributed(execId: string, caseName: string, result: Option<string>, baseline: Option<string>,
                      caseToModule: Dict<string>, moduleToOwner: Dict<string>): DtkRow {
    var moduleName := ModuleFor(caseName, caseToModule);
    DtkRow(execId, caseName, moduleName, OwnerFor(moduleName, moduleToOwner), result, baseline)
  }

  /** `{case: value for case, value in baselines}`. */
  function BaselineLookup(baselines: seq<CaseEntry>): map<string, Option<string>> {
    if baselines == [] then map[]
    else
      var last := baselines[|baselines| - 1];
      BaselineLookup(baselines[..|baselines| - 1])[last.caseName := last.value]
  }

  /** `baseline_lookup.get(case)`: a missing case and a case without a value both give `None`. */
  function LookupBaseline(lookup: map<string, Option<string>>, caseName: string): Option<string> {
    if caseName in lookup then lookup[caseName] else None
  }

  function CasesOf(entries: seq<CaseEntry>): set<string> {
    set e | e in entries :: e.caseName
  }

  /** The baseline lookup holds the cases of the baseline, each with the
      value of its last entry. */
  lemma {:induction false} BaselineLookupLastWins(baselines: seq<CaseEntry>, caseName: string)
    ensures caseName in BaselineLookup(baselines) <==> caseName in CasesOf(baselines)
    ensures forall j ::
              (0 <= j < |baselines| && baselines[j].caseName == caseName &&
               forall k :: j < k < |baselines| ==> baselines[k].caseName != caseName) ==>
              LookupBaseline(BaselineLookup(baselines), caseName) == baselines[j].value
  {
    if baselines != [] {
      var init := baselines[..|baselines| - 1];
      BaselineLookupLastWins(init, caseName);
      assert baselines == init + [baselines[|baselines| - 1]];
      assert CasesOf(baselines) == CasesOf(init) + {baselines[|baselines| - 1].caseName};
      forall j | 0 <= j < |init| && baselines[j].caseName == caseName &&
                 (forall k :: j < k < |baselines| ==> baselines[k].caseName != caseName)
        ensures LookupBaseline(BaselineLookup(baselines), caseName) == baselines[j].value
      {
        assert init[j] == baselines[j];
        assert forall k :: j < k < |init| ==> init[k] == baselines[k];
      }
    }
  }

  /** The baseline entries whose case is not in `seen`, in their order. */
  function Unseen(baselines: seq<CaseEntry>, seen: set<string>): seq<CaseEntry> {
    if baselines == [] then []
    else
      var last := baselines[|baselines| - 1];
      Unseen(baselines[..|baselines| - 1], seen) + (if last.caseName in seen then [] else [last])
  }

  /** The filter keeps the order: filtering a concatenation concatenates the filtered parts. */
  lemma {:induction false} UnseenAppend(a: seq<CaseEntry>, b: seq<CaseEntry>, seen: set<string>)
    ensures Unseen(a + b, seen) == Unseen(a, seen) + Unseen(b, seen)
  {
    if b == [] {
      assert a + b == a;
    } else {
      var init := b[..|b| - 1];
      assert (a + b)[..|a + b| - 1] == a + init;
      UnseenAppend(a, init, seen);
    }
  }

  /** The filter keeps every entry of an unseen case as often as it occurs
      (duplicates included) and drops every entry of a seen case. */
  lemma {:induction false} UnseenCounts(baselines: seq<CaseEntry>, seen: set<string>, e: CaseEntry)
    ensures multiset(Unseen(baselines, seen))[e] == if e.caseName in seen then 0 else multiset(baselines)[e]
  {
    if baselines != [] {
      var init, last := baselines[..|baselines| - 1], baselines[|baselines| - 1];
      UnseenCounts(init, seen, e);
      assert baselines == init + [last];
      assert multiset(baselines) == multiset(init) + multiset{last};
      var u := Unseen(init, seen);
      if last.caseName in seen {
        assert Unseen(baselines, seen) == u + [];
      } else {
        assert multiset(Unseen(baselines, seen)) == multiset(u) + multiset{last};
      }
    }
  }

  /** The rows emitted for the results, in order. */
  function ResultRows(execId: string, results: seq<CaseEntry>, lookup: map<string, Option<string>>,
                      caseToModule: Dict<string>, moduleToOwner: Dict<string>): seq<DtkRow> {
    if results == [] then []
    else
      var e := results[|results| - 1];
      ResultRows(execId, results[..|results| - 1], lookup, caseToModule, moduleToOwner) +
        [Attributed(execId, e.caseName, e.value, LookupBaseline(lookup, e.caseName), caseToModule, moduleToOwner)]
  }

  /** The rows emitted for baseline-only entries, in order. */
  function BaselineRows(execId: string, entries: seq<CaseEntry>,
                        caseToModule: Dict<string>, moduleToOwner: Dict<string>): seq<DtkRow> {
    if entries == [] then []
    else
      var e := entries[|entries| - 1];
      BaselineRows(execId, entries[..|entries| - 1], caseToModule, moduleToOwner) +
        [Attributed(execId, e.caseName, None, e.value, caseToModule, moduleToOwner)]
  }

  lemma {:induction false} ResultRowsAt(execId: string, results: seq<CaseEntry>, lookup: map<string, Option<string>>,
                                        caseToModule: Dict<string>, moduleToOwner: Dict<string>)
    ensures |ResultRows(execId, results, lookup, caseToModule, moduleToOwner)| == |results|
    ensures forall i :: 0 <= i < |results| ==>
              ResultRows(execId, results, lookup, caseToModule, moduleToOwner)[i] ==
              Attributed(execId, results[i].caseName, results[i].value, LookupBaseline(lookup, results[i].caseName),
                         caseToModule, moduleToOwner)
  {
    if results != [] {
      ResultRowsAt(execId, results[..|results| - 1], lookup, caseToModule, moduleToOwner);
    }
  }

  lemma {:induction false} BaselineRowsAt(execId: string, entries: seq<CaseEntry>,
                                          caseToModule: Dict<string>, moduleToOwner: Dict<string>)
    ensures |BaselineRows(execId, entries, caseToModule, moduleToOwner)| == |entries|
    ensures forall i :: 0 <= i < |entries| ==>
              BaselineRows(execId, entries, caseToModule, moduleToOwner)[i] ==
              Attributed(execId, entries[i].caseName, None, entries[i].value, caseToModule, moduleToOwner)
  {
    if entries != [] {
      BaselineRowsAt(execId, entries[..|entries| - 1], caseToModule, moduleToOwner);
    }
  }

  lemma ResultRowsSnoc(execId: string, results: seq<CaseEntry>, n: nat, lookup: map<string, Option<string>>,
                       caseToModule: Dict<string>, moduleToOwner: Dict<string>)
    requires n < |results|
    ensures CasesOf(results[..n + 1]) == CasesOf(results[..n]) + {results[n].caseName}
    ensures ResultRows(execId, results[..n + 1], lookup, caseToModule, moduleToOwner) ==
            ResultRows(execId, results[..n], lookup, caseToModule, moduleToOwner) +
            [Attributed(execId, results[n].caseName, results[n].value, LookupBaseline(lookup, results[n].caseName),
                        caseToModule, moduleToOwner)]
  {
    assert results[..n + 1] == results[..n] + [results[n]];
  }

  lemma UnseenSnoc(baselines: seq<CaseEntry>, n: nat, seen: set<string>)
    requires n < |baselines|
    ensures Unseen(baselines[..n + 1], seen) ==
            Unseen(baselines[..n], seen) + (if baselines[n].caseName in seen then [] else [baselines[n]])
  {
    assert baselines[..n + 1][..n] == baselines[..n];
  }

  lemma BaselineRowsSnoc(execId: string, entries: seq<CaseEntry>, e: CaseEntry,
                         caseToModule: Dict<string>, moduleToOwner: Dict<string>)
    ensures BaselineRows(execId, entries + [e], caseToModule, moduleToOwner) ==
            BaselineRows(execId, entries, caseToModule, moduleToOwner) +
            [Attributed(execId, e.caseName, None, e.value, caseToModule, moduleToOwner)]
  {
  }

  /** What `_read_results` yields once both files are read: a row for every
      result entry, then a row for every baseline entry whose case has no result. */
  function Reconcile(execId: string, results: seq<CaseEntry>, baselines: seq<CaseEntry>,
                     caseToModule: Dict<string>, moduleToOwner: Dict<string>): seq<DtkRow> {
    ResultRows(execId, results, BaselineLookup(baselines), caseToModule, moduleToOwner) +
    BaselineRows(execId, Unseen(baselines, CasesOf(results)), caseToModule, moduleToOwner)
  }

  /** The first loop of `_read_results`: a row per result entry, in order,
      each with the baseline value looked up for its case; every case emitted
      is recorded as seen. */
  method YieldResultRows(execId: string, results: seq<CaseEntry>, lookup: map<string, Option<string>>,
                         caseToModule: Dict<string>, moduleToOwner: Dict<string>)
    returns (rows: seq<DtkRow>, seen: set<string>)
    ensures rows == ResultRows(execId, results, lookup, caseToModule, moduleToOwner)
    ensures seen == CasesOf(results)
  {
    seen := {};
    rows := [];
    for n := 0 to |results|
      invariant seen == CasesOf(results[..n])
      invariant rows == ResultRows(execId, results[..n], lookup, caseToModule, moduleToOwner)
    {
      ResultRowsSnoc(execId, results, n, lookup, caseToModule, moduleToOwner);
      var caseName := results[n].caseName;
      seen := seen + {caseName};
      var moduleName := ModuleForCase(caseName, caseToModule);
      rows := rows + [DtkRow(execId, caseName, moduleName, OwnerFor(moduleName, moduleToOwner),
                             results[n].value, LookupBaseline(lookup, caseName))];
    }
    SplitJoin(results, |results|);
  }

  /** The second loop of `_read_results`: after the rows already emitted, a
      row per baseline entry whose case was not seen, in order. `seen` is not
      updated here, so repeated baseline-only cases are all emitted. */
  method YieldBaselineOnlyRows(execId: string, head: seq<DtkRow>, baselines: seq<CaseEntry>, seen: set<string>,
                               caseToModule: Dict<string>, moduleToOwner: Dict<string>)
    returns (rows: seq<DtkRow>)
    ensures rows == head + BaselineRows(execId, Unseen(baselines, seen), caseToModule, moduleToOwner)
  {
    rows := head;
    for n := 0 to |baselines|
      invariant rows == head + BaselineRows(execId, Unseen(baselines[..n], seen), caseToModule, moduleToOwner)
    {
      UnseenSnoc(baselines, n, seen);
      var caseName := baselines[n].caseName;
      if caseName in seen {
        assert Unseen(baselines[..n], seen) + [] == Unseen(baselines[..n], seen);
        continue;
      }
      var moduleName := ModuleForCase(caseName, caseToModule);
      ghost var before := Unseen(baselines[..n], seen);
      BaselineRowsSnoc(execId, before, baselines[n], caseToModule, moduleToOwner);
      ghost var tail := BaselineRows(execId, before, caseToModule, moduleToOwner);
      var row := DtkRow(execId, caseName, moduleName, OwnerFor(moduleName, moduleToOwner), None, baselines[n].value);
      assert (head + tail) + [row] == head + (tail + [row]);
      rows := rows + [row];
    }
    SplitJoin(baselines, |baselines|);
  }

  /** `_read_results`: read both files (the first malformed line aborts
      everything before any row is emitted), build the baseline lookup, then
      emit the result rows and the baseline-only rows. */
  method ReadResults(execId: string, resultLines: seq<string>, baselineLines: seq<string>,
                     caseToModule: Dict<string>, moduleToOwner: Dict<string>)
    returns (r: Result<seq<DtkRow>, FormatError>)
    ensures ParseCases(resultLines).Failure? ==> r == Failure(ParseCases(resultLines).error)
    ensures ParseCases(resultLines).Success? && ParseCases(baselineLines).Failure? ==>
              r == Failure(ParseCases(baselineLines).error)
    ensures ParseCases(resultLines).Success? && ParseCases(baselineLines).Success? ==>
              r == Success(Reconcile(execId, ParseCases(resultLines).value, ParseCases(baselineLines).value,
                                     caseToModule, moduleToOwner))
  {
    var results := ReadCases(resultLines);
    if results.Failure? {
      return Failure(results.error);
    }
    var baselines := ReadCases(baselineLines);
    if baselines.Failure? {
      return Failure(baselines.error);
    }
    var lookup := BaselineLookup(baselines.value);
    var rows, seen := YieldResultRows(execId, results.value, lookup, caseToModule, moduleToOwner);
    rows := YieldBaselineOnlyRows(execId, rows, baselines.value, seen, caseToModule, moduleToOwner);
    return Success(rows);
  }

  /** An entry survives the filter exactly when it is a baseline entry whose case was not seen. */
  lemma {:induction false} UnseenMembers(baselines: seq<CaseEntry>, seen: set<string>, e: CaseEntry)
    ensures e in Unseen(baselines, seen) <==> e in baselines && e.caseName !in seen
  {
    if baselines != [] {
      var init := baselines[..|baselines| - 1];
      UnseenMembers(init, seen, e);
      assert baselines == init + [baselines[|baselines| - 1]];
    }
  }

  /** The rows come in two runs: first one row per result entry, in order,
      with the entry's result and the baseline value of its case; then the
      baseline-only rows, which carry no result and only cases without one. */
  lemma ReconcileRows(execId: string, results: seq<CaseEntry>, baselines: seq<CaseEntry>,
                      caseToModule: Dict<string>, moduleToOwner: Dict<string>)
    ensures var rows := Reconcile(execId, results, baselines, caseToModule, moduleToOwner);
            && |rows| == |results| + |Unseen(baselines, CasesOf(results))|
            && (forall i :: 0 <= i < |results| ==>
                  && rows[i].caseName == results[i].caseName
                  && rows[i].result == results[i].value
                  && rows[i].baseline == LookupBaseline(BaselineLookup(baselines), results[i].caseName))
            && (forall i :: |results| <= i < |rows| ==>
                  && rows[i].result == None
                  && rows[i].caseName !in CasesOf(results)
                  && CaseEntry(rows[i].caseName, rows[i].baseline) in baselines)
  {
    var lookup := BaselineLookup(baselines);
    var unseen := Unseen(baselines, CasesOf(results));
    ResultRowsAt(execId, results, lookup, caseToModule, moduleToOwner);
    BaselineRowsAt(execId, unseen, caseToModule, moduleToOwner);
    var head := ResultRows(execId, results, lookup, caseToModule, moduleToOwner);
    var tail := BaselineRows(execId, unseen, caseToModule, moduleToOwner);
    forall i | 0 <= i < |tail|
      ensures tail[i].result == None && tail[i].caseName !in CasesOf(results)
      ensures CaseEntry(tail[i].caseName, tail[i].baseline) in baselines
    {
      UnseenMembers(baselines, CasesOf(results), unseen[i]);
    }
  }

  /** Every row carries the run's id, the module its case resolves to and
      that module's owner. */
  lemma ReconcileAttributed(execId: string, results: seq<CaseEntry>, baselines: seq<CaseEntry>,
                            caseToModule: Dict<string>, moduleToOwner: Dict<string>)
    ensures forall row :: row in Reconcile(execId, results, baselines, caseToModule, moduleToOwner) ==>
              && row.execId == execId
              && row.moduleName == ModuleFor(row.caseName, caseToModule)
              && row.owner == OwnerFor(row.moduleName, moduleToOwner)
  {
    var lookup := BaselineLookup(baselines);
    var unseen := Unseen(baselines, CasesOf(results));
    ResultRowsAt(execId, results, lookup, caseToModule, moduleToOwner);
    BaselineRowsAt(execId, unseen, caseToModule, moduleToOwner);
  }

  /** Every case of either file gets a row. */
  lemma ReconcileCovers(execId: string, results: seq<CaseEntry>, baselines: seq<CaseEntry>,
                        caseToModule: Dict<string>, moduleToOwner: Dict<string>, c: string)
    requires c in CasesOf(results) + CasesOf(baselines)
    ensures exists row :: row in Reconcile(execId, results, baselines, caseToModule, moduleToOwner) && row.caseName == c
  {
    var lookup := BaselineLookup(baselines);
    var unseen := Unseen(baselines, CasesOf(results));
    var head := ResultRows(execId, results, lookup, caseToModule, moduleToOwner);
    var tail := BaselineRows(execId, unseen, caseToModule, moduleToOwner);
    ResultRowsAt(execId, results, lookup, caseToModule, moduleToOwner);
    if c in CasesOf(results) {
      var i :| 0 <= i < |results| && results[i].caseName == c;
      assert head[i] in head + tail;
    } else {
      BaselineRowsAt(execId, unseen, caseToModule, moduleToOwner);
      var e :| e in baselines && e.caseName == c;
      UnseenMembers(baselines, CasesOf(results), e);
      var k :| 0 <= k < |unseen| && unseen[k] == e;
      assert tail[k] in head + tail;
    }
  }

  /** No row has a case that neither file mentions. */
  lemma ReconcileOnly(execId: string, results: seq<CaseEntry>, baselines: seq<CaseEntry>,
                      caseToModule: Dict<string>, moduleToOwner: Dict<string>, row: DtkRow)
    requires row in Reconcile(execId, results, baselines, caseToModule, moduleToOwner)
    ensures row.caseName in CasesOf(results) + CasesOf(baselines)
  {
    var rows := Reconcile(execId, results, baselines, caseToModule, moduleToOwner);
    ReconcileRows(execId, results, baselines, caseToModule, moduleToOwner);
    var i :| 0 <= i < |rows| && rows[i] == row;
    if i < |results| {
      assert results[i] in results;
    } else {
      assert CaseEntry(row.caseName, row.baseline) in baselines;
    }
  }

  /** Every case of either file gets a row, and no other case does. */
  lemma ReconcileCases(execId: string, results: seq<CaseEntry>, baselines: seq<CaseEntry>,
                       caseToModule: Dict<string>, moduleToOwner: Dict<string>)
    ensures (set row | row in Reconcile(execId, results, baselines, caseToModule, moduleToOwner) :: row.caseName)
            == CasesOf(results) + CasesOf(baselines)
  {
    var rows := Reconcile(execId, results, baselines, caseToModule, moduleToOwner);
    forall c | c in CasesOf(results) + CasesOf(baselines)
      ensures c in (set row | row in rows :: row.caseName)
    {
      ReconcileCovers(execId, results, baselines, caseToModule, moduleToOwner, c);
    }
    forall row | row in rows
      ensures row.caseName in CasesOf(results) + CasesOf(baselines)
    {
      ReconcileOnly(execId, results, baselines, caseToModule, moduleToOwner, row);
    }
  }

  /** A small run: `a` has only a result, `b` both, `c` only a baseline. */
  lemma ReconcileExample()
    ensures Reconcile("e", [CaseEntry("a", Some("pass")), CaseEntry("b", Some("fail"))],
                      [CaseEntry("b", Some("pass")), CaseEntry("c", Some("pass"))], [], [])
            == [DtkRow("e", "a", None, None, Some("pass"), None),
                DtkRow("e", "b", None, None, Some("fail"), Some("pass")),
                DtkRow("e", "c", None, None, None, Some("pass"))]
  {
    var results := [CaseEntry("a", Some("pass")), CaseEntry("b", Some("fail"))];
    var baselines := [CaseEntry("b", Some("pass")), CaseEntry("c", Some("pass"))];
    assert results[..1] == [results[0]];
    assert baselines[..1] == [baselines[0]];
    assert CasesOf(results) == {"a", "b"};
    assert BaselineLookup(baselines[..1]) == map["b" := Some("pass")] by {
      assert baselines[..1][..0] == [];
    }
    var lookup := BaselineLookup(baselines);
    assert lookup == map["b" := Some("pass"), "c" := Some("pass")];
    assert ResultRows("e", results[..1], lookup, [], []) == [DtkRow("e", "a", None, None, Some("pass"), None)] by {
      assert results[..1][..0] == [];
    }
    assert ResultRows("e", results, lookup, [], []) ==
           [DtkRow("e", "a", None, None, Some("pass"), None), DtkRow("e", "b", None, None, Some("fail"), Some("pass"))];
    assert Unseen(baselines, {"a", "b"}) == [baselines[1]];
    assert BaselineRows("e", [baselines[1]], [], []) == [DtkRow("e", "c", None, None, None, Some("pass"))];
  }

  /** A case repeated in the results gets a row per occurrence, and so does a
      repeated baseline-only case: rows are not one per distinct case. */
  lemma ReconcileKeepsRepeats()
    ensures |Reconcile("e", [CaseEntry("a", Some("pass")), CaseEntry("a", Some("fail"))],
                       [CaseEntry("b", Some("pass")), CaseEntry("b", Some("fail"))], [], [])| == 4
  {
    var results := [CaseEntry("a", Some("pass")), CaseEntry("a", Some("fail"))];
    var baselines := [CaseEntry("b", Some("pass")), CaseEntry("b", Some("fail"))];
    ReconcileRows("e", results, baselines, [], []);
    assert CasesOf(results) == {"a"};
    assert baselines[..1] == [baselines[0]];
    assert Unseen(baselines[..1], {"a"}) == [baselines[0]] by {
      assert baselines[..1][..0] == [];
    }
    assert |Unseen(baselines, {"a"})| == 2;
  }
}
