/** Dialect detection and row rewriting for ANAC delimited text files
    (src/anac/load_to_bigquery.py): find the header line, sniff the
    delimiter among `;`, `|`, tab and `,`, tokenise the header, derive the
    provenance fields `source_file` and `file_date`, and rewrite every data
    line into the content handed to the bulk loader. */
module AnacLoad {
  import opened Wrappers
  import opened Text

  /** The candidate delimiters, in priority order. */
  const Candidates: seq<char> := [';', '|', '\t', ',']

  /** Why a file is given up: no header line, or no non-blank data line. */
  datatype LoadError = NoHeader | NoDataRows

  /** The outcome of `detect_schema_from_sample`: the header fields and the delimiter. */
  datatype Schema = Schema(headers: seq<string>, delimiter: char)

  /** What `load_file_to_bigquery` hands to the load job. */
  datatype Prepared = Prepared(
    schema: Schema,
    filename: string,
    fileDate: string,
    rows: seq<string>,
    content: string)

  // ---------------------------------------------------------------------
  // Header search

  /** A line that can be the header: `line.strip()` is non-empty and the raw
      line does not start with `#`. */
  predicate IsHeaderLine(line: string) {
    !IsBlank(line) && !("#" <= line)
  }

  /** The index of the first header line at or after `i`. */
  function HeaderIndexFrom(lines: seq<string>, i: nat): (r: Option<nat>)
    requires i <= |lines|
    ensures r.Some? ==> i <= r.value < |lines| && IsHeaderLine(lines[r.value])
                        && forall j :: i <= j < r.value ==> !IsHeaderLine(lines[j])
    ensures r.None? ==> forall j :: i <= j < |lines| ==> !IsHeaderLine(lines[j])
    decreases |lines| - i
  {
    if i == |lines| then None
    else if IsHeaderLine(lines[i]) then Some(i)
    else HeaderIndexFrom(lines, i + 1)
  }

  /** The header line of a file split into lines, if it has one. */
  function HeaderOf(lines: seq<string>): Option<string> {
    match HeaderIndexFrom(lines, 0)
    case None => None
    case Some(k) => Some(lines[k])
  }

  /** The header-search loop: the first line that is neither blank nor a comment. */
  method FindHeader(lines: seq<string>) returns (header: Option<string>)
    ensures header == HeaderOf(lines)
  {
    var i := 0;
    while i < |lines|
      invariant 0 <= i <= |lines|
      invariant HeaderIndexFrom(lines, 0) == HeaderIndexFrom(lines, i)
    {
      var line := lines[i];
      if !IsBlank(line) && !("#" <= line) {
        return Some(line);
      }
      i := i + 1;
    }
    return None;
  }

  // ---------------------------------------------------------------------
  // Field counts

  /** The number of `;` outside double-quoted spans of `s`, reading `s` from
      the quoting state `inQuotes`; every `"` toggles the state. */
  function UnquotedSemicolons(s: string, inQuotes: bool): nat {
    if s == [] then 0
    else if s[0] == '"' then UnquotedSemicolons(s[1..], !inQuotes)
    else if s[0] == ';' && !inQuotes then 1 + UnquotedSemicolons(s[1..], inQuotes)
    else UnquotedSemicolons(s[1..], inQuotes)
  }

  /** Without quotes, every `;` counts. */
  lemma {:induction false} UnquotedSemicolonsWithoutQuotes(s: string)
    requires '"' !in s
    ensures UnquotedSemicolons(s, false) == Occurrences(s, ';')
  {
    if s != [] {
      assert '"' !in s[1..] by { assert forall x :: x in s[1..] ==> x in s; }
      UnquotedSemicolonsWithoutQuotes(s[1..]);
    }
  }

  /** The number of fields the header shows for one candidate delimiter:
      quote-aware for `;`, a plain `split` for the others. */
  function FieldCount(line: string, d: char): (n: nat)
    ensures n >= 1
    ensures d != ';' ==> n == 1 + Occurrences(line, d)
    ensures '"' !in line ==> n == 1 + Occurrences(line, d)
  {
    if d == ';' then
      if '"' !in line then UnquotedSemicolonsWithoutQuotes(line); 1 + UnquotedSemicolons(line, false)
      else 1 + UnquotedSemicolons(line, false)
    else |Split(line, d)|
  }

  /** The quote-aware counting loop for `;`. */
  method QuotedFieldCount(line: string) returns (fieldCount: nat)
    ensures fieldCount == FieldCount(line, ';')
  {
    fieldCount := 0;
    var inQuotes := false;
    for i := 0 to |line|
      invariant fieldCount + UnquotedSemicolons(line[i..], inQuotes) == UnquotedSemicolons(line, false)
    {
      assert line[i..][1..] == line[i + 1..];
      var c := line[i];
      if c == '"' {
        inQuotes := !inQuotes;
      } else if c == ';' && !inQuotes {
        fieldCount := fieldCount + 1;
      }
    }
    fieldCount := fieldCount + 1;
  }

  // ---------------------------------------------------------------------
  // Delimiter sniffing

  /** The index among the first `n` candidates that the sniffing loop keeps:
      it has the highest count, and every earlier candidate has a strictly
      lower one (ties go to the earlier candidate). */
  function BestIndexIn(line: string, n: nat): (k: nat)
    requires 1 <= n <= |Candidates|
    ensures k < n
    ensures forall j :: 0 <= j < n ==> FieldCount(line, Candidates[j]) <= FieldCount(line, Candidates[k])
    ensures forall j :: 0 <= j < k ==> FieldCount(line, Candidates[j]) < FieldCount(line, Candidates[k])
  {
    if n == 1 then 0
    else
      var b := BestIndexIn(line, n - 1);
      if FieldCount(line, Candidates[n - 1]) > FieldCount(line, Candidates[b]) then n - 1 else b
  }

  /** The delimiter chosen for a header line. */
  function BestDelimiter(line: string): (d: char)
    ensures d in Candidates && d != '\n'
  {
    Candidates[BestIndexIn(line, |Candidates|)]
  }

  /** The sniffing loop. `best_delimiter` starts out unset and `max_fields`
      at 0; since every count is at least 1 the first candidate is always
      taken, so a delimiter is always found. */
  method SniffDelimiter(headerLine: string) returns (best: char, maxFields: nat)
    ensures best == BestDelimiter(headerLine)
    ensures maxFields == FieldCount(headerLine, best)
  {
    var bestSoFar: Option<char> := None;
    maxFields := 0;
    for i := 0 to |Candidates|
      invariant i == 0 ==> bestSoFar == None && maxFields == 0
      invariant i > 0 ==> bestSoFar == Some(Candidates[BestIndexIn(headerLine, i)])
                          && maxFields == FieldCount(headerLine, bestSoFar.value)
    {
      var delimiter := Candidates[i];
      var fieldCount: nat;
      if delimiter == ';' {
        fieldCount := QuotedFieldCount(headerLine);
      } else {
        fieldCount := |Split(headerLine, delimiter)|;
      }
      if fieldCount > maxFields {
        maxFields := fieldCount;
        bestSoFar := Some(delimiter);
      }
    }
    best := bestSoFar.value;
  }

  /** A header in which every candidate shows a single field (for one, a
      header with none of the candidate characters) gets `;`. */
  lemma SingleFieldHeaderGetsSemicolon(line: string)
    requires forall j :: 0 <= j < |Candidates| ==> FieldCount(line, Candidates[j]) == 1
    ensures BestDelimiter(line) == ';'
  {
    assert FieldCount(line, Candidates[0]) == 1;
  }

  /** The chosen delimiter is the first candidate with the highest count. */
  lemma BestDelimiterIsFirstMaximum(line: string, k: nat)
    requires k < |Candidates|
    requires forall j :: 0 <= j < |Candidates| ==> FieldCount(line, Candidates[j]) <= FieldCount(line, Candidates[k])
    requires forall j :: 0 <= j < k ==> FieldCount(line, Candidates[j]) < FieldCount(line, Candidates[k])
    ensures BestDelimiter(line) == Candidates[k]
  {
  }

  // ---------------------------------------------------------------------
  // Header tokenising

  /** The raw fields the quote-aware state machine for `;` produces from `s`,
      starting in state `inQuotes` with `cur` the field read so far: a `"`
      toggles the state and is dropped, an unquoted `;` ends a field, every
      other character is kept. */
  function QuotedFieldsFrom(s: string, inQuotes: bool, cur: string): (r: seq<string>)
    ensures |r| == 1 + UnquotedSemicolons(s, inQuotes)
    ensures '"' !in cur ==> forall k :: 0 <= k < |r| ==> '"' !in r[k]
  {
    if s == [] then [cur]
    else if s[0] == '"' then QuotedFieldsFrom(s[1..], !inQuotes, cur)
    else if s[0] == ';' && !inQuotes then [cur] + QuotedFieldsFrom(s[1..], inQuotes, [])
    else QuotedFieldsFrom(s[1..], inQuotes, cur + [s[0]])
  }

  /** The fields hold only characters of `cur` and `s`. */
  lemma {:induction false} QuotedFieldsAvoid(s: string, inQuotes: bool, cur: string, x: char)
    requires x !in s && x !in cur
    ensures forall k :: 0 <= k < |QuotedFieldsFrom(s, inQuotes, cur)| ==> x !in QuotedFieldsFrom(s, inQuotes, cur)[k]
  {
    if s != [] {
      assert x !in s[1..] by { assert forall y :: y in s[1..] ==> y in s; }
      if s[0] == '"' {
        QuotedFieldsAvoid(s[1..], !inQuotes, cur, x);
      } else if s[0] == ';' && !inQuotes {
        QuotedFieldsAvoid(s[1..], inQuotes, [], x);
      } else {
        QuotedFieldsAvoid(s[1..], inQuotes, cur + [s[0]], x);
      }
    }
  }

  function QuotedFields(line: string): seq<string> {
    QuotedFieldsFrom(line, false, [])
  }

  /** On a line without quotes the state machine splits like `split(';')`. */
  lemma {:induction false} QuotedFieldsWithoutQuotes(s: string, cur: string)
    requires '"' !in s
    ensures QuotedFieldsFrom(s, false, cur) == SplitFrom(s, ';', cur)
  {
    if s != [] {
      assert '"' !in s[1..] by { assert forall x :: x in s[1..] ==> x in s; }
      if s[0] == ';' {
        QuotedFieldsWithoutQuotes(s[1..], []);
      } else {
        QuotedFieldsWithoutQuotes(s[1..], cur + [s[0]]);
      }
    }
  }

  /** `[f.strip() for f in xs]` */
  function StripAll(xs: seq<string>): (r: seq<string>)
    ensures |r| == |xs|
    ensures forall k :: 0 <= k < |xs| ==> r[k] == Strip(xs[k])
  {
    if xs == [] then [] else [Strip(xs[0])] + StripAll(xs[1..])
  }

  lemma StripAllAppend(xs: seq<string>, x: string)
    ensures StripAll(xs + [x]) == StripAll(xs) + [Strip(x)]
  {
    var a, b := StripAll(xs + [x]), StripAll(xs) + [Strip(x)];
    assert |a| == |b|;
    forall k | 0 <= k < |a| ensures a[k] == b[k] {
      if k < |xs| { assert (xs + [x])[k] == xs[k]; }
    }
  }

  /** Fields that are already stripped are left as they are. */
  lemma StripAllStripped(xs: seq<string>)
    requires forall k :: 0 <= k < |xs| ==> IsStripped(xs[k])
    ensures StripAll(xs) == xs
  {
    forall k | 0 <= k < |xs| ensures StripAll(xs)[k] == xs[k] {
      StripStripped(xs[k]);
    }
  }

  lemma StripAllAvoids(raw: seq<string>, x: char)
    requires forall k :: 0 <= k < |raw| ==> x !in raw[k]
    ensures forall k :: 0 <= k < |StripAll(raw)| ==> x !in StripAll(raw)[k]
  {
    forall k | 0 <= k < |raw| ensures x !in Strip(raw[k]) {
      StripAvoids(raw[k], x);
    }
  }

  /** The header fields for the chosen delimiter. */
  function HeaderFields(line: string, d: char): seq<string> {
    if d == ';' then StripAll(QuotedFields(line)) else StripAll(Split(line, d))
  }

  /** The header-tokenising step: the quote-aware loop for `;`, a
      split-and-strip comprehension for the other delimiters. */
  method TokenizeHeader(headerLine: string, delimiter: char) returns (headers: seq<string>)
    ensures headers == HeaderFields(headerLine, delimiter)
  {
    if delimiter == ';' {
      headers := [];
      var current := "";
      var inQuotes := false;
      ghost var done: seq<string> := [];
      for i := 0 to |headerLine|
        invariant done + QuotedFieldsFrom(headerLine[i..], inQuotes, current) == QuotedFields(headerLine)
        invariant headers == StripAll(done)
      {
        assert headerLine[i..][1..] == headerLine[i + 1..];
        var c := headerLine[i];
        if c == '"' {
          inQuotes := !inQuotes;
        } else if c == ';' && !inQuotes {
          StripAllAppend(done, current);
          headers := headers + [Strip(current)];
          done := done + [current];
          current := "";
        } else {
          current := current + [c];
        }
      }
      StripAllAppend(done, current);
      headers := headers + [Strip(current)];
    } else {
      headers := StripAll(Split(headerLine, delimiter));
    }
  }

  /** There are as many header fields as the sniffing step counted. */
  lemma HeaderFieldCount(line: string, d: char)
    ensures |HeaderFields(line, d)| == FieldCount(line, d)
  {
  }

  /** With `;`, every header field is stripped and free of `"`; with any
      other delimiter, every field is stripped and free of the delimiter. */
  lemma HeaderFieldsClean(line: string, d: char)
    ensures forall k :: 0 <= k < |HeaderFields(line, d)| ==> IsStripped(HeaderFields(line, d)[k])
    ensures d == ';' ==> forall k :: 0 <= k < |HeaderFields(line, d)| ==> '"' !in HeaderFields(line, d)[k]
    ensures d != ';' ==> forall k :: 0 <= k < |HeaderFields(line, d)| ==> d !in HeaderFields(line, d)[k]
  {
    if d == ';' {
      StripAllClean(QuotedFields(line), '"');
    } else {
      StripAllClean(Split(line, d), d);
    }
  }

  lemma StripAllClean(raw: seq<string>, x: char)
    requires forall k :: 0 <= k < |raw| ==> x !in raw[k]
    ensures forall k :: 0 <= k < |StripAll(raw)| ==> IsStripped(StripAll(raw)[k]) && x !in StripAll(raw)[k]
  {
    StripAllAvoids(raw, x);
  }

  /** The fields of a header never hold a line break the header line did not. */
  lemma HeaderFieldsAvoid(line: string, d: char, x: char)
    requires x !in line
    ensures forall k :: 0 <= k < |HeaderFields(line, d)| ==> x !in HeaderFields(line, d)[k]
  {
    if d == ';' {
      QuotedFieldsAvoid(line, false, [], x);
      StripAllAvoids(QuotedFields(line), x);
    } else {
      SplitFromAvoids(line, d, [], x);
      StripAllAvoids(Split(line, d), x);
    }
  }

  /** Text free of quotes, and outside quotes free of `;`, only extends
      the field being read. */
  lemma {:induction false} QuotedFieldsFromAppend(a: string, t: string, inQuotes: bool, cur: string)
    requires '"' !in a && (inQuotes || ';' !in a)
    ensures QuotedFieldsFrom(a + t, inQuotes, cur) == QuotedFieldsFrom(t, inQuotes, cur + a)
  {
    if a == [] {
      assert a + t == t && cur + a == cur;
    } else {
      assert (a + t)[0] == a[0] && (a + t)[1..] == a[1..] + t;
      assert forall y :: y in a[1..] ==> y in a;
      QuotedFieldsFromAppend(a[1..], t, inQuotes, cur + [a[0]]);
      assert cur + [a[0]] + a[1..] == cur + a;
    }
  }

  lemma QuotedFieldsQuoteStep(t: string, inQuotes: bool, cur: string)
    ensures QuotedFieldsFrom(['"'] + t, inQuotes, cur) == QuotedFieldsFrom(t, !inQuotes, cur)
  {
    assert (['"'] + t)[1..] == t;
  }

  lemma QuotedFieldsSemicolonStep(t: string, cur: string)
    ensures QuotedFieldsFrom([';'] + t, false, cur) == [cur] + QuotedFieldsFrom(t, false, [])
  {
    assert ([';'] + t)[1..] == t;
  }

  /** A `;` between quotes stays inside its field: `x;"y";z` has the three
      fields `x`, `y` and `z` even when `y` holds a `;`. */
  lemma QuotedSemicolonKept(x: string, y: string, z: string)
    requires '"' !in x && '"' !in y && '"' !in z && ';' !in x && ';' !in z
    ensures QuotedFields(x + ";\"" + y + "\";" + z) == [x, y, z]
  {
    var t2 := [';'] + z;
    var t1 := ['"'] + (y + (['"'] + t2));
    assert x + ";\"" + y + "\";" + z == x + ([';'] + t1);
    calc {
      QuotedFieldsFrom(x + ([';'] + t1), false, []);
      { QuotedFieldsFromAppend(x, [';'] + t1, false, []); assert [] + x == x; }
      QuotedFieldsFrom([';'] + t1, false, x);
      { QuotedFieldsSemicolonStep(t1, x); }
      [x] + QuotedFieldsFrom(t1, false, []);
      { QuotedFieldsQuoteStep(y + (['"'] + t2), false, []); }
      [x] + QuotedFieldsFrom(y + (['"'] + t2), true, []);
      { QuotedFieldsFromAppend(y, ['"'] + t2, true, []); assert [] + y == y; }
      [x] + QuotedFieldsFrom(['"'] + t2, true, y);
      { QuotedFieldsQuoteStep(t2, true, y); }
      [x] + QuotedFieldsFrom(t2, false, y);
      { QuotedFieldsSemicolonStep(z, y); }
      [x] + ([y] + QuotedFieldsFrom(z, false, []));
      { QuotedFieldsFromAppend(z, [], false, []); assert z + [] == z && [] + z == z; }
      [x] + ([y] + [z]);
    }
  }

  /** A header with none of `|`, tab and `,` is read with `;`. */
  lemma SemicolonWinsAlone(line: string)
    requires '|' !in line && '\t' !in line && ',' !in line
    ensures BestDelimiter(line) == ';'
  {
    assert FieldCount(line, Candidates[1]) == 1;
    assert FieldCount(line, Candidates[2]) == 1;
    assert FieldCount(line, Candidates[3]) == 1;
    assert FieldCount(line, Candidates[0]) >= 1;
  }

  /** A header `x;"y";z` with stripped `x`, `y`, `z` and no other candidate
      character is read with `;` into the fields `x`, `y` and `z`. */
  lemma QuotedHeader(x: string, y: string, z: string)
    requires '"' !in x && '"' !in y && '"' !in z && ';' !in x && ';' !in z
    requires forall c :: c in x + y + z ==> c != '|' && c != '\t' && c != ','
    requires IsStripped(x) && IsStripped(y) && IsStripped(z)
    ensures var line := x + ";\"" + y + "\";" + z;
            FieldCount(line, ';') == 3 && BestDelimiter(line) == ';' && HeaderFields(line, ';') == [x, y, z]
  {
    var line := x + ";\"" + y + "\";" + z;
    QuotedSemicolonKept(x, y, z);
    assert forall c :: c in line ==> c in x + y + z || c == ';' || c == '"';
    SemicolonWinsAlone(line);
    var fields := [x, y, z];
    assert IsStripped(fields[0]) && IsStripped(fields[1]) && IsStripped(fields[2]);
    StripAllStripped(fields);
  }

  // ---------------------------------------------------------------------
  // Provenance fields

  /** `filename.replace('.txt', '').replace('basica', '')` */
  function FileDate(filename: string): string {
    RemoveAll(RemoveAll(filename, ".txt"), "basica")
  }

  /** The archive members are named `basica<date>.txt`; their `file_date` is `<date>`. */
  lemma FileDateOfArchiveName(date: string)
    requires '.' !in date && 'b' !in date
    ensures FileDate("basica" + date + ".txt") == date
  {
    var stem := "basica" + date;
    assert '.' !in stem;
    RemoveAllKeeps(stem, ".txt", ".txt");
    RemoveAllFront([], ".txt");
    assert stem + ".txt" == "basica" + date + ".txt";
    assert RemoveAll("basica" + date + ".txt", ".txt") == stem;
    RemoveAllFront(date, "basica");
    RemoveAllKeeps(date, [], "basica");
    assert date + [] == date;
  }

  // ---------------------------------------------------------------------
  // Row rewriting

  /** `lines[1:]` */
  function DataLines(lines: seq<string>): seq<string> {
    if lines == [] then [] else lines[1..]
  }

  /** The non-blank lines, in order. */
  function NonBlankLines(ls: seq<string>): (r: seq<string>)
    ensures |r| <= |ls|
  {
    if ls == [] then []
    else (if IsBlank(ls[0]) then [] else [ls[0]]) + NonBlankLines(ls[1..])
  }

  /** Exactly the non-blank lines are kept. */
  lemma {:induction false} NonBlankLinesMembers(ls: seq<string>)
    ensures forall l :: l in NonBlankLines(ls) <==> l in ls && !IsBlank(l)
  {
    if ls != [] {
      NonBlankLinesMembers(ls[1..]);
      assert ls == [ls[0]] + ls[1..];
    }
  }

  /** A data line stripped, with every `"` turned into `'`. */
  function CleanLine(line: string): string {
    ReplaceChar(Strip(line), '"', '\'')
  }

  /** One rewritten row: the provenance fields, then the cleaned line. */
  function EnhancedRow(filename: string, fileDate: string, d: char, line: string): string {
    filename + [d] + fileDate + [d] + CleanLine(line)
  }

  /** The rows of the rewritten file: one per non-blank line of `ls`, in order. */
  function EnhancedRows(ls: seq<string>, filename: string, fileDate: string, d: char): (r: seq<string>)
    ensures |r| == |NonBlankLines(ls)|
  {
    if ls == [] then []
    else
      (if IsBlank(ls[0]) then [] else [EnhancedRow(filename, fileDate, d, ls[0])])
      + EnhancedRows(ls[1..], filename, fileDate, d)
  }

  /** Row `k` is the rewrite of the `k`-th non-blank line. */
  lemma {:induction false} EnhancedRowsAt(ls: seq<string>, filename: string, fileDate: string, d: char)
    ensures forall k :: 0 <= k < |EnhancedRows(ls, filename, fileDate, d)| ==>
              EnhancedRows(ls, filename, fileDate, d)[k] == EnhancedRow(filename, fileDate, d, NonBlankLines(ls)[k])
  {
    if ls != [] {
      EnhancedRowsAt(ls[1..], filename, fileDate, d);
    }
  }

  /** The row-rewriting loop over `lines[1:]`. */
  method EnhanceRows(lines: seq<string>, filename: string, fileDate: string, delimiter: char)
    returns (rows: seq<string>)
    ensures rows == EnhancedRows(DataLines(lines), filename, fileDate, delimiter)
  {
    var data := DataLines(lines);
    rows := [];
    assert data[0..] == data;
    for i := 0 to |data|
      invariant rows + EnhancedRows(data[i..], filename, fileDate, delimiter)
                == EnhancedRows(data, filename, fileDate, delimiter)
    {
      var line := data[i];
      EnhancedRowsStep(data, i, filename, fileDate, delimiter);
      if Strip(line) != [] {
        var cleaned := Strip(line);
        if '"' in cleaned {
          cleaned := ReplaceChar(cleaned, '"', '\'');
        } else {
          ReplaceCharAbsent(cleaned, '"', '\'');
        }
        var row := filename + [delimiter] + fileDate + [delimiter] + cleaned;
        assert row == EnhancedRow(filename, fileDate, delimiter, line);
        ghost var rest := EnhancedRows(data[i + 1..], filename, fileDate, delimiter);
        assert rows + ([row] + rest) == (rows + [row]) + rest;
        rows := rows + [row];
      } else {
        assert [] + EnhancedRows(data[i + 1..], filename, fileDate, delimiter)
               == EnhancedRows(data[i + 1..], filename, fileDate, delimiter);
      }
    }
  }

  lemma EnhancedRowsStep(data: seq<string>, i: nat, filename: string, fileDate: string, d: char)
    requires i < |data|
    ensures EnhancedRows(data[i..], filename, fileDate, d)
            == (if IsBlank(data[i]) then [] else [EnhancedRow(filename, fileDate, d, data[i])])
               + EnhancedRows(data[i + 1..], filename, fileDate, d)
  {
    assert data[i..][0] == data[i];
    assert data[i..][1..] == data[i + 1..];
  }

  lemma ReplaceCharAbsent(s: string, a: char, b: char)
    requires a !in s
    ensures ReplaceChar(s, a, b) == s
  {
    assert forall k :: 0 <= k < |s| ==> s[k] != a by {
      forall k | 0 <= k < |s| ensures s[k] != a { assert s[k] in s; }
    }
  }

  /** A rewritten row starts with the file name and the file date, each
      followed by the delimiter; the rest is the stripped line, of the same
      length, with no `"` left. */
  lemma EnhancedRowShape(filename: string, fileDate: string, d: char, line: string)
    ensures filename + [d] + fileDate + [d] <= EnhancedRow(filename, fileDate, d, line)
    ensures |EnhancedRow(filename, fileDate, d, line)| == |filename| + |fileDate| + 2 + |Strip(line)|
    ensures '"' !in CleanLine(line)
  {
    var c := CleanLine(line);
    assert forall k :: 0 <= k < |c| ==> c[k] != '"';
  }

  /** Cleaning leaves every other character where it was, so the delimiter
      occurs in the cleaned line exactly as often as in the stripped line. */
  lemma {:induction false} ReplaceCharKeepsOccurrences(s: string, a: char, b: char, d: char)
    requires d != a && d != b
    ensures Occurrences(ReplaceChar(s, a, b), d) == Occurrences(s, d)
  {
    if s != [] {
      ReplaceCharKeepsOccurrences(s[1..], a, b, d);
      assert ReplaceChar(s, a, b)[1..] == ReplaceChar(s[1..], a, b);
    }
  }

  /** With a plain delimiter absent from the provenance values, a rewritten
      row splits into the file name, the file date and the fields of the
      stripped line: exactly two fields more than the line had. */
  lemma EnhancedRowFields(filename: string, fileDate: string, d: char, line: string)
    requires d in Candidates[1..]
    requires d !in filename && d !in fileDate
    ensures Split(EnhancedRow(filename, fileDate, d, line), d)
            == [filename, fileDate] + Split(CleanLine(line), d)
    ensures |Split(EnhancedRow(filename, fileDate, d, line), d)| == 2 + |Split(Strip(line), d)|
  {
    var c := CleanLine(line);
    assert filename + [d] + fileDate + [d] + c == filename + [d] + (fileDate + [d] + c);
    SplitAt(filename, fileDate + [d] + c, d);
    SplitAt(fileDate, c, d);
    ReplaceCharKeepsOccurrences(Strip(line), '"', '\'', d);
  }

  // ---------------------------------------------------------------------
  // Output assembly

  /** `d.join(["source_file", "file_date"] + headers)` */
  function OutputHeader(headers: seq<string>, d: char): string {
    Join(d, ["source_file", "file_date"] + headers)
  }

  /** The content given to the load job: the header line, `\n`, and the rows joined by `\n`. */
  function OutputContent(headers: seq<string>, rows: seq<string>, d: char): string {
    OutputHeader(headers, d) + "\n" + Join('\n', rows)
  }

  /** Header fields free of the delimiter come back, after the two
      provenance fields, when the output header is split again. */
  lemma OutputHeaderFields(headers: seq<string>, d: char)
    requires d in Candidates
    requires forall k :: 0 <= k < |headers| ==> d !in headers[k]
    ensures Split(OutputHeader(headers, d), d) == ["source_file", "file_date"] + headers
    ensures |Split(OutputHeader(headers, d), d)| == |headers| + 2
  {
    var all := ["source_file", "file_date"] + headers;
    forall k | 0 <= k < |all| ensures d !in all[k] {
      if k >= 2 { assert all[k] == headers[k - 2]; }
    }
    SplitJoin(all, d);
  }

  /** The output header is written with the delimiter and no quoting, so
      a quoted header field holding a `;` (`x;"y1;y2";z`) comes back as
      two fields: the header splits into one more field than the columns
      plus the two provenance fields. The load job skips this header row,
      so the rows themselves are not affected. */
  lemma QuotedHeaderWidensOutput(x: string, y1: string, y2: string, z: string)
    requires '"' !in x && '"' !in y1 && '"' !in y2 && '"' !in z
    requires ';' !in x && ';' !in y1 && ';' !in y2 && ';' !in z
    requires forall c :: c in x + y1 + y2 + z ==> c != '|' && c != '\t' && c != ','
    requires IsStripped(x) && IsStripped(y1 + ";" + y2) && IsStripped(z)
    ensures var line := x + ";\"" + (y1 + ";" + y2) + "\";" + z;
            && BestDelimiter(line) == ';'
            && HeaderFields(line, ';') == [x, y1 + ";" + y2, z]
            && Split(OutputHeader(HeaderFields(line, ';'), ';'), ';')
               == ["source_file", "file_date", x, y1, y2, z]
            && |Split(OutputHeader(HeaderFields(line, ';'), ';'), ';')| == |HeaderFields(line, ';')| + 3
  {
    var y := y1 + ";" + y2;
    assert '"' !in y;
    assert forall c :: c in x + y + z ==> c != '|' && c != '\t' && c != ',' by {
      forall c | c in x + y + z ensures c != '|' && c != '\t' && c != ',' {
        assert c in x + y1 + y2 + z || c == ';';
      }
    }
    QuotedHeader(x, y, z);
    var sf, fd := "source_file", "file_date";
    ProvenanceNamesAvoid(';');
    assert [sf, fd] + [x, y, z] == [sf, fd, x, y, z];
    JoinedFieldSplits(';', sf, fd, x, y1, y2, z);
  }

  lemma ProvenanceNamesAvoid(d: char)
    requires d in Candidates
    ensures d !in "source_file" && d !in "file_date"
  {
  }

  /** Joining five pieces, the fourth holding one separator, and splitting
      again gives six pieces. */
  lemma JoinedFieldSplits(d: char, a: string, b: string, x: string, y1: string, y2: string, z: string)
    requires d !in a && d !in b && d !in x && d !in y1 && d !in y2 && d !in z
    ensures Split(Join(d, [a, b, x, y1 + [d] + y2, z]), d) == [a, b, x, y1, y2, z]
  {
    var y := y1 + [d] + y2;
    JoinCons(d, y, [z]);
    JoinCons(d, y2, [z]);
    JoinCons(d, y1, [y2, z]);
    assert Join(d, [y, z]) == Join(d, [y1, y2, z]);
    JoinCons(d, x, [y, z]);
    JoinCons(d, x, [y1, y2, z]);
    JoinCons(d, b, [x, y, z]);
    JoinCons(d, b, [x, y1, y2, z]);
    JoinCons(d, a, [b, x, y, z]);
    JoinCons(d, a, [b, x, y1, y2, z]);
    assert [a, b, x, y, z] == [a] + ([b] + ([x] + [y, z]));
    assert [a, b, x, y1, y2, z] == [a] + ([b] + ([x] + [y1, y2, z]));
    SplitJoin([a, b, x, y1, y2, z], d);
  }

  /** `sep.join([a] + xs)` for a non-empty `xs`. */
  lemma JoinCons(sep: char, a: string, xs: seq<string>)
    requires |xs| > 0
    ensures Join(sep, [a] + xs) == a + [sep] + Join(sep, xs)
  {
    assert ([a] + xs)[1..] == xs;
  }

  /** Split at line breaks, the content is the output header followed by the rows. */
  lemma OutputContentLines(headers: seq<string>, rows: seq<string>, d: char)
    requires d != '\n' && |rows| > 0
    requires forall k :: 0 <= k < |headers| ==> '\n' !in headers[k]
    requires forall k :: 0 <= k < |rows| ==> '\n' !in rows[k]
    ensures Split(OutputContent(headers, rows, d), '\n') == [OutputHeader(headers, d)] + rows
  {
    var all := ["source_file", "file_date"] + headers;
    forall k | 0 <= k < |all| ensures '\n' !in all[k] {
      if k >= 2 { assert all[k] == headers[k - 2]; }
    }
    JoinAvoids(d, all, '\n');
    SplitAt(OutputHeader(headers, d), Join('\n', rows), '\n');
    SplitJoin(rows, '\n');
  }

  // ---------------------------------------------------------------------
  // The two entry points

  /** The dialect of a file's content: `None` of the source becomes `NoHeader`. */
  function SchemaOf(content: string): Result<Schema, LoadError> {
    match HeaderOf(Split(content, '\n'))
    case None => Failure(NoHeader)
    case Some(h) => Success(Schema(HeaderFields(h, BestDelimiter(h)), BestDelimiter(h)))
  }

  /** The rewrite of the lines of a file at `filePath` once its schema is known. */
  function Assemble(schema: Schema, lines: seq<string>, filePath: string): Result<Prepared, LoadError> {
    var filename := Basename(filePath);
    var fileDate := FileDate(filename);
    var rows := EnhancedRows(DataLines(lines), filename, fileDate, schema.delimiter);
    if rows == [] then Failure(NoDataRows)
    else Success(Prepared(schema, filename, fileDate, rows, OutputContent(schema.headers, rows, schema.delimiter)))
  }

  /** The rewritten file for the path `filePath`, or why it is given up. */
  function PreparedOf(content: string, filePath: string): Result<Prepared, LoadError> {
    match SchemaOf(content)
    case Failure(e) => Failure(e)
    case Success(schema) => Assemble(schema, Split(content, '\n'), filePath)
  }

  /** Lines 69-126 of `detect_schema_from_sample` on the decoded content. */
  method DetectSchema(content: string) returns (r: Result<Schema, LoadError>)
    ensures r == SchemaOf(content)
  {
    var lines := Split(content, '\n');
    var header := FindHeader(lines);
    if header.None? {
      return Failure(NoHeader);
    }
    var headerLine := header.value;
    var delimiter, _ := SniffDelimiter(headerLine);
    var headers := TokenizeHeader(headerLine, delimiter);
    return Success(Schema(headers, delimiter));
  }

  /** Lines 192-274 of `load_file_to_bigquery` on the decoded content. */
  method PrepareLoad(content: string, filePath: string) returns (r: Result<Prepared, LoadError>)
    ensures r == PreparedOf(content, filePath)
  {
    var schema :- DetectSchema(content);
    var lines := Split(content, '\n');
    var filename := Basename(filePath);
    var fileDate := FileDate(filename);
    var rows := EnhanceRows(lines, filename, fileDate, schema.delimiter);
    if rows == [] {
      return Failure(NoDataRows);
    }
    var enhancedHeaders := ["source_file", "file_date"] + schema.headers;
    var enhancedContent := Join(schema.delimiter, enhancedHeaders) + "\n" + Join('\n', rows);
    return Success(Prepared(schema, filename, fileDate, rows, enhancedContent));
  }

  // ---------------------------------------------------------------------
  // Properties of the whole rewrite

  /** A file is given up for want of a header exactly when no line is
      non-blank and free of a leading `#`; for want of rows exactly when it
      has a header but `lines[1:]` holds no non-blank line. */
  lemma PreparedFailures(content: string, filePath: string)
    ensures PreparedOf(content, filePath) == Failure(NoHeader)
            <==> forall j :: 0 <= j < |Split(content, '\n')| ==> !IsHeaderLine(Split(content, '\n')[j])
    ensures PreparedOf(content, filePath) == Failure(NoDataRows)
            <==> SchemaOf(content).Success?
                 && forall j :: 0 <= j < |DataLines(Split(content, '\n'))| ==> IsBlank(DataLines(Split(content, '\n'))[j])
  {
    var lines := Split(content, '\n');
    var data := DataLines(lines);
    NonBlankLinesEmpty(data);
    if HeaderIndexFrom(lines, 0).Some? {
      var k := HeaderIndexFrom(lines, 0).value;
      assert IsHeaderLine(lines[k]);
    }
  }

  /** No line survives exactly when all of them are blank. */
  lemma {:induction false} NonBlankLinesEmpty(ls: seq<string>)
    ensures NonBlankLines(ls) == [] <==> forall j :: 0 <= j < |ls| ==> IsBlank(ls[j])
  {
    if ls != [] {
      NonBlankLinesEmpty(ls[1..]);
      assert forall j :: 1 <= j < |ls| ==> ls[j] == ls[1..][j - 1];
    }
  }

  /** The kept lines avoid whatever all the lines avoid. */
  lemma {:induction false} NonBlankLinesAvoid(ls: seq<string>, x: char)
    requires forall j :: 0 <= j < |ls| ==> x !in ls[j]
    ensures forall j :: 0 <= j < |NonBlankLines(ls)| ==> x !in NonBlankLines(ls)[j]
  {
    if ls != [] {
      assert forall j :: 0 <= j < |ls[1..]| ==> ls[1..][j] == ls[j + 1];
      NonBlankLinesAvoid(ls[1..], x);
    }
  }

  /** What a successful rewrite hands to the loader: as many rows as
      `lines[1:]` has non-blank lines, each the rewritten line, and content
      that splits at line breaks into the output header and those rows. */
  lemma PreparedShape(content: string, filePath: string)
    requires '\n' !in filePath
    requires PreparedOf(content, filePath).Success?
    ensures var p := PreparedOf(content, filePath).value;
            var data := NonBlankLines(DataLines(Split(content, '\n')));
            && p.filename == Basename(filePath)
            && p.fileDate == FileDate(p.filename)
            && |p.rows| == |data| > 0
            && (forall k :: 0 <= k < |p.rows| ==>
                  p.rows[k] == EnhancedRow(p.filename, p.fileDate, p.schema.delimiter, data[k]))
            && Split(p.content, '\n') == [OutputHeader(p.schema.headers, p.schema.delimiter)] + p.rows
  {
    var lines := Split(content, '\n');
    var h := HeaderOf(lines).value;
    HeaderFieldsAvoid(h, BestDelimiter(h), '\n');
    AssembleRows(SchemaOf(content).value, lines, filePath);
    AssembleContentLines(SchemaOf(content).value, lines, filePath);
  }

  /** The rows of a successful rewrite are the rewrites of the non-blank data lines. */
  lemma AssembleRows(schema: Schema, lines: seq<string>, filePath: string)
    requires Assemble(schema, lines, filePath).Success?
    ensures var p := Assemble(schema, lines, filePath).value;
            var data := NonBlankLines(DataLines(lines));
            && p.schema == schema
            && p.filename == Basename(filePath)
            && p.fileDate == FileDate(p.filename)
            && |p.rows| == |data| > 0
            && (forall k :: 0 <= k < |p.rows| ==>
                  p.rows[k] == EnhancedRow(p.filename, p.fileDate, p.schema.delimiter, data[k]))
  {
    var p := Assemble(schema, lines, filePath).value;
    EnhancedRowsAt(DataLines(lines), p.filename, p.fileDate, schema.delimiter);
  }

  /** The content of a successful rewrite splits at line breaks into the
      output header and the rows, when no input line holds a line break. */
  lemma AssembleContentLines(schema: Schema, lines: seq<string>, filePath: string)
    requires '\n' !in filePath && schema.delimiter != '\n'
    requires forall j :: 0 <= j < |lines| ==> '\n' !in lines[j]
    requires forall j :: 0 <= j < |schema.headers| ==> '\n' !in schema.headers[j]
    requires Assemble(schema, lines, filePath).Success?
    ensures var p := Assemble(schema, lines, filePath).value;
            Split(p.content, '\n') == [OutputHeader(p.schema.headers, p.schema.delimiter)] + p.rows
  {
    var p := Assemble(schema, lines, filePath).value;
    AssembleRows(schema, lines, filePath);
    var dl := DataLines(lines);
    DataLinesAvoid(lines, '\n');
    NonBlankLinesAvoid(dl, '\n');
    FileDateAvoids(p.filename, '\n');
    RowsAvoidLineBreak(NonBlankLines(dl), p.rows, p.filename, p.fileDate, schema.delimiter);
    OutputContentLines(schema.headers, p.rows, schema.delimiter);
  }

  lemma DataLinesAvoid(lines: seq<string>, x: char)
    requires forall j :: 0 <= j < |lines| ==> x !in lines[j]
    ensures forall j :: 0 <= j < |DataLines(lines)| ==> x !in DataLines(lines)[j]
  {
    if lines != [] {
      var dl := lines[1..];
      forall j | 0 <= j < |dl| ensures x !in dl[j] {
        assert dl[j] == lines[j + 1];
      }
    }
  }

  lemma RowsAvoidLineBreak(data: seq<string>, rows: seq<string>, filename: string, fileDate: string, d: char)
    requires d != '\n' && '\n' !in filename && '\n' !in fileDate && |rows| == |data|
    requires forall j :: 0 <= j < |data| ==> '\n' !in data[j]
    requires forall j :: 0 <= j < |rows| ==> rows[j] == EnhancedRow(filename, fileDate, d, data[j])
    ensures forall j :: 0 <= j < |rows| ==> '\n' !in rows[j]
  {
    forall j | 0 <= j < |rows| ensures '\n' !in rows[j] {
      CleanLineAvoids(data[j], '\n');
    }
  }

  lemma FileDateAvoids(filename: string, x: char)
    requires x !in filename
    ensures x !in FileDate(filename)
  {
    RemoveAllAvoids(filename, ".txt", x);
    RemoveAllAvoids(RemoveAll(filename, ".txt"), "basica", x);
  }

  lemma {:induction false} RemoveAllAvoids(s: string, pat: string, x: char)
    requires |pat| > 0 && x !in s
    ensures x !in RemoveAll(s, pat)
    decreases |s|
  {
    if s != [] {
      if pat <= s {
        assert forall y :: y in s[|pat|..] ==> y in s;
        RemoveAllAvoids(s[|pat|..], pat, x);
      } else {
        assert forall y :: y in s[1..] ==> y in s;
        RemoveAllAvoids(s[1..], pat, x);
      }
    }
  }

  lemma CleanLineAvoids(line: string, x: char)
    requires x !in line && x != '\''
    ensures x !in CleanLine(line)
  {
    var c := CleanLine(line);
    var s := Strip(line);
    StripAvoids(line, x);
    forall k | 0 <= k < |c| ensures c[k] != x {
      assert s[k] in s;
    }
  }

  /** Rows are taken from `lines[1:]` wherever the header was found: a
      header found after the first line is rewritten as a data row too, so
      such a file always has rows. */
  lemma LateHeaderBecomesRow(content: string, filePath: string)
    requires HeaderIndexFrom(Split(content, '\n'), 0).Some?
    requires HeaderIndexFrom(Split(content, '\n'), 0).value >= 1
    ensures PreparedOf(content, filePath).Success?
    ensures var p := PreparedOf(content, filePath).value;
            var h := HeaderOf(Split(content, '\n')).value;
            EnhancedRow(p.filename, p.fileDate, p.schema.delimiter, h) in p.rows
  {
    var lines := Split(content, '\n');
    var k := HeaderIndexFrom(lines, 0).value;
    var h := lines[k];
    var schema := SchemaOf(content).value;
    AssembleRowFor(schema, lines, filePath, k);
  }

  lemma AssembleRowFor(schema: Schema, lines: seq<string>, filePath: string, k: nat)
    requires 1 <= k < |lines| && !IsBlank(lines[k])
    ensures Assemble(schema, lines, filePath).Success?
    ensures var p := Assemble(schema, lines, filePath).value;
            EnhancedRow(p.filename, p.fileDate, schema.delimiter, lines[k]) in p.rows
  {
    var filename := Basename(filePath);
    var fileDate := FileDate(filename);
    var dl := DataLines(lines);
    assert dl[k - 1] == lines[k];
    assert lines[k] in dl;
    NonBlankLinesMembers(dl);
    var nb := NonBlankLines(dl);
    assert lines[k] in nb;
    var j :| 0 <= j < |nb| && nb[j] == lines[k];
    EnhancedRowsAt(dl, filename, fileDate, schema.delimiter);
    var rows := EnhancedRows(dl, filename, fileDate, schema.delimiter);
    assert rows[j] == EnhancedRow(filename, fileDate, schema.delimiter, lines[k]);
  }
}
