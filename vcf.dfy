/** `get_vcf_fields`: one pass over the lines of a ClinVar VCF file that checks
    the format line, picks up the release date and the genome build from the
    header, and turns each data line on a whitelisted chromosome into one
    tab-separated output row. */
module Vcf {

  import opened Failures
  import opened Text
  import opened Chromosome
  import opened Info

  /** A line is header/metadata when it contains `#` anywhere, not only in front. */
  predicate IsHeader(line: string)
  {
    '#' in line
  }

  /** The variables the loop of `get_vcf_fields` updates, with the output buffer. */
  datatype ScanState = ScanState(
    isVcfFormat: bool,
    genomeRef: string,
    releaseDate: string,
    rows: seq<string>)

  const Start := ScanState(false, "", "", [])

  /** `line.split('=')[1]`, failing with IndexError when the line has no `=`. */
  function HeaderValue(line: string): Result<string>
  {
    match SecondPiece(line, '=')
    case None => Err(MissingHeaderValue)
    case Some(v) => Ok(v)
  }

  /** `line.split('=')[1].replace('-', '').strip('\n')` */
  function ReleaseDateOf(line: string): Result<string>
  {
    var v :- HeaderValue(line);
    Ok(StripNewlines(RemoveChar(v, '-')))
  }

  /** `line.split('=')[1].strip('\n')` */
  function GenomeRefOf(line: string): Result<string>
  {
    var v :- HeaderValue(line);
    Ok(StripNewlines(v))
  }

  /** A header line: the first one seen is checked for the format token and
      nothing else; every later one may set the release date, then the build. */
  function HeaderStep(st: ScanState, line: string): Result<ScanState>
  {
    if !st.isVcfFormat then
      if Contains(line, "fileformat=VCFv4") then Ok(st.(isVcfFormat := true))
      else Err(InvalidFormat)
    else
      var dated :-
        if Contains(line, "fileDate") then
          var d :- ReleaseDateOf(line);
          Ok(st.(releaseDate := d))
        else Ok(st);
      if Contains(line, "reference") then
        var g :- GenomeRefOf(line);
        Ok(dated.(genomeRef := g))
      else Ok(dated)
  }

  /** `line.strip('\n').split('\t')` */
  function Columns(line: string): (cols: seq<string>)
    ensures |cols| >= 1
  {
    Split(StripNewlines(line), '\t')
  }

  /** The first column index the source reads that a line with `n` columns lacks;
      columns are read in the order 1, 3, 4, 2 and then 7. */
  function FirstMissingColumn(n: nat): (k: nat)
    requires n < 8
    ensures n <= k && k in {1, 3, 4, 7}
    ensures (1 < k ==> 1 < n) && (3 < k ==> 3 < n) && (4 < k ==> 4 < n)
  {
    if n <= 1 then 1 else if n <= 3 then 3 else if n == 4 then 4 else 7
  }

  /** The eleven values of an output row: chr, pos, ref, alt, the ClinVar id,
      then the six INFO entries. */
  function RowValues(cols: seq<string>, info: InfoFields): (values: seq<string>)
    requires |cols| >= 8
    ensures |values| == 11
  {
    [cols[0], cols[1], cols[3], cols[4], cols[2]] +
    [info.clinSig, info.reviewStatus, info.stars, info.disease, info.alleleId, info.dbsnpId]
  }

  /** The row built from the columns of a data line on a whitelisted
      chromosome, or the failure that aborts the run. */
  function VariantRow(cols: seq<string>): Result<string>
  {
    if |cols| < 8 then Err(MissingColumn(FirstMissingColumn(|cols|)))
    else
      var info :- ApplySegments(Defaults, Split(cols[7], ';'));
      Ok(Join(RowValues(cols, info), "\t"))
  }

  /** A data line: dropped (None) when its chromosome is not whitelisted,
      otherwise one tab-joined row, or the failure that aborts the run. */
  function RecordRow(line: string): (r: Result<Option<string>>)
    ensures r == Ok(None) <==> !IsValidChr(Columns(line)[0])
  {
    var cols := Columns(line);
    if !IsValidChr(cols[0]) then Ok(None)
    else
      var row :- VariantRow(cols);
      Ok(Some(row))
  }

  /** One iteration of the loop of `get_vcf_fields`. */
  function Step(st: ScanState, line: string): Result<ScanState>
  {
    if IsHeader(line) then HeaderStep(st, line)
    else
      var row :- RecordRow(line);
      match row
      case None => Ok(st)
      case Some(text) => Ok(st.(rows := st.rows + [text]))
  }

  /** The whole loop: the lines processed in order, stopping at the first failure. */
  function Scan(st: ScanState, lines: seq<string>): Result<ScanState>
    decreases |lines|
  {
    if lines == [] then Ok(st)
    else
      var next :- Step(st, lines[0]);
      Scan(next, lines[1..])
  }

  /** What `get_vcf_fields` hands back: the rows it appended to `out_buffer`
      and the pair `(genome_ref, release_date)`. */
  datatype VcfFields = VcfFields(rows: seq<string>, genomeRef: string, releaseDate: string)

  function VcfFieldsOf(lines: seq<string>): Result<VcfFields>
  {
    var st :- Scan(Start, lines);
    Ok(VcfFields(st.rows, st.genomeRef, st.releaseDate))
  }

  lemma ScanUnfold(st: ScanState, lines: seq<string>, i: nat)
    requires i < |lines|
    ensures Scan(st, lines[i..]) ==
            match Step(st, lines[i])
            case Err(e) => Err(e)
            case Ok(next) => Scan(next, lines[i + 1..])
  {
    assert lines[i..][0] == lines[i] && lines[i..][1..] == lines[i + 1..];
  }

  /** The data-line branch of the loop of `get_vcf_fields`: `None` is the
      `continue` taken for a chromosome off the whitelist. */
  method ParseVariantLine(line: string) returns (r: Result<Option<string>>)
    ensures r == RecordRow(line)
  {
    var tempArr := Split(StripNewlines(line), '\t');
    if !IsValidChr(tempArr[0]) {
      return Ok(None);
    }
    var row :- BuildVariantRow(tempArr);
    r := Ok(Some(row));
  }

  /** The rest of that branch: the row assembled from the columns, in output order. */
  method BuildVariantRow(tempArr: seq<string>) returns (r: Result<string>)
    ensures r == VariantRow(tempArr)
  {
    if |tempArr| <= 1 {
      return Err(MissingColumn(1));
    } else if |tempArr| <= 3 {
      return Err(MissingColumn(3));
    } else if |tempArr| <= 4 {
      return Err(MissingColumn(4));
    } else if |tempArr| <= 7 {
      return Err(MissingColumn(7));
    }
    var tempVarBuffer := [tempArr[0], tempArr[1], tempArr[3], tempArr[4], tempArr[2]];
    var infoFields :- ProcessInfoField(tempArr[7], Defaults);
    tempVarBuffer := tempVarBuffer + [infoFields.clinSig, infoFields.reviewStatus, infoFields.stars,
                                      infoFields.disease, infoFields.alleleId, infoFields.dbsnpId];
    assert RowValues(tempArr, infoFields) == tempVarBuffer;
    r := Ok(Join(tempVarBuffer, "\t"));
  }

  /** `get_vcf_fields(filename, out_buffer)` over the decompressed lines of the file. */
  method GetVcfFields(lines: seq<string>) returns (r: Result<VcfFields>)
    ensures r == VcfFieldsOf(lines)
  {
    var genomeRef := "";
    var releaseDate := "";
    var isVcfFormat := false;
    var outBuffer: seq<string> := [];
    for i := 0 to |lines|
      invariant Scan(Start, lines) ==
                Scan(ScanState(isVcfFormat, genomeRef, releaseDate, outBuffer), lines[i..])
    {
      var line := lines[i];
      ghost var st := ScanState(isVcfFormat, genomeRef, releaseDate, outBuffer);
      ScanUnfold(st, lines, i);
      if '#' in line {
        if !isVcfFormat {
          if Contains(line, "fileformat=VCFv4") {
            isVcfFormat := true;
            assert Step(st, line) == Ok(ScanState(isVcfFormat, genomeRef, releaseDate, outBuffer));
          } else {
            return Err(InvalidFormat);
          }
        } else {
          if Contains(line, "fileDate") {
            var pieces := Split(line, '=');
            if |pieces| < 2 {
              return Err(MissingHeaderValue);
            }
            releaseDate := StripNewlines(RemoveChar(pieces[1], '-'));
          }
          if Contains(line, "reference") {
            var pieces := Split(line, '=');
            if |pieces| < 2 {
              return Err(MissingHeaderValue);
            }
            genomeRef := StripNewlines(pieces[1]);
          }
          assert Step(st, line) == Ok(ScanState(isVcfFormat, genomeRef, releaseDate, outBuffer));
        }
      } else {
        var row :- ParseVariantLine(line);
        if row.Some? {
          outBuffer := outBuffer + [row.value];
        }
      }
    }
    r := Ok(VcfFields(outBuffer, genomeRef, releaseDate));
  }

  // ---------------------------------------------------------------------------
  // Properties of a run.

  /** Running over `a + b` is running over `a`, then over `b` from where it stopped. */
  lemma {:induction false} ScanAppend(st: ScanState, a: seq<string>, b: seq<string>)
    ensures Scan(st, a + b) == (if Scan(st, a).Err? then Scan(st, a) else Scan(Scan(st, a).value, b))
    decreases |a|
  {
    if a == [] {
      assert a + b == b;
    } else {
      assert (a + b)[0] == a[0] && (a + b)[1..] == a[1..] + b;
      if Step(st, a[0]).Ok? {
        ScanAppend(Step(st, a[0]).value, a[1..], b);
      }
    }
  }

  lemma SplitAt(s: seq<string>, i: nat)
    requires i <= |s|
    ensures s == s[..i] + s[i..]
  {
  }

  lemma SeqAssoc(a: seq<string>, b: seq<string>, c: seq<string>)
    ensures (a + b) + c == a + (b + c)
  {
  }

  /** The rows one line contributes: none for a header or a dropped data line. */
  function LineRows(line: string): (rows: seq<string>)
    ensures |rows| <= 1
  {
    if IsHeader(line) then []
    else
      match RecordRow(line)
      case Ok(Some(row)) => [row]
      case _ => []
  }

  /** The rows of all lines, in input order. */
  function KeptRows(lines: seq<string>): seq<string>
    decreases |lines|
  {
    if lines == [] then [] else LineRows(lines[0]) + KeptRows(lines[1..])
  }

  /** One line appends its own rows and nothing else. */
  lemma StepRows(st: ScanState, line: string)
    requires Step(st, line).Ok?
    ensures Step(st, line).value.rows == st.rows + LineRows(line)
    ensures !IsHeader(line) ==> RecordRow(line).Ok?
  {
    if !IsHeader(line) {
      match RecordRow(line)
      case Ok(None) =>
      case Ok(Some(row)) =>
    }
  }

  /** The output buffer is the concatenation, in input order, of the rows of every line. */
  lemma {:induction false} ScanRows(st: ScanState, lines: seq<string>)
    requires Scan(st, lines).Ok?
    ensures Scan(st, lines).value.rows == st.rows + KeptRows(lines)
    ensures forall j :: 0 <= j < |lines| && !IsHeader(lines[j]) ==> RecordRow(lines[j]).Ok?
    decreases |lines|
  {
    if lines != [] {
      var next := Step(st, lines[0]).value;
      StepRows(st, lines[0]);
      ScanRows(next, lines[1..]);
      var mine, theirs := LineRows(lines[0]), KeptRows(lines[1..]);
      assert KeptRows(lines) == mine + theirs;
      assert next.rows == st.rows + mine;
      SeqAssoc(st.rows, mine, theirs);
      assert forall j :: 1 <= j < |lines| ==> lines[j] == lines[1..][j - 1];
    }
  }

  /** A data line that runs through contributes exactly one row when its
      chromosome is whitelisted and none otherwise. */
  lemma DataLineRows(line: string)
    requires !IsHeader(line) && RecordRow(line).Ok?
    ensures |LineRows(line)| == (if IsValidChr(Columns(line)[0]) then 1 else 0)
  {
  }

  /** The output buffer of a whole run: every data line ran through, and the
      rows are theirs, in input order. */
  lemma RowsInInputOrder(lines: seq<string>)
    requires VcfFieldsOf(lines).Ok?
    ensures VcfFieldsOf(lines).value.rows == KeptRows(lines)
    ensures forall j :: 0 <= j < |lines| && !IsHeader(lines[j]) ==> RecordRow(lines[j]).Ok?
  {
    ScanRows(Start, lines);
  }

  /** What a produced row is made of. */
  lemma RecordRowParts(line: string, row: string)
    requires RecordRow(line) == Ok(Some(row))
    ensures var cols := Columns(line);
            |cols| >= 8 && IsValidChr(cols[0]) &&
            ApplySegments(Defaults, Split(cols[7], ';')).Ok? &&
            row == Join(RowValues(cols, ApplySegments(Defaults, Split(cols[7], ';')).value), "\t")
  {
  }

  /** A character that is in no column of a data line, and is neither a space,
      a dot nor a star digit, is in none of the eleven values of its row. */
  lemma RowValuesAvoid(cols: seq<string>, c: char)
    requires |cols| >= 8 && ApplySegments(Defaults, Split(cols[7], ';')).Ok?
    requires c !in " .01234"
    requires forall p <- cols :: c !in p
    ensures forall v <- RowValues(cols, ApplySegments(Defaults, Split(cols[7], ';')).value) :: c !in v
  {
    var segments := Split(cols[7], ';');
    assert cols[7] in cols;
    SplitPiecesAvoid(cols[7], ';', c);
    assert EntriesAvoid(Defaults, c);
    EntriesAvoidChar(Defaults, segments, c);
    assert cols[0] in cols && cols[1] in cols && cols[2] in cols && cols[3] in cols && cols[4] in cols;
  }

  /** A row of the output: the eleven values tab-joined in the fixed order, so
      splitting it on tabs gives them back; the chromosome is whitelisted, and a
      row made from a physical line holds no newline. */
  lemma RowShape(line: string, row: string)
    requires RecordRow(line) == Ok(Some(row))
    ensures var cols := Columns(line);
            |cols| >= 8 && IsValidChr(cols[0]) &&
            ApplySegments(Defaults, Split(cols[7], ';')).Ok? &&
            Split(row, '\t') == RowValues(cols, ApplySegments(Defaults, Split(cols[7], ';')).value)
    ensures IsPhysicalLine(line) ==> '\n' !in row
  {
    RecordRowParts(line, row);
    var stripped := StripNewlines(line);
    var cols := Columns(line);
    var values := RowValues(cols, ApplySegments(Defaults, Split(cols[7], ';')).value);
    SplitPiecesAvoidSep(stripped, '\t');
    RowValuesAvoid(cols, '\t');
    SplitJoin(values, '\t');
    if IsPhysicalLine(line) {
      StripPhysicalLine(line);
      RowAvoidsNewline(line, row);
    }
  }

  /** A row holds a newline only if its line still does after stripping. */
  lemma RowAvoidsNewline(line: string, row: string)
    requires RecordRow(line) == Ok(Some(row))
    requires '\n' !in StripNewlines(line)
    ensures '\n' !in row
  {
    RecordRowParts(line, row);
    var cols := Columns(line);
    SplitPiecesAvoid(StripNewlines(line), '\t', '\n');
    RowValuesAvoid(cols, '\n');
    JoinAvoids(RowValues(cols, ApplySegments(Defaults, Split(cols[7], ';')).value), "\t", '\n');
  }

  /** A stretch of data lines leaves the format flag and the metadata alone. */
  lemma {:induction false} DataLinesKeepMetadata(st: ScanState, lines: seq<string>)
    requires forall j :: 0 <= j < |lines| ==> !IsHeader(lines[j])
    ensures Scan(st, lines).Ok? ==>
            var t := Scan(st, lines).value;
            t.isVcfFormat == st.isVcfFormat && t.genomeRef == st.genomeRef &&
            t.releaseDate == st.releaseDate
    decreases |lines|
  {
    if lines != [] {
      assert forall j :: 0 <= j < |lines| - 1 ==> lines[1..][j] == lines[j + 1];
      if Step(st, lines[0]).Ok? {
        DataLinesKeepMetadata(Step(st, lines[0]).value, lines[1..]);
      }
    }
  }

  /** A data line that parses is a step that goes through. */
  lemma DataStepOk(st: ScanState, line: string)
    requires !IsHeader(line) && RecordRow(line).Ok?
    ensures Step(st, line).Ok?
  {
  }

  /** A stretch of data lines goes through whenever each of its lines does. */
  lemma {:induction false} DataLinesGoThrough(st: ScanState, lines: seq<string>)
    requires forall j :: 0 <= j < |lines| ==> !IsHeader(lines[j]) && RecordRow(lines[j]).Ok?
    ensures Scan(st, lines).Ok?
    decreases |lines|
  {
    if lines != [] {
      assert forall j :: 0 <= j < |lines| - 1 ==> lines[1..][j] == lines[j + 1];
      DataStepOk(st, lines[0]);
      DataLinesGoThrough(Step(st, lines[0]).value, lines[1..]);
    }
  }

  /** The first line containing `#` must carry `fileformat=VCFv4`; otherwise the
      run fails without looking at any later line, with InvalidFormat unless a
      data line before it already failed. */
  lemma FirstHeaderMustDeclareFormat(lines: seq<string>, i: nat)
    requires i < |lines| && IsHeader(lines[i])
    requires forall j :: 0 <= j < i ==> !IsHeader(lines[j])
    requires !Contains(lines[i], "fileformat=VCFv4")
    ensures VcfFieldsOf(lines).Err?
    ensures VcfFieldsOf(lines) == VcfFieldsOf(lines[..i + 1])
    ensures (forall j :: 0 <= j < i ==> RecordRow(lines[j]).Ok?) ==> VcfFieldsOf(lines) == Err(InvalidFormat)
  {
    var pre := lines[..i];
    assert lines == pre + lines[i..];
    assert lines[..i + 1] == pre + [lines[i]];
    assert lines[i..] == [lines[i]] + lines[i + 1..];
    DataLinesKeepMetadata(Start, pre);
    if forall j :: 0 <= j < i ==> RecordRow(lines[j]).Ok? {
      DataLinesGoThrough(Start, pre);
    }
    ScanAppend(Start, pre, lines[i..]);
    ScanAppend(Start, pre, [lines[i]]);
  }

  /** The last header line in `lines` that contains `key`, scanning from the end. */
  function LastDirective(lines: seq<string>, key: string): (r: Option<string>)
    ensures r.Some? ==> r.value in lines && IsHeader(r.value) && Contains(r.value, key)
    ensures r.Some? ==> exists j :: 0 <= j < |lines| && lines[j] == r.value &&
                                   forall m :: j < m < |lines| ==> !(IsHeader(lines[m]) && Contains(lines[m], key))
    ensures r.None? <==> forall j :: 0 <= j < |lines| ==> !(IsHeader(lines[j]) && Contains(lines[j], key))
    decreases |lines|
  {
    if lines == [] then None
    else
      var last := lines[|lines| - 1];
      if IsHeader(last) && Contains(last, key) then Some(last)
      else
        var r := LastDirective(lines[..|lines| - 1], key);
        assert forall j :: 0 <= j < |lines| - 1 ==> lines[..|lines| - 1][j] == lines[j];
        r
  }

  /** Once the format line has been seen, the release date and the genome build
      are those of the last header line naming them (the last one wins), or stay
      as they were when no header line names them. */
  lemma {:induction false} LastDirectiveWins(st: ScanState, lines: seq<string>)
    requires st.isVcfFormat
    requires Scan(st, lines).Ok?
    ensures var t := Scan(st, lines).value;
            t.isVcfFormat &&
            (match LastDirective(lines, "fileDate")
             case None => t.releaseDate == st.releaseDate
             case Some(l) => ReleaseDateOf(l) == Ok(t.releaseDate)) &&
            (match LastDirective(lines, "reference")
             case None => t.genomeRef == st.genomeRef
             case Some(l) => GenomeRefOf(l) == Ok(t.genomeRef))
    decreases |lines|
  {
    if lines != [] {
      var init, last := lines[..|lines| - 1], lines[|lines| - 1];
      assert lines == init + [last];
      ScanAppend(st, init, [last]);
      LastDirectiveWins(st, init);
    }
  }

  /** The metadata comes from the header lines after the first one: the format
      line itself is never read for `fileDate` or `reference`, and both stay
      empty when no later header line names them. */
  lemma MetadataFromHeader(lines: seq<string>, i: nat)
    requires i < |lines| && IsHeader(lines[i])
    requires forall j :: 0 <= j < i ==> !IsHeader(lines[j])
    requires VcfFieldsOf(lines).Ok?
    ensures Contains(lines[i], "fileformat=VCFv4")
    ensures var v := VcfFieldsOf(lines).value;
            (match LastDirective(lines[i + 1..], "fileDate")
             case None => v.releaseDate == ""
             case Some(l) => ReleaseDateOf(l) == Ok(v.releaseDate)) &&
            (match LastDirective(lines[i + 1..], "reference")
             case None => v.genomeRef == ""
             case Some(l) => GenomeRefOf(l) == Ok(v.genomeRef))
  {
    FirstHeaderFormat(lines, i);
    MetadataAfterFormat(Start, lines, i);
  }

  /** From any state before the format line, the metadata afterwards is that of
      the last header line after the format line naming it, or what it was. */
  lemma MetadataAfterFormat(st: ScanState, lines: seq<string>, i: nat)
    requires !st.isVcfFormat
    requires i < |lines| && IsHeader(lines[i]) && Contains(lines[i], "fileformat=VCFv4")
    requires forall j :: 0 <= j < i ==> !IsHeader(lines[j])
    requires Scan(st, lines).Ok?
    ensures var v := Scan(st, lines).value;
            (match LastDirective(lines[i + 1..], "fileDate")
             case None => v.releaseDate == st.releaseDate
             case Some(l) => ReleaseDateOf(l) == Ok(v.releaseDate)) &&
            (match LastDirective(lines[i + 1..], "reference")
             case None => v.genomeRef == st.genomeRef
             case Some(l) => GenomeRefOf(l) == Ok(v.genomeRef))
  {
    DataPrefixReached(st, lines, i);
    var t := Scan(st, lines[..i]).value;
    FormatStep(t, lines[i]);
    ScanUnfold(t, lines, i);
    LastDirectiveWins(t.(isVcfFormat := true), lines[i + 1..]);
  }

  /** The first header line, carrying the format token, only sets the format flag. */
  lemma FormatStep(st: ScanState, line: string)
    requires !st.isVcfFormat && IsHeader(line) && Contains(line, "fileformat=VCFv4")
    ensures Step(st, line) == Ok(st.(isVcfFormat := true))
  {
  }

  /** Before the first header line the run only collects rows. */
  lemma DataPrefixReached(st: ScanState, lines: seq<string>, i: nat)
    requires i <= |lines|
    requires forall j :: 0 <= j < i ==> !IsHeader(lines[j])
    requires Scan(st, lines).Ok?
    ensures Scan(st, lines[..i]).Ok?
    ensures var t := Scan(st, lines[..i]).value;
            t.isVcfFormat == st.isVcfFormat && t.genomeRef == st.genomeRef &&
            t.releaseDate == st.releaseDate && Scan(st, lines) == Scan(t, lines[i..])
  {
    ScanPrefix(st, lines, i);
    DataLinesKeepMetadata(st, lines[..i]);
  }

  /** A run that goes through has gone through every prefix, and it continues from there. */
  lemma ScanPrefix(st: ScanState, lines: seq<string>, i: nat)
    requires i <= |lines| && Scan(st, lines).Ok?
    ensures Scan(st, lines[..i]).Ok?
    ensures Scan(st, lines) == Scan(Scan(st, lines[..i]).value, lines[i..])
  {
    SplitAt(lines, i);
    ScanAppend(st, lines[..i], lines[i..]);
  }

  lemma FirstHeaderFormat(lines: seq<string>, i: nat)
    requires i < |lines| && IsHeader(lines[i])
    requires forall j :: 0 <= j < i ==> !IsHeader(lines[j])
    requires VcfFieldsOf(lines).Ok?
    ensures Contains(lines[i], "fileformat=VCFv4")
  {
    if !Contains(lines[i], "fileformat=VCFv4") {
      FirstHeaderMustDeclareFormat(lines, i);
    }
  }

  /** A file without any header line that goes through leaves both directive values empty. */
  lemma NoHeaderNoMetadata(lines: seq<string>)
    requires forall j :: 0 <= j < |lines| ==> !IsHeader(lines[j])
    requires VcfFieldsOf(lines).Ok?
    ensures VcfFieldsOf(lines).value.releaseDate == "" && VcfFieldsOf(lines).value.genomeRef == ""
  {
    DataLinesKeepMetadata(Start, lines);
  }
}
