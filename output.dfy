/** What the converter writes: the output file's name, built from the two
    header directives, and its text, a header line followed by one line per
    kept record. The gzip compression of that text is not modelled. */
module Output {

  import opened Failures
  import opened Text
  import opened Vcf

  /** The column names of the output file, in order. */
  const ColumnNames: seq<string> := [
    "chr", "pos", "ref", "alt", "clinvar_id", "clin_sig", "review_status",
    "stars", "disease", "allele_id", "dbsnp_id"
  ]

  /** The header line of the output file: the column names, tab-separated,
      then a newline. */
  const HeaderLine: string := Join(ColumnNames, "\t") + "\n"

  /** `'clinvar_{0}_{1}_processed.txt.gz'.format(genome_ref, release_date)` */
  function OutputFileName(genomeRef: string, releaseDate: string): string
  {
    "clinvar_" + genomeRef + "_" + releaseDate + "_processed.txt.gz"
  }

  /** The text handed to the compressed file: the header, then
      `'\n'.join(out_buffer) + '\n'`. */
  function OutputText(rows: seq<string>): string
  {
    HeaderLine + Join(rows, "\n") + "\n"
  }

  /** The file `write_output` produces. */
  datatype OutputFile = OutputFile(name: string, content: string)

  function WriteOutput(rows: seq<string>, genomeRef: string, releaseDate: string): OutputFile
  {
    OutputFile(OutputFileName(genomeRef, releaseDate), OutputText(rows))
  }

  /** `process_clinvar_db(args)`: the file named by the first argument is read
      (its decompressed lines are `lines`), then the output is built; no
      argument at all ends the run before anything is read. */
  function Run(args: seq<string>, lines: seq<string>): (r: Result<OutputFile>)
    ensures |args| == 0 ==> r == Err(MissingArguments)
    ensures |args| > 0 ==> (r.Ok? <==> VcfFieldsOf(lines).Ok?)
    ensures |args| > 0 && VcfFieldsOf(lines).Err? ==> r == Err(VcfFieldsOf(lines).error)
    ensures |args| > 0 && r.Ok? ==>
              r.value.name == OutputFileName(VcfFieldsOf(lines).value.genomeRef,
                                             VcfFieldsOf(lines).value.releaseDate)
  {
    if |args| == 0 then Err(MissingArguments)
    else
      var fields :- VcfFieldsOf(lines);
      Ok(WriteOutput(fields.rows, fields.genomeRef, fields.releaseDate))
  }

  // ---------------------------------------------------------------------------
  // The lines of the output text.

  /** No column name holds a tab or a newline. */
  lemma ColumnNamesPlain()
    ensures |ColumnNames| == 11
    ensures forall p <- ColumnNames :: '\t' !in p && '\n' !in p
  {
  }

  /** The header's first line splits on tabs into the column names. */
  lemma HeaderColumns()
    ensures Split(HeaderLine[..|HeaderLine| - 1], '\t') == ColumnNames
    ensures '\n' !in HeaderLine[..|HeaderLine| - 1]
  {
    var names := ColumnNames;
    ColumnNamesPlain();
    assert HeaderLine[..|HeaderLine| - 1] == Join(names, "\t");
    SplitJoin(names, '\t');
    JoinAvoids(names, "\t", '\n');
  }

  /** A header, the rows, each followed by a newline, is the newline-join of
      the header, the rows (an empty line when there are none) and the empty
      text after the final newline. */
  lemma TextIsJoin(header: string, rows: seq<string>)
    ensures header + "\n" + Join(rows, "\n") + "\n" ==
            Join([header] + (if rows == [] then [""] else rows) + [""], "\n")
  {
    var lines := if rows == [] then [""] else rows;
    var body := lines + [""];
    var parts := [header] + lines + [""];
    assert parts[0] == header && parts[1..] == body && |parts| > 1;
    assert Join(parts, "\n") == header + "\n" + Join(body, "\n");
    if rows == [] {
      assert body[1..] == [""];
      assert Join(body, "\n") == "" + "\n" + "";
    } else {
      JoinSnoc(rows, "\n", "");
    }
    assert Join(body, "\n") == Join(rows, "\n") + "\n";
    assert header + "\n" + (Join(rows, "\n") + "\n") == header + "\n" + Join(rows, "\n") + "\n";
  }

  /** A text written as a newline-free header and newline-free rows, each
      followed by a newline, splits back into those lines. */
  lemma TextLines(header: string, rows: seq<string>)
    requires '\n' !in header
    requires forall r <- rows :: '\n' !in r
    ensures Split(header + "\n" + Join(rows, "\n") + "\n", '\n') ==
            [header] + (if rows == [] then [""] else rows) + [""]
  {
    var parts := [header] + (if rows == [] then [""] else rows) + [""];
    TextIsJoin(header, rows);
    assert forall p <- parts :: '\n' !in p;
    SplitJoin(parts, '\n');
  }

  /** The output text, read back line by line: the column names, one line per
      row of the buffer in buffer order (a single empty line for an empty
      buffer), then nothing after the last newline. */
  lemma OutputLines(rows: seq<string>)
    requires forall r <- rows :: '\n' !in r
    ensures Split(OutputText(rows), '\n') ==
            [HeaderLine[..|HeaderLine| - 1]] + (if rows == [] then [""] else rows) + [""]
    ensures Split(HeaderLine[..|HeaderLine| - 1], '\t') == ColumnNames
  {
    HeaderColumns();
    var header := HeaderLine[..|HeaderLine| - 1];
    assert HeaderLine == header + "\n";
    assert OutputText(rows) == header + "\n" + Join(rows, "\n") + "\n";
    TextLines(header, rows);
  }

  /** Every row kept from physical lines is one line of eleven tab-separated
      values, as many as the header has columns. */
  lemma {:induction false} KeptRowsShape(lines: seq<string>)
    requires forall j :: 0 <= j < |lines| ==> IsPhysicalLine(lines[j])
    ensures forall r <- KeptRows(lines) :: '\n' !in r && |Split(r, '\t')| == |ColumnNames|
    decreases |lines|
  {
    if lines != [] {
      assert forall j :: 0 <= j < |lines| - 1 ==> lines[1..][j] == lines[j + 1];
      KeptRowsShape(lines[1..]);
      var line := lines[0];
      assert IsPhysicalLine(line);
      if !IsHeader(line) {
        match RecordRow(line)
        case Ok(Some(row)) => RowShape(line, row);
        case _ =>
      }
    }
  }

  /** A run over physical lines that goes through writes the header and then
      exactly the kept rows, one per line in input order, each with one value
      per column. */
  lemma RunOutput(args: seq<string>, lines: seq<string>, out: OutputFile)
    requires forall j :: 0 <= j < |lines| ==> IsPhysicalLine(lines[j])
    requires Run(args, lines) == Ok(out)
    ensures var rows := KeptRows(lines);
            Split(out.content, '\n') ==
              [HeaderLine[..|HeaderLine| - 1]] + (if rows == [] then [""] else rows) + [""] &&
            forall r <- rows :: |Split(r, '\t')| == |ColumnNames|
  {
    RunContent(args, lines, out);
    KeptRowsOutput(lines);
  }

  /** The text of the rows kept from physical lines: the header, then each
      row on a line of its own with one value per column. */
  lemma KeptRowsOutput(lines: seq<string>)
    requires forall j :: 0 <= j < |lines| ==> IsPhysicalLine(lines[j])
    ensures var rows := KeptRows(lines);
            Split(OutputText(rows), '\n') ==
              [HeaderLine[..|HeaderLine| - 1]] + (if rows == [] then [""] else rows) + [""] &&
            forall r <- rows :: |Split(r, '\t')| == |ColumnNames|
  {
    KeptRowsShape(lines);
    OutputLines(KeptRows(lines));
  }

  /** The text written is that of the kept rows. */
  lemma RunContent(args: seq<string>, lines: seq<string>, out: OutputFile)
    requires Run(args, lines) == Ok(out)
    ensures out.content == OutputText(KeptRows(lines))
  {
    RowsInInputOrder(lines);
  }

  /** A file whose first header line lacks the format token produces no
      output file at all. */
  lemma InvalidFormatWritesNothing(args: seq<string>, lines: seq<string>, i: nat)
    requires i < |lines| && IsHeader(lines[i])
    requires forall j :: 0 <= j < i ==> !IsHeader(lines[j])
    requires !Contains(lines[i], "fileformat=VCFv4")
    ensures Run(args, lines).Err?
  {
    FirstHeaderMustDeclareFormat(lines, i);
  }

  // ---------------------------------------------------------------------------
  // The file name.

  /** When neither directive value holds an underscore, the file name splits
      back on `_` into the prefix, the build, the release date and the suffix. */
  lemma FileNameParts(genomeRef: string, releaseDate: string)
    requires '_' !in genomeRef && '_' !in releaseDate
    ensures var r := Split(OutputFileName(genomeRef, releaseDate), '_');
            |r| == 4 && r[0] == "clinvar" && r[1] == genomeRef && r[2] == releaseDate &&
            r[3] == "processed.txt.gz"
  {
    var prefix, suffix := "clinvar", "processed.txt.gz";
    assert '_' !in prefix && '_' !in suffix;
    assert OutputFileName(genomeRef, releaseDate) ==
           prefix + ['_'] + (genomeRef + ['_'] + (releaseDate + ['_'] + suffix));
    FourPieces(prefix, genomeRef, releaseDate, suffix, '_');
  }
}
