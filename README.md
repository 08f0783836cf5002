# ClinVar VCF to tab-separated table, modelled in Dafny

`process_clinvar_db.py` turns a gzip-compressed ClinVar VCF release into a
gzip-compressed tab-separated table with one row per variant on a human
chromosome. It works in four steps:

1. The first line that contains `#` must declare `fileformat=VCFv4`. Any
   other first header line aborts the run.
2. Later header lines supply the release date (`fileDate`, with its dashes
   removed) and the genome build (`reference`).
3. Each data line whose first column is on the chromosome whitelist
   (`1`..`22`, `X`, `Y`, `MT`, bare or prefixed with `chr`) becomes one row.
   The row holds:
   - the chromosome, the position, the reference and alternate alleles,
     and the ClinVar id;
   - six annotations taken from the INFO column by `process_info_field`:
     clinical significance, review status, stars, disease name, allele id
     and dbSNP id.
4. The stars come from the `clinvar_star_rating` table of review statuses.
   The output file is named `clinvar_<build>_<date>_processed.txt.gz`. It
   holds a header line of eleven column names, then the rows.

The project has six modules:

- `Text` gives Python's string operations over `seq<char>`: `in`, `split`,
  `join`, `strip('\n')` and `replace`.
- `Failures` holds the ways a run ends early: `sys.exit`, `IndexError` and
  `KeyError`. They become `Err` values of a `Result`.
- `Chromosome` models `is_valid_chr`.
- `Info` models the star table and `process_info_field`. The loop is a
  method proved against a fold over the segments.
- `Vcf` models the loop of `get_vcf_fields`. It is a method proved against
  a fold, `Scan`, over the lines.
- `Output` models the text and the file name that `write_output` builds,
  and `process_clinvar_db` as a whole (`Run`).

## Model

| member | source | states |
|---|---|---|
| Chromosome.IsValidChrIff | process_clinvar_db.py:157-162 | A chromosome field passes `is_valid_chr` exactly when it is 1..22 (no leading zero), X, Y or MT, bare or behind `chr`. |
| Chromosome.ValidChrIsChromosomeField | process_clinvar_db.py:157-162 | Every whitelisted name is such a chromosome name. |
| Chromosome.ChromosomeFieldIsValidChr | process_clinvar_db.py:157-162 | Every such chromosome name is whitelisted. |
| Chromosome.NameIsValidChr | process_clinvar_db.py:157-162 | A chromosome name, bare or behind `chr`, is in the list. |
| Chromosome.WhitelistParts | process_clinvar_db.py:158-161 | Each of the four parts the list is built from is in the list. |
| Chromosome.ValidChromListSize | process_clinvar_db.py:158-161 | The whitelist holds 50 names: 22 numbers plus X, Y and MT, each bare and with `chr`. |
| Chromosome.NatToStringNumeral | process_clinvar_db.py:158 | `str(x)` of a positive number is a canonical decimal numeral that denotes `x`. |
| Chromosome.CanonicalNumeralIsNatToString | process_clinvar_db.py:158 | A canonical numeral is `str` of the number it denotes. |
| Chromosome.RejectsContigName | process_clinvar_db.py:94-95 | A contig name such as `GL000220.1` is not whitelisted, so its line is skipped. |
| Chromosome.RejectsOtherNumerals | process_clinvar_db.py:158-160 | `23`, `0` and `01` are not whitelisted. |
| Chromosome.PrefixedNames | process_clinvar_db.py:160 | `chrY` is whitelisted; `chrM` is not. |
| Info.LookupFinds | process_clinvar_db.py:136 | A dictionary lookup returns a value stored under the key. It fails (KeyError) exactly when no entry has that key. |
| Info.LookupEntry | process_clinvar_db.py:54-63 | In a table with distinct keys, the lookup of each entry's key returns that entry's value. |
| Info.StarRatingRange | process_clinvar_db.py:54-63 | The star table has eight distinct review statuses, each rated "0" to "4". |
| Info.StarRatingLookup | process_clinvar_db.py:54-63 | Each status in the table is rated with its own star count, every rating found is "0" to "4", and a status outside the table is not found. |
| Info.KeyedSegmentHasEquals | process_clinvar_db.py:125-135 | A segment that matches one of the five keys contains `=`, so `split('=')[1]` there cannot raise. |
| Info.SegmentValue | process_clinvar_db.py:126-135 | The value taken from a keyed segment holds no `=`. |
| Info.ProcessInfoField | process_clinvar_db.py:123-136 | The loop over the `;`-separated segments computes the fold `ApplySegments` from the caller's dictionary, and an unknown review status ends the run. |
| Info.LastWithKey | process_clinvar_db.py:124-136 | Finds a segment taking a given branch, and finds none exactly when no segment takes that branch. |
| Info.LastWithKeyIsLast | process_clinvar_db.py:124-136 | The segment `LastWithKey` finds is the last one taking its branch: no later segment takes it. |
| Info.ApplySegmentsSnoc | process_clinvar_db.py:124-136 | Processing one more segment applies it to the dictionary left by the earlier ones, unless they already failed. |
| Info.ApplySegmentsAppend | process_clinvar_db.py:124-136 | Processing `a + b` processes `a`, then `b` on the dictionary `a` left, unless `a` already failed. |
| Info.ApplySegmentsAt | process_clinvar_db.py:124-136 | Processing from segment `i` on is segment `i`, then the rest. |
| Info.UnmatchedSegmentIgnored | process_clinvar_db.py:124-136 | A segment that contains none of the five keys leaves the dictionary unchanged. |
| Info.OnlyFirstMatchingKeyApplies | process_clinvar_db.py:125-136 | A segment writes only the entry of the first key it contains, in the `elif` order. Stars change only for a review status. |
| Info.LastOccurrenceWins | process_clinvar_db.py:123-136 | Each entry holds the value from the last segment of its key, or the caller's default when no segment has that key. |
| Info.StarsFollowLastReviewStatus | process_clinvar_db.py:133-136 | The stars are the table's rating of the last review status seen, or the default when there is none. |
| Info.FailsOnUnknownStatus | process_clinvar_db.py:133-136 | Processing fails exactly when some CLNREVSTAT segment names a status outside the table. The error names the first such status. |
| Info.UnknownStatusStep | process_clinvar_db.py:134-136 | A CLNREVSTAT segment whose status is not in the table fails with that status. |
| Info.UnknownStatusFails | process_clinvar_db.py:125-136 | One segment with an unknown review status makes the whole INFO column fail, whatever precedes or follows it. |
| Info.FailureNamesFirstUnknown | process_clinvar_db.py:125-136 | A failure names the status of the first segment with an unknown review status, and no earlier segment has one. |
| Info.DiseaseHasNoUnderscore | process_clinvar_db.py:128-129 | The disease entry has its underscores replaced by spaces, so no underscore survives. |
| Info.StarsInRange | process_clinvar_db.py:104-136 | From the caller's defaults, the stars entry is always "0" to "4". |
| Info.EntriesAvoidChar | process_clinvar_db.py:123-136 | A character in no segment (other than a space or a star digit) ends up in no entry. |
| Vcf.Columns | process_clinvar_db.py:92 | A stripped line splits on tabs into at least one column. |
| Vcf.FirstMissingColumn | process_clinvar_db.py:96-109 | For a line with fewer than 8 columns, gives the first index, in the reading order 1, 3, 4, 7, that the line lacks: it is missing, and every index read before it is present. |
| Vcf.RowValues | process_clinvar_db.py:96-116 | A row has eleven values. |
| Vcf.RecordRow | process_clinvar_db.py:92-95 | A data line is skipped exactly when its first column is not whitelisted. |
| Vcf.ParseVariantLine | process_clinvar_db.py:88-117 | The data-line branch of the loop computes `RecordRow`: skip, one row, or the error that ends the run. |
| Vcf.BuildVariantRow | process_clinvar_db.py:96-117 | The row is built from columns 0, 1, 3, 4 and 2, then the six INFO entries, tab-joined. A line with too few columns fails with the first index read. |
| Vcf.GetVcfFields | process_clinvar_db.py:44-120 | The loop over the lines computes `VcfFieldsOf`, the fold of one step per line from the initial state. |
| Vcf.ScanUnfold | process_clinvar_db.py:68-118 | Processing from line `i` is the step for line `i` followed by the rest of the lines. |
| Vcf.ScanAppend | process_clinvar_db.py:68-118 | Processing `a + b` processes `a`, then `b` from the state `a` left. |
| Vcf.LineRows | process_clinvar_db.py:88-117 | Each line contributes at most one row. |
| Vcf.StepRows | process_clinvar_db.py:88-117 | A step appends that line's own row and nothing else. |
| Vcf.ScanRows | process_clinvar_db.py:68-118 | The buffer gains the rows of all lines, in input order. Every data line processed without error parsed. |
| Vcf.DataLineRows | process_clinvar_db.py:94-117 | A parsed data line adds one row when its chromosome is whitelisted and none otherwise. |
| Vcf.RowsInInputOrder | process_clinvar_db.py:68-120 | The rows handed back are the kept rows of the file, in input order. |
| Vcf.RecordRowParts | process_clinvar_db.py:92-117 | A produced row comes from a whitelisted line with at least 8 columns. It is the tab-join of that line's eleven values. |
| Vcf.RowValuesAvoid | process_clinvar_db.py:96-116 | A character in no column (other than a space, a dot or a star digit) is in no value of the row. |
| Vcf.RowShape | process_clinvar_db.py:92-117 | A row splits back on tabs into its eleven values. A row built from one physical line holds no newline. |
| Vcf.RowAvoidsNewline | process_clinvar_db.py:92-117 | A row holds a newline only if its stripped line does. |
| Vcf.DataLinesKeepMetadata | process_clinvar_db.py:88-117 | Data lines never change the format flag, the date or the build. |
| Vcf.DataStepOk | process_clinvar_db.py:88-117 | A data line that parses never ends the run. |
| Vcf.DataLinesGoThrough | process_clinvar_db.py:88-117 | A run of data lines that each parse never ends the run. |
| Vcf.FirstHeaderMustDeclareFormat | process_clinvar_db.py:69-80 | A first `#` line without `fileformat=VCFv4` ends the run without reading any later line. The error is InvalidFormat unless an earlier data line already failed. |
| Vcf.FirstHeaderFormat | process_clinvar_db.py:69-80 | In a run that ends normally, the first `#` line holds the format token. |
| Vcf.LastDirective | process_clinvar_db.py:81-87 | Finds a header line naming a directive after which no header line names it (the last one). It finds none exactly when no header line names it. |
| Vcf.LastDirectiveWins | process_clinvar_db.py:80-87 | Once the format is checked, the date and the build come from the last header line naming each one. They are unchanged when none does. |
| Vcf.MetadataFromHeader | process_clinvar_db.py:69-87 | The date and the build come from the last matching header line after the format line, and are empty when there is none. The format line is never read for them. |
| Vcf.MetadataAfterFormat | process_clinvar_db.py:69-87 | The same holds from any state that has not yet checked the format. |
| Vcf.FormatStep | process_clinvar_db.py:71-75 | A first header line with the format token only sets the format flag. |
| Vcf.DataPrefixReached | process_clinvar_db.py:68-118 | The data lines before the first header line leave the flag and the metadata unchanged. |
| Vcf.ScanPrefix | process_clinvar_db.py:68-118 | A run that ends normally processed each prefix without error and continues from there. |
| Vcf.NoHeaderNoMetadata | process_clinvar_db.py:45-46 | A file without any `#` line that ends normally returns an empty date and an empty build. |
| Output.Run | process_clinvar_db.py:7-31 | With no argument the run exits before reading anything. Otherwise a file is written exactly when the VCF pass ends normally, a failure carries that pass's error, and the file written is named from the build and the date the VCF pass read from the header. |
| Output.ColumnNamesPlain | process_clinvar_db.py:34-35 | There are eleven column names, and none holds a tab or a newline. |
| Output.HeaderColumns | process_clinvar_db.py:34-35 | The header line, without its newline, splits on tabs into the column names. |
| Text.JoinSnoc | process_clinvar_db.py:40 | Joining one more part appends the separator and that part. |
| Output.TextIsJoin | process_clinvar_db.py:34-40 | The written text is the newline-join of the header, the rows and a final empty piece. |
| Output.TextLines | process_clinvar_db.py:34-40 | Text built from newline-free lines splits back into those lines. |
| Output.OutputLines | process_clinvar_db.py:34-40 | The output splits into lines as the header (whose fields are the column names), then one line per row in buffer order, then nothing after the final newline. |
| Output.KeptRowsShape | process_clinvar_db.py:92-117 | Every row kept from physical lines is one line of eleven tab-separated fields. |
| Output.KeptRowsOutput | process_clinvar_db.py:34-40 | The text of the kept rows reads back as the header, then those rows, each with one field per column. |
| Output.RunContent | process_clinvar_db.py:18-40 | The written text holds exactly the kept rows of the input. |
| Output.RunOutput | process_clinvar_db.py:18-40 | A run over physical lines writes the header, then each kept row on its own line in input order, with as many fields as columns. |
| Output.InvalidFormatWritesNothing | process_clinvar_db.py:69-80 | A file whose first `#` line lacks the format token produces no output file. |
| Output.FileNameParts | process_clinvar_db.py:31 | When neither the build nor the date holds `_`, the file name splits on `_` into `clinvar`, the build, the date and `processed.txt.gz`. |
| Text.FourPieces | process_clinvar_db.py:31 | Four pieces without the separator, joined by it, split back into those four pieces. |
| Text.JoinFour | process_clinvar_db.py:31 | Joining four pieces writes them out with the separator between them. |
| Text.Split | process_clinvar_db.py:92 | `split` always returns at least one piece, and at least two exactly when the separator occurs. |
| Text.JoinSplit | process_clinvar_db.py:116 | Joining the pieces of a split with the separator gives back the string. |
| Text.SplitJoin | process_clinvar_db.py:116 | Splitting a join of separator-free pieces gives back the pieces. |
| Text.SplitPiecesAvoidSep | process_clinvar_db.py:92 | No piece of a split holds the separator. |
| Text.SplitPiecesAvoid | process_clinvar_db.py:92 | A character missing from the string is missing from every piece. |
| Text.JoinAvoids | process_clinvar_db.py:116 | A character in no part and not in the separator is not in the join. |
| Text.ContainsChar | process_clinvar_db.py:125-133 | Every character of a substring found with `in` occurs in the enclosing string. |
| Text.IndexOf | process_clinvar_db.py:82 | Finds the first occurrence of a character. |
| Text.IndexOfAfterPrefix | process_clinvar_db.py:82 | After a prefix free of the separator, the separator is first found right after that prefix. |
| Text.SecondPiece | process_clinvar_db.py:82 | `split(sep)[1]` exists exactly when the separator occurs, and holds no separator. |
| Text.SecondPieceBetween | process_clinvar_db.py:82 | `split('=')[1]` is the text between the first and the second `=`, or everything after the first `=` when there is no second. |
| Text.TrimStart | process_clinvar_db.py:82 | Removes only leading occurrences of the given character (a newline where `strip('\n')` uses it), and leaves none at the front. |
| Text.TrimEnd | process_clinvar_db.py:82 | Removes only trailing occurrences of the given character (a newline where `strip('\n')` uses it), and leaves none at the end. |
| Text.StripNewlinesShape | process_clinvar_db.py:92 | `strip('\n')` returns a slice of the string with only newlines cut from either end, and the result neither starts nor ends with a newline. |
| Text.StripPhysicalLine | process_clinvar_db.py:92 | Stripping a line read from the file leaves no newline. |
| Text.StripAvoids | process_clinvar_db.py:92 | Stripping adds no characters. |
| Text.ReplaceChar | process_clinvar_db.py:129 | `replace('_', ' ')` keeps the length and swaps exactly the matching characters. |
| Text.RemoveChar | process_clinvar_db.py:82 | `replace('-', '')` removes every dash and keeps every other character the same number of times. |
| Text.RemoveCharSingle | process_clinvar_db.py:82 | `replace('-', '')` on one character drops it exactly when it is a dash. |
| Text.RemoveCharInOrder | process_clinvar_db.py:82 | `replace('-', '')` works piece by piece: the result for `a + b` is that for `a` followed by that for `b`. With `Text.RemoveCharSingle` this fixes the result, so the remaining characters keep their order. |

## Left out

- Reading the input is not modelled: the gzip decompression, the file
  opening and the line iteration of `read_vcf_file` (lines 151-154). The
  model takes the file's lines, each ending in at most one newline, as a
  sequence.
- The line-counting prescan through `wc -l` and `get_gzip_app` (lines 48-51
  and 139-147), the progress bar it sizes (line 67) and the data-line
  counter (line 90) are not modelled. The model assumes the counted line
  total is at least the number of data lines read. That holds on Linux or
  macOS for a file that has a `#` line or ends in a newline. Otherwise
  `pbar.update(counter)` at line 118 raises ValueError once the counter
  passes the total, and no file is written. The model does not reproduce
  this: `Output.Run` writes a file there. Two such cases:
  - on another platform `get_gzip_app` returns `''`, so the count is 0 (or
    the shell command fails) and the first kept row aborts the run;
  - on Linux, a file with no `#` line whose last line is a kept data line
    without a trailing newline is counted one line short by `wc -l`.
- The console messages are not modelled; they do not change the output.
  They are at lines 10-11, 26, 28-29, 38, 41, 47, 65-66, 72, 75, 77-78, 83,
  87 and 119.
- `write_output` compresses the text with gzip and writes it to disk (line
  33). The model stops at the file name and the uncompressed text
  (`Output.WriteOutput`).
- The `out_buffer` list and the `retinfo` dictionary are updated in place in
  the source. The model returns them as values:
  - the caller always passes a fresh empty list or a fresh dictionary;
  - every early exit ends the process;
  - so a partly filled buffer is never observed.
- `sys.exit(1)`, the IndexError of `split('=')[1]` or of a missing column,
  and the KeyError of an unknown review status all end the process. The
  model represents them as `Err` values: `InvalidFormat`,
  `MissingHeaderValue`, `MissingColumn(k)` with `k` the first column index
  read, and `UnknownReviewStatus`. The process exit code and the traceback
  text are not modelled.
- `clinvar_star_rating` is a dictionary in the source. The model uses an
  association list in the same order, with lookup by first match.
  `Info.StarRatingRange` proves its keys distinct, so it is the same
  mapping.
- `Output.HeaderLine` is written as the tab-join of the eleven column names
  plus a newline. That is the literal header string of lines 34-35.
- Python 2 byte strings are not modelled: strings are sequences of
  characters.
- Where the code's behaviour is surprising, the model follows the code:
  - a line is a header when it contains `#` anywhere, not only at its start;
  - a row has eleven values;
  - when a directive is repeated, the last header line naming it wins;
  - a directive's value is the text between the first and the second `=`;
  - the format line itself is never read for `fileDate` or `reference`.
