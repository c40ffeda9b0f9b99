# ViewVir result processing, modelled in Dafny

ViewVir is a virus-discovery pipeline. This project models its two
result-processing components and proves properties about them.

1. **ORF header parsing and per-contig grouping** (`viewvir-module/bokehALL.py`).
   - `parse_orf_fastas` reads each FASTA description line written by the ORF caller:
     `contigA_ORF.3 [138-1149(-)] type:complete length:1011 frame:2 start:ATG stop:TAA`.
     The parent contig is cut at the first `_ORF.`. The location token is split into coordinates and strand.
     The `key:value` tokens become optional fields.
   - Each record is parsed, skipped (its location token has no `(`), or raises. A raise ends the whole parse.
   - Parsed ORFs are appended, in reading order, into a `contig -> code -> [ORF]` dict built in place.
   - `parse_nuc_fasta` maps record ids to sequences.
   - `create_graphics` walks the dict in insertion order and skips contigs without a nucleotide sequence.
     It emits one `<h3>` heading plus plot per (contig, code) pair.
2. **Hit-table pipeline** (`scripts/resultsNEW.py`). For each DIAMOND hit table:
   - left-join with the pooled NCBI taxonomy;
   - project to eleven columns;
   - keep rows with `QseqLength >= 500`;
   - de-duplicate;
   - select the RNA-virus rows;
   - write `QuerySeq`/`FullQueryLength` as a TSV and turn it into FASTA text;
   - derive the output file names;
   - build the plotting frame;
   - run `orfipy`, where a failure stops the script.

Modules:

- `Wrappers`: `Option` and `Result`.
- `PyStrings`: the Python string operations the code relies on.
  This covers `split()`, `split(c)`, `join`, `replace`, `strip()`, `in`, `int()` and `str()`.
- `Collections`: helpers on sequences.
  - `Filter` is a boolean-mask selection.
  - `Dedup` is `drop_duplicates`.
  - `ODict` is an insertion-ordered dict: a key sequence next to a map.
- `OrfHeader`: parsing one header.
- `OrfHeaderFormat`: the header layout the caller writes, and the round trip through the parser.
- `OrfGrouping`: `parse_orf_fastas` as nested loops over the dict.
- `GroupingFacts`: what the returned dict holds.
- `NucFasta`: `parse_nuc_fasta`.
- `FeatureReport`: `create_graphics`.
- `HitTable`: the table steps.
- `FastaExport`: the pre-FASTA TSV and the FASTA loop.
- `OutputNames`: the output paths.
- `Batch`: the per-file loop with the `orfipy` abort.

Python exceptions are the `PyError` values `IndexError` and `ValueError`.
A function that may raise returns a `Result`.
The record order of a FASTA file and the row order of a table are sequence order.
The rendered plot is an opaque function parameter `render`.

## Model

| member | source | states |
|---|---|---|
| OrfHeader.ContigId | viewvir-module/bokehALL.py:17-22 | The contig is a prefix of the ORF id with no `_ORF.` starting inside it. It differs from the id exactly when `_ORF.` starts right after it. |
| OrfHeader.SkipIff | viewvir-module/bokehALL.py:24-32 | A header is skipped exactly when it has a second token and that token, with `[` and `]` removed, has no `(`. |
| OrfHeader.ShortHeaderRaises | viewvir-module/bokehALL.py:15-24 | A header with fewer than two tokens raises `IndexError`. It is not skipped. |
| OrfHeader.MetaEntryCases | viewvir-module/bokehALL.py:36 | A metadata token becomes its key and value when it holds a `:`. Otherwise it raises `IndexError`. |
| OrfHeader.MetaDictLastWins | viewvir-module/bokehALL.py:35-36 | The metadata dict is built exactly when every token holds a `:`, and a failure is `IndexError`. Each key holds the value of its last token. |
| OrfHeader.ParsedFields | viewvir-module/bokehALL.py:35-51 | A parsed ORF has token 0 as `contig_full` and its contig, the record letters and the file's code. `type`/`frame`/`start`/`stop` are looked up, giving `None` when absent. `length` is `int` of its value, or 0 when absent. |
| OrfHeaderFormat.MetaDictOfPairs | viewvir-module/bokehALL.py:36 | Tokens written from plain key/value pairs are read back into a dict holding the last value of each key. |
| OrfHeaderFormat.ParseLocationOf | viewvir-module/bokehALL.py:26-30 | `a-b(strand)` is read as start `int(a)`, end `int(b)` and the strand. |
| OrfHeaderFormat.ParseFormatted | viewvir-module/bokehALL.py:14-51 | Parsing the header the ORF caller writes for a record gives that record back. This covers every field, including start, end and strand. |
| OrfGrouping.AppendOrf | viewvir-module/bokehALL.py:53-59 | Creating the missing contig entry and code list, then appending, gives `AddOrf`. `AddOrf` extends the ORF's own list by the ORF and changes nothing else. |
| OrfGrouping.ParseRecordInto | viewvir-module/bokehALL.py:14-59 | One pass of the inner loop body: a raise becomes the error, a skip leaves the dict unchanged, and a parse appends. |
| OrfGrouping.ParseOrfFastas | viewvir-module/bokehALL.py:10-61 | The nested loops over files and records return the dict of all parsed ORFs grouped in reading order, or the first exception. |
| OrfGrouping.FailureEndsGrouping | viewvir-module/bokehALL.py:12-51 | An exception at file `i`, record `j`, is the result of the whole call. |
| OrfGrouping.GroupItemsIsGroup | viewvir-module/bokehALL.py:12-59 | Building the dict record by record equals parsing every header first and then grouping the parsed ORFs. |
| GroupingFacts.GroupFacts | viewvir-module/bokehALL.py:53-59 | Contigs appear in order of first appearance, and codes in order of first appearance per contig. Each list is exactly the ORFs with that contig and code, in reading order. Every ORF is stored. |
| GroupingFacts.GroupedByKeys | viewvir-module/bokehALL.py:50-59 | The dict `parse_orf_fastas` returns has the `GroupFacts` properties for the ORFs parsed from all files. |
| GroupingFacts.BucketSound | viewvir-module/bokehALL.py:50-59 | A list holds only ORFs whose `contig` and `code` equal its keys, as a subsequence of the reading order. |
| GroupingFacts.BucketComplete | viewvir-module/bokehALL.py:53-59 | Every parsed ORF is in the list of its own contig and code. |
| GroupingFacts.StoredAddOrf | viewvir-module/bokehALL.py:59 | One append stores exactly one more record. |
| GroupingFacts.StoredGroup | viewvir-module/bokehALL.py:53-59 | The lists hold as many records as were parsed: none lost, none duplicated. |
| GroupingFacts.ParseItemsOutcome | viewvir-module/bokehALL.py:12-51 | Parsing succeeds exactly when no record raises. Then parsed plus skipped records equal all records. Otherwise the error is that of the first raising record. |
| GroupingFacts.StoredCount | viewvir-module/bokehALL.py:12-59 | Stored records plus skipped records equal the records read. |
| NucFasta.RecordId | viewvir-module/bokehALL.py:67 | A record id is the first word of the description: a whitespace-free prefix of the description after its leading whitespace, ending where whitespace or the text ends. It is empty exactly when the description has no token. |
| NucFasta.ParseNucFasta | viewvir-module/bokehALL.py:64-68 | The loop builds `NucMap`: each id maps to a sequence, with later records overwriting earlier ones. |
| NucFasta.NucKeys | viewvir-module/bokehALL.py:65-67 | An id is a key exactly when some record has that id. |
| NucFasta.NucLastWins | viewvir-module/bokehALL.py:65-67 | An id maps to the sequence of the last record with that id. |
| FeatureReport.OptionText | viewvir-module/bokehALL.py:84 | A missing codon is shown as `None` in the label, and a present one as itself. |
| FeatureReport.FeatureOf | viewvir-module/bokehALL.py:82-85 | The feature spans `[start, end]`. Strand `+` gives direction 1 and `#ffcccc`, and any other strand gives -1 and `#ccccff`. |
| FeatureReport.DrawFeatures | viewvir-module/bokehALL.py:80-86 | The loop makes one feature per ORF, in list order. |
| FeatureReport.DrawContig | viewvir-module/bokehALL.py:79-94 | For a contig with a sequence, there is one fragment per code in insertion order. |
| FeatureReport.CreateGraphics | viewvir-module/bokehALL.py:71-94 | The loops append exactly the fragments of the drawn pairs, in order. |
| FeatureReport.FilterCodePairs | viewvir-module/bokehALL.py:74-79 | The pairs of one contig are all kept when the contig has a sequence, and all dropped otherwise. |
| FeatureReport.AllPairsMembership | viewvir-module/bokehALL.py:74-79 | A (contig, code) pair is visited exactly when the contig is in the dict and the code is one of its codes. |
| FeatureReport.AllPairsDistinct | viewvir-module/bokehALL.py:74-79 | No (contig, code) pair is visited twice. |
| FeatureReport.DrawnPairsExact | viewvir-module/bokehALL.py:74-94 | A pair gets a fragment exactly when its contig is in the dict and in `nuc_data` and its code is listed. No pair gets two fragments, and the order is the insertion order. |
| FeatureReport.FragmentContent | viewvir-module/bokehALL.py:79-94 | Fragment `j` is `<h3>Contig: c - Code: k</h3>` followed by the plot of the pair's ORFs. The plot is drawn on a record of length `len(nuc_data[c])` and titled `Contig: c - Code: k`. |
| HitTable.AllVirus | scripts/resultsNEW.py:17 | The pooled taxonomy is the name list followed by the species list, with nothing removed. |
| HitTable.JoinOneRows | scripts/resultsNEW.py:37 | A hit gives one row per taxonomy row of its species, with that row's composition. The matches are a subsequence of the taxonomy list, so they keep its order, and each matching taxonomy row occurs among them exactly as often as in the list, duplicates included. A hit whose species is not listed gives one row with no composition. |
| HitTable.PooledFanOut | scripts/resultsNEW.py:17-37 | A species listed in both NCBI lists fans out over both. |
| HitTable.LeftJoinConcat | scripts/resultsNEW.py:37 | Merged rows come hit by hit, in hit order. |
| HitTable.LeftJoinKeepsHits | scripts/resultsNEW.py:37 | The left join loses no hit, and each merged row comes from a hit. |
| HitTable.ProjectDropsOthers | scripts/resultsNEW.py:40-42 | The projection ignores every column of the hit other than the ten it keeps, plus `Genome.composition`. |
| HitTable.TableFacts | scripts/resultsNEW.py:45-48 | Every row has `QseqLength >= 500`. Rows are exactly the long-enough projected rows, with no two equal. They are a subsequence of the merged rows, in first-occurrence order, and de-duplicating again changes nothing. |
| HitTable.RnaTableFacts | scripts/resultsNEW.py:66-67 | The RNA table is exactly the rows whose composition is present and one of the seven names, in order. A missing composition is never selected. The second de-duplication is a no-op. |
| HitTable.PlotFrameFacts | scripts/resultsNEW.py:87-88 | There is one plotting row per row. The label is `Species -> SubjTitle`. A missing composition becomes `NA`, and present values are unchanged. The other ten cells are copied from the row. |
| HitTable.FilterBeforeFill | scripts/resultsNEW.py:66-88 | A row without composition is not in the RNA table, yet is shown as `NA`, one of the seven names. |
| FastaExport.WriteFasta | scripts/resultsNEW.py:82-84 | The loop writes `FastaText` of the lines read. |
| FastaExport.ReadBack | scripts/resultsNEW.py:75-81 | Reading `_pre_fasta.tsv` back gives the header line, then one line per row in order. This holds when no query id has a line feed. |
| FastaExport.EntryOfRow | scripts/resultsNEW.py:83-84 | A data line with a plain id becomes `>id`, line feed, `FullQueryLength`, line feed. |
| FastaExport.EntryOfEmptyId | scripts/resultsNEW.py:83-84 | With an empty id, `strip()` also removes the tab, and the entry is the single line `>length`. |
| FastaExport.FastaOfRows | scripts/resultsNEW.py:75-84 | The header is skipped, and each RNA row gives `>QuerySeq` and `FullQueryLength` in row order. That is two lines per row. |
| OutputNames.Basename | scripts/resultsNEW.py:51 | The base name is the part of the path after its last `/`: a suffix of the path that contains no `/` and is preceded by a `/` unless it is the whole path. |
| OutputNames.NormalNames | scripts/resultsNEW.py:51-80 | For `<stem>.fasta_merged.fasta.tsv`, the folder is `ViewVir-results/<stem>`. The outputs are `<stem>_output.tsv`, `_bubblePlt.html`, `_RNA-virus.tsv`, `_pre_fasta.tsv` and `_RNA-virus.fasta` inside it, and the sample name is `<stem>`. |
| OutputNames.NamesCollide | scripts/resultsNEW.py:54-74 | When the input name lacks the suffix, all four table and plot outputs are one and the same path. |
| Batch.ProcessSample | scripts/resultsNEW.py:34-88 | Processing a sample gives its table, RNA table, pre-FASTA text, FASTA text, plotting frame and paths. |
| Batch.RunOrfipy | scripts/resultsNEW.py:101-110 | The `orfipy` loop succeeds exactly when no run fails. |
| Batch.RunBatch | scripts/resultsNEW.py:31-110 | The per-file loop gives `BatchOf` of the samples against the pooled taxonomy. |
| Batch.BatchOutcome | scripts/resultsNEW.py:31-110 | The loop completes exactly when every `orfipy` run succeeds. An aborted loop stops right after the first sample with a failing run. |
| Batch.BatchOutputs | scripts/resultsNEW.py:31-88 | The samples handled are a prefix of the listing, each with its own outputs. |
| Batch.SampleFacts | scripts/resultsNEW.py:66-84 | Within one sample, the RNA rows are the table rows with RNA composition. The plot has one row per table row. With plain ids, the FASTA text has two lines per RNA row. |

## Left out

- File and directory I/O is not modelled: reading and writing CSV/TSV files, listing and creating directories, and deleting `.log` files. Tables come in as sequences of rows and text as strings.
- The FASTA reader is not modelled: records come in as `(description, sequence)` pairs.
- pandas' CSV reading is not modelled, including its parsing of strings such as `NA` into missing values. So is the CSV quoting of cells that hold a tab, a quote or a line feed.
- The merge's matching of missing species keys is not modelled: species are plain strings.
- Universal-newline translation of `\r` when the pre-FASTA file is read back is not modelled.
- Floating-point columns are `real`. `FullQueryLength` is an integer.
- The column order of `outrasCols` (line 40) is not modelled: it is computed and never used.
- Plotting is not modelled: the bokeh, dna_features_viewer and plotly rendering, `file_html`, and the HTML page template and its file write. The rendered plot is the parameter `render`.
- The debug `print` calls are not modelled.
- `orfipy` itself is not modelled: its exit statuses are given with each sample. The order of the folder listing that drives its runs is not modelled either.
- viewvir-module/ViewVir.py and the `main` of bokehALL.py are not part of this model.
- `int()` of non-ASCII digits is not modelled: `ParseInt` accepts ASCII digits, an optional sign, underscores between digits and surrounding whitespace.
- The worked header `contigA_ORF.3 [138-1149(-)] ...` is not evaluated literally. `OrfHeaderFormat.ParseFormatted` proves the round trip for every header of that layout, this one included.
- FastaExport.FastaOfRows: the two-lines-per-row layout is proved for plain query ids only (non-empty, no leading whitespace, no tab, no line feed). `FastaExport.EntryOfEmptyId` shows the single-line entry of an empty id.
- OutputNames.NormalNames: requires a non-empty stem in which the suffixes do not occur early. For a file named exactly `.fasta_merged.fasta.tsv`, `os.path.join` with the folder `ViewVir-results/` adds no second `/`.
- FeatureReport.CreateGraphics: requires both levels of the dict to be consistent insertion-ordered dicts, which every Python dict is.

Where the code and its description differ, the model follows the code:

- The RNA filter (line 66) runs before `fillna("NA")` (line 88). A row with no composition is therefore not an RNA row, though the plot shows it as `NA`.
- `_output.tsv` is written before `fillna`, so it may hold missing compositions.
- An `orfipy` failure (`check=True`) ends the whole script, not just the sample.
- A header with a single token raises `IndexError` instead of being skipped.
- The FASTA sequence line is the `FullQueryLength` value.
- When the suffix is absent, the four output names coincide.
