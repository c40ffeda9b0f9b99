/**
 * The per-file loop of scripts/resultsNEW.py (lines 31-115): for every hit
 * table the sample's tables, FASTA text, plot frame and output paths are
 * derived, then `orfipy` is run on the sample's FASTA files. `orfipy` is an
 * outside program; its exit statuses are part of the sample here, and the
 * first failure ends the whole run (`check=True`, line 110).
 */
module Batch {
  import opened PyStrings
  import opened Collections
  import opened HitTable
  import opened FastaExport
  import opened OutputNames

  /** One input hit table: its path, its rows, and the exit status of each `orfipy` run on its folder. */
  datatype Sample = Sample(path: string, hits: seq<Hit>, orfipyRuns: seq<bool>)

  /** What one pass of the loop derives for a sample. */
  datatype SampleOutput = SampleOutput(
    files: SampleFiles,
    table: seq<Row>,
    rnaTable: seq<Row>,
    preFasta: string,
    fasta: string,
    plot: seq<PlotRow>)

  /** The samples handled, and whether the loop reached its end or an `orfipy` failure stopped it. */
  datatype BatchResult = Completed(outputs: seq<SampleOutput>) | Aborted(outputs: seq<SampleOutput>)

  /** Lines 34-88 for one sample, against the pooled taxonomy `taxa`. */
  function SampleOutputOf(s: Sample, taxa: seq<Taxon>): SampleOutput {
    var table := Table(s.hits, taxa);
    var rna := RnaTable(table);
    var pre := PreFastaText(rna);
    SampleOutput(FilesFor(s.path), table, rna, pre, FastaText(ReadLines(pre)), PlotFrame(table))
  }

  predicate OrfipyOk(s: Sample) {
    false !in s.orfipyRuns
  }

  /** The loop of lines 31-115 over the samples, in listing order, each sample turned into its outputs by `process`. */
  function Run(samples: seq<Sample>, process: Sample -> SampleOutput): BatchResult {
    if samples == [] then Completed([])
    else
      match Run(samples[..|samples| - 1], process)
      case Aborted(outs) => Aborted(outs)
      case Completed(outs) =>
        var s := samples[|samples| - 1];
        var outs' := outs + [process(s)];
        if OrfipyOk(s) then Completed(outs') else Aborted(outs')
  }

  /** The processing step of lines 34-88 against the pooled taxonomy `taxa`. */
  function ProcessWith(taxa: seq<Taxon>): Sample -> SampleOutput {
    (s: Sample) => SampleOutputOf(s, taxa)
  }

  /** The whole loop against the pooled taxonomy `taxa`. */
  function BatchOf(samples: seq<Sample>, taxa: seq<Taxon>): BatchResult {
    Run(samples, ProcessWith(taxa))
  }

  /** Lines 34-88 for one sample, with the FASTA lines written by the loop of lines 82-84. */
  method ProcessSample(s: Sample, taxa: seq<Taxon>) returns (o: SampleOutput)
    ensures o == SampleOutputOf(s, taxa)
  {
    var table := Table(s.hits, taxa);
    var rna := RnaTable(table);
    var pre := PreFastaText(rna);
    var fasta := WriteFasta(ReadLines(pre));
    o := SampleOutput(FilesFor(s.path), table, rna, pre, fasta, PlotFrame(table));
  }

  /**
   * The outer loop: each sample is processed, then `orfipy` runs once per
   * FASTA file of its folder; the first failing run ends the script.
   */
  method RunBatch(samples: seq<Sample>, ncbiNames: seq<Taxon>, ncbiSpecie: seq<Taxon>) returns (r: BatchResult)
    ensures r == BatchOf(samples, AllVirus(ncbiNames, ncbiSpecie))
  {
    var taxa := AllVirus(ncbiNames, ncbiSpecie);
    ghost var process := ProcessWith(taxa);
    var outs: seq<SampleOutput> := [];
    var i := 0;
    while i < |samples|
      invariant 0 <= i <= |samples|
      invariant Run(samples[..i], process) == Completed(outs)
    {
      var o := ProcessSample(samples[i], taxa);
      var ok := RunOrfipy(samples[i].orfipyRuns);
      RunStep(samples, i, process, outs);
      outs := outs + [o];
      if !ok {
        RunStops(samples, i + 1, process, outs);
        return Aborted(outs);
      }
      i := i + 1;
    }
    assert samples[..i] == samples;
    r := Completed(outs);
  }

  /** The loop of lines 101-110: `orfipy` on each FASTA file, stopping at the first failure. */
  method RunOrfipy(runs: seq<bool>) returns (ok: bool)
    ensures ok <==> false !in runs
  {
    var k := 0;
    while k < |runs|
      invariant 0 <= k <= |runs|
      invariant false !in runs[..k]
    {
      if !runs[k] {
        return false;
      }
      assert runs[..k + 1] == runs[..k] + [runs[k]];
      k := k + 1;
    }
    assert runs[..k] == runs;
    return true;
  }

  lemma RunStep(samples: seq<Sample>, i: nat, process: Sample -> SampleOutput, outs: seq<SampleOutput>)
    requires i < |samples| && Run(samples[..i], process) == Completed(outs)
    ensures Run(samples[..i + 1], process) ==
      if OrfipyOk(samples[i]) then Completed(outs + [process(samples[i])]) else Aborted(outs + [process(samples[i])])
  {
    assert samples[..i + 1][..i] == samples[..i];
  }

  /** Once the loop has stopped, the later samples change nothing. */
  lemma {:induction false} RunStops(samples: seq<Sample>, i: nat, process: Sample -> SampleOutput, outs: seq<SampleOutput>)
    requires i <= |samples| && Run(samples[..i], process) == Aborted(outs)
    ensures Run(samples, process) == Aborted(outs)
    decreases |samples| - i
  {
    if i == |samples| {
      assert samples[..i] == samples;
    } else {
      assert samples[..i + 1][..i] == samples[..i];
      RunStops(samples, i + 1, process, outs);
    }
  }

  /** `Run` for any processing step: see `BatchOutcome`. */
  lemma {:induction false} RunOutcome(samples: seq<Sample>, process: Sample -> SampleOutput)
    ensures var r := Run(samples, process);
      && (r.Completed? <==> forall i :: 0 <= i < |samples| ==> OrfipyOk(samples[i]))
      && |r.outputs| <= |samples|
      && (forall i :: 0 <= i < |r.outputs| ==> r.outputs[i] == process(samples[i]))
      && (r.Completed? ==> |r.outputs| == |samples|)
      && (r.Aborted? ==>
            (0 < |r.outputs| && !OrfipyOk(samples[|r.outputs| - 1])
             && forall i :: 0 <= i < |r.outputs| - 1 ==> OrfipyOk(samples[i])))
  {
    if samples != [] {
      var front := samples[..|samples| - 1];
      RunOutcome(front, process);
      assert forall i :: 0 <= i < |front| ==> front[i] == samples[i];
    }
  }

  /**
   * The run completes exactly when every `orfipy` run succeeds, after all
   * samples; an aborted run stops right after the first sample with a
   * failing run.
   */
  lemma BatchOutcome(samples: seq<Sample>, taxa: seq<Taxon>)
    ensures var r := BatchOf(samples, taxa);
      && (r.Completed? <==> forall i :: 0 <= i < |samples| ==> OrfipyOk(samples[i]))
      && |r.outputs| <= |samples|
      && (r.Completed? ==> |r.outputs| == |samples|)
      && (r.Aborted? ==>
            (0 < |r.outputs| && !OrfipyOk(samples[|r.outputs| - 1])
             && forall i :: 0 <= i < |r.outputs| - 1 ==> OrfipyOk(samples[i])))
  {
    RunOutcome(samples, ProcessWith(taxa));
  }

  /** The samples handled are a prefix of the listing, each with its own outputs. */
  lemma BatchOutputs(samples: seq<Sample>, taxa: seq<Taxon>)
    ensures var r := BatchOf(samples, taxa);
      && |r.outputs| <= |samples|
      && forall i :: 0 <= i < |r.outputs| ==> r.outputs[i] == SampleOutputOf(samples[i], taxa)
  {
    RunOutcome(samples, ProcessWith(taxa));
  }

  /**
   * What one sample's pass yields: the RNA table lists the rows of the full
   * table with an RNA composition, the plot frame has one row per table row,
   * and with plain query ids the FASTA text has `>id` and the length for each
   * RNA row, two lines per row.
   */
  lemma SampleFacts(s: Sample, taxa: seq<Taxon>)
    ensures var o := SampleOutputOf(s, taxa);
      && IsSubseq(o.rnaTable, o.table)
      && (forall r :: r in o.rnaTable <==> r in o.table && IsRna(r))
      && |o.plot| == |o.table|
      && ((forall i :: 0 <= i < |o.rnaTable| ==> PlainId(o.rnaTable[i].querySeq)) ==>
            o.fasta == ConcatMap(o.rnaTable, FastaRecord)
            && CountChar(o.fasta, '\n') == 2 * |o.rnaTable|)
  {
    var o := SampleOutputOf(s, taxa);
    RnaTableFacts(s.hits, taxa);
    PlotFrameFacts(o.table);
    if forall i :: 0 <= i < |o.rnaTable| ==> PlainId(o.rnaTable[i].querySeq) {
      FastaOfRows(o.rnaTable);
    }
  }
}
