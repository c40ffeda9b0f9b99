/**
 * The output paths of one sample (scripts/resultsNEW.py, lines 51-60, 70,
 * 74 and 79-80): each is the input file name with the suffix
 * `.fasta_merged.fasta.tsv` replaced, inside a folder named the same way.
 */
module OutputNames {
  import opened PyStrings

  const OutputFolder: string := "ViewVir-results"
  const MergedSuffix: string := ".fasta_merged.fasta.tsv"
  const PreFastaSuffix: string := "_pre_fasta.tsv"

  /** `os.path.join(a, b)` for two parts. */
  function Join(a: string, b: string): string {
    if b != [] && b[0] == '/' then b
    else if a == [] || a[|a| - 1] == '/' then a + b
    else a + "/" + b
  }

  /** `os.path.basename(p)`: what follows the last `/`, or all of `p` when it has none. */
  function Basename(p: string): (b: string)
    ensures '/' !in b
    ensures |b| <= |p| && p[|p| - |b|..] == b
    ensures |b| < |p| ==> p[|p| - |b| - 1] == '/'
  {
    if p == [] || p[|p| - 1] == '/' then [] else Basename(p[..|p| - 1]) + [p[|p| - 1]]
  }

  /** The paths a sample's step writes to. */
  datatype SampleFiles = SampleFiles(
    folder: string,
    outputTsv: string,
    bubblePlot: string,
    rnaTsv: string,
    preFasta: string,
    sample: string,
    fasta: string)

  /** Lines 51-60, 70, 74 and 79-80 for the input path `inputPath`. */
  function FilesFor(inputPath: string): SampleFiles {
    FilesOfName(Basename(inputPath))
  }

  /** The paths derived from the input's base name `name`. */
  function FilesOfName(name: string): SampleFiles {
    var folder := Join(OutputFolder, ReplaceAll(name, MergedSuffix, ""));
    var preFasta := Join(folder, ReplaceAll(name, MergedSuffix, PreFastaSuffix));
    var sample := ReplaceAll(Basename(preFasta), PreFastaSuffix, "");
    SampleFiles(
      folder,
      Join(folder, ReplaceAll(name, MergedSuffix, "_output.tsv")),
      Join(folder, ReplaceAll(name, MergedSuffix, "_bubblePlt.html")),
      Join(folder, ReplaceAll(name, MergedSuffix, "_RNA-virus.tsv")),
      preFasta,
      sample,
      folder + "/" + sample + "_RNA-virus.fasta")
  }

  /** A name without `/` is its own base name, also after a directory. */
  lemma {:induction false} BasenameOfName(dir: string, name: string)
    requires '/' !in name
    ensures Basename(dir + "/" + name) == name
  {
    var p := dir + "/" + name;
    if name == [] {
      assert p[|p| - 1] == '/';
    } else {
      var front := name[..|name| - 1];
      assert p[..|p| - 1] == dir + "/" + front;
      BasenameOfName(dir, front);
      assert name == front + [name[|name| - 1]];
    }
  }

  /**
   * For an input named `<stem>.fasta_merged.fasta.tsv`, the folder is
   * `ViewVir-results/<stem>`, the tables and the plot are `<stem>` with
   * their own suffixes inside it, the sample name is `<stem>` and the FASTA
   * file is `<stem>_RNA-virus.fasta` inside the folder.
   */
  lemma NormalNames(inputPath: string, stem: string)
    requires stem != []
    requires Basename(inputPath) == stem + MergedSuffix
    requires forall j :: 0 <= j < |stem| ==> !Occurs(stem + MergedSuffix, MergedSuffix, j)
    requires forall j :: 0 <= j < |stem| ==> !Occurs(stem + PreFastaSuffix, PreFastaSuffix, j)
    ensures var f := FilesFor(inputPath);
      && f.folder == OutputFolder + "/" + stem
      && f.outputTsv == f.folder + "/" + stem + "_output.tsv"
      && f.bubblePlot == f.folder + "/" + stem + "_bubblePlt.html"
      && f.rnaTsv == f.folder + "/" + stem + "_RNA-virus.tsv"
      && f.preFasta == f.folder + "/" + stem + PreFastaSuffix
      && f.sample == stem
      && f.fasta == f.folder + "/" + stem + "_RNA-virus.fasta"
  {
    var name := stem + MergedSuffix;
    assert '/' !in stem by {
      assert forall i :: 0 <= i < |stem| ==> stem[i] == name[i];
    }
    NormalNamesOf(stem);
  }

  /** `NormalNames` for the base name itself. */
  lemma NormalNamesOf(stem: string)
    requires stem != [] && '/' !in stem
    requires forall j :: 0 <= j < |stem| ==> !Occurs(stem + MergedSuffix, MergedSuffix, j)
    requires forall j :: 0 <= j < |stem| ==> !Occurs(stem + PreFastaSuffix, PreFastaSuffix, j)
    ensures var f := FilesOfName(stem + MergedSuffix);
      && f.folder == OutputFolder + "/" + stem
      && f.outputTsv == f.folder + "/" + stem + "_output.tsv"
      && f.bubblePlot == f.folder + "/" + stem + "_bubblePlt.html"
      && f.rnaTsv == f.folder + "/" + stem + "_RNA-virus.tsv"
      && f.preFasta == f.folder + "/" + stem + PreFastaSuffix
      && f.sample == stem
      && f.fasta == f.folder + "/" + stem + "_RNA-virus.fasta"
  {
    var folder := OutputFolder + "/" + stem;
    assert OutputFolder[|OutputFolder| - 1] == 's';
    InFolder(OutputFolder, stem, "");
    assert stem + "" == stem;
    assert folder[|folder| - 1] == stem[|stem| - 1];
    InFolder(folder, stem, "_output.tsv");
    InFolder(folder, stem, "_bubblePlt.html");
    InFolder(folder, stem, "_RNA-virus.tsv");
    InFolder(folder, stem, PreFastaSuffix);
    SampleOf(folder, stem);
  }

  /** The sample name read back from the `_pre_fasta.tsv` path is the stem. */
  lemma SampleOf(folder: string, stem: string)
    requires '/' !in stem
    requires forall j :: 0 <= j < |stem| ==> !Occurs(stem + PreFastaSuffix, PreFastaSuffix, j)
    ensures ReplaceAll(Basename(folder + "/" + stem + PreFastaSuffix), PreFastaSuffix, "") == stem
  {
    var name := stem + PreFastaSuffix;
    assert folder + "/" + stem + PreFastaSuffix == folder + "/" + name;
    assert '/' !in PreFastaSuffix;
    BasenameOfName(folder, name);
    ReplaceAtEnd(stem, PreFastaSuffix, "");
    assert stem + "" == stem;
  }

  /** A renamed file inside a folder whose name does not end in `/`. */
  lemma InFolder(folder: string, stem: string, rep: string)
    requires folder != [] && folder[|folder| - 1] != '/'
    requires stem != [] && stem[0] != '/'
    requires forall j :: 0 <= j < |stem| ==> !Occurs(stem + MergedSuffix, MergedSuffix, j)
    ensures Join(folder, ReplaceAll(stem + MergedSuffix, MergedSuffix, rep)) == folder + "/" + stem + rep
  {
    SwapSuffix(stem, rep);
    assert (stem + rep)[0] == stem[0];
  }

  /** The merged suffix at the end of a name is replaced there and nowhere else. */
  lemma SwapSuffix(stem: string, rep: string)
    requires forall j :: 0 <= j < |stem| ==> !Occurs(stem + MergedSuffix, MergedSuffix, j)
    ensures ReplaceAll(stem + MergedSuffix, MergedSuffix, rep) == stem + rep
  {
    ReplaceAtEnd(stem, MergedSuffix, rep);
  }

  /**
   * An input whose name lacks the suffix keeps its name unchanged in every
   * replacement: the four output files of lines 58, 60, 70 and 74 are then
   * one and the same path, each write replacing the previous one.
   */
  lemma NamesCollide(inputPath: string)
    requires forall j :: !Occurs(Basename(inputPath), MergedSuffix, j)
    ensures var f := FilesFor(inputPath);
      && f.folder == Join(OutputFolder, Basename(inputPath))
      && f.outputTsv == Join(f.folder, Basename(inputPath))
      && f.outputTsv == f.bubblePlot == f.rnaTsv == f.preFasta
  {
    var name := Basename(inputPath);
    ReplaceAbsent(name, MergedSuffix, "");
    ReplaceAbsent(name, MergedSuffix, "_output.tsv");
    ReplaceAbsent(name, MergedSuffix, "_bubblePlt.html");
    ReplaceAbsent(name, MergedSuffix, "_RNA-virus.tsv");
    ReplaceAbsent(name, MergedSuffix, PreFastaSuffix);
  }
}
