/**
 * `create_graphics` (viewvir-module/bokehALL.py, lines 71-97): for every
 * contig of the grouped ORFs that the nucleotide map knows, in insertion
 * order, and for every genetic code of that contig, in insertion order, one
 * HTML fragment: a title followed by the plot of the contig's ORFs. The
 * plotting library is the parameter `render`; the page written around the
 * fragments is not part of this model.
 */
module FeatureReport {
  import opened Wrappers
  import opened PyStrings
  import opened Collections
  import opened OrfHeader
  import opened OrfGrouping

  /** A `GraphicFeature`: a span on the contig, a direction, a colour and a label. */
  datatype Feature = Feature(start: int, end: int, strand: int, color: string, caption: string)

  /** A `GraphicRecord`: the contig length and the features drawn on it. */
  datatype GraphicRecord = GraphicRecord(sequenceLength: nat, features: seq<Feature>)

  /** `f"{x}"` of an optional string: the text itself, or `None`. */
  function OptionText(x: Option<string>): (t: string)
    ensures x.Some? ==> t == x.value
    ensures x.None? ==> t == "None"
  {
    match x
    case Some(s) => s
    case None => "None"
  }

  /** The label f-string of line 84. */
  function FeatureLabel(o: OrfRecord): string {
    o.contigFull + ": " + IntToString(o.start) + "-" + IntToString(o.end) + " (" + o.strand + ") \n Codons: start "
      + OptionText(o.startCodon) + ", stop " + OptionText(o.stopCodon)
  }

  /** Lines 82-85: strand `+` is drawn forward in red, any other strand backward in blue. */
  function FeatureOf(o: OrfRecord): (f: Feature)
    ensures f.start == o.start && f.end == o.end && f.caption == FeatureLabel(o)
    ensures o.strand == "+" ==> f.strand == 1 && f.color == "#ffcccc"
    ensures o.strand != "+" ==> f.strand == -1 && f.color == "#ccccff"
  {
    var strand := if o.strand == "+" then 1 else -1;
    var color := if strand == 1 then "#ffcccc" else "#ccccff";
    Feature(o.start, o.end, strand, color, FeatureLabel(o))
  }

  /** The title handed to `file_html` (line 91). */
  function PlotTitle(contig: string, code: string): string {
    "Contig: " + contig + " - Code: " + code
  }

  /** The heading put in front of each plot (line 93). */
  function Heading(contig: string, code: string): string {
    "<h3>Contig: " + contig + " - Code: " + code + "</h3>"
  }

  /** Both levels of the grouping are consistent dicts. */
  predicate WellFormed(g: Grouping) {
    ValidDict(g) && forall c :: c in g.items ==> ValidDict(g.items[c])
  }

  /** The (contig, code) pairs of contig `c` for the codes `ks`, in order. */
  function CodePairs(c: string, ks: seq<string>): (r: seq<(string, string)>)
    ensures |r| == |ks|
    ensures forall j :: 0 <= j < |ks| ==> r[j] == (c, ks[j])
  {
    if ks == [] then [] else CodePairs(c, ks[..|ks| - 1]) + [(c, ks[|ks| - 1])]
  }

  /** Every (contig, code) pair of the contigs `cs`, both levels in insertion order. */
  function AllPairs(g: Grouping, cs: seq<string>): seq<(string, string)> {
    if cs == [] then []
    else
      var c := cs[|cs| - 1];
      AllPairs(g, cs[..|cs| - 1]) + (if c in g.items then CodePairs(c, g.items[c].keys) else [])
  }

  /** The pair's contig is in the nucleotide map. */
  function InNuc(nuc: map<string, string>): ((string, string)) -> bool {
    (p: (string, string)) => p.0 in nuc
  }

  /** The pairs that get a fragment: all pairs in insertion order, without the contigs `nuc` lacks (lines 74-79). */
  function DrawnPairs(g: Grouping, nuc: map<string, string>): seq<(string, string)> {
    Filter(AllPairs(g, g.keys), InNuc(nuc))
  }

  /** The fragment of one pair: heading, then the plot of its ORFs on a record as long as the contig (lines 80-94). */
  function FragmentFor(g: Grouping, nuc: map<string, string>, render: (GraphicRecord, string) -> string,
                       p: (string, string)): string {
    var (contig, code) := p;
    var orfs := if contig in g.items && code in g.items[contig].items then g.items[contig].items[code] else [];
    var length := if contig in nuc then |nuc[contig]| else 0;
    Heading(contig, code) + render(GraphicRecord(length, Map(orfs, FeatureOf)), PlotTitle(contig, code))
  }

  /** The fragments of the pairs, in order. */
  function Fragments(g: Grouping, nuc: map<string, string>, render: (GraphicRecord, string) -> string,
                     pairs: seq<(string, string)>): (r: seq<string>)
    ensures |r| == |pairs|
    ensures forall j :: 0 <= j < |pairs| ==> r[j] == FragmentFor(g, nuc, render, pairs[j])
  {
    if pairs == [] then [] else Fragments(g, nuc, render, pairs[..|pairs| - 1]) + [FragmentFor(g, nuc, render, pairs[|pairs| - 1])]
  }

  /** The loop of lines 81-86. */
  method DrawFeatures(orfs: seq<OrfRecord>) returns (features: seq<Feature>)
    ensures features == Map(orfs, FeatureOf)
  {
    features := [];
    var n := 0;
    while n < |orfs|
      invariant 0 <= n <= |orfs|
      invariant features == Map(orfs[..n], FeatureOf)
    {
      features := features + [FeatureOf(orfs[n])];
      n := n + 1;
    }
    assert orfs[..n] == orfs;
  }

  lemma AllPairsStep(g: Grouping, cs: seq<string>, i: nat)
    requires i < |cs|
    ensures AllPairs(g, cs[..i + 1]) ==
      AllPairs(g, cs[..i]) + (if cs[i] in g.items then CodePairs(cs[i], g.items[cs[i]].keys) else [])
  {
    assert cs[..i + 1][..i] == cs[..i];
  }

  lemma CodePairsStep(c: string, ks: seq<string>, j: nat)
    requires j < |ks|
    ensures CodePairs(c, ks[..j + 1]) == CodePairs(c, ks[..j]) + [(c, ks[j])]
  {
    assert ks[..j + 1][..j] == ks[..j];
  }

  /** The pairs of one contig are kept together or dropped together. */
  lemma {:induction false} FilterCodePairs(c: string, ks: seq<string>, nuc: map<string, string>)
    ensures Filter(CodePairs(c, ks), InNuc(nuc)) == if c in nuc then CodePairs(c, ks) else []
  {
    if ks != [] {
      var front := ks[..|ks| - 1];
      FilterCodePairs(c, front, nuc);
      FilterConcat(CodePairs(c, front), [(c, ks[|ks| - 1])], InNuc(nuc));
      assert Filter([(c, ks[|ks| - 1])], InNuc(nuc)) == if c in nuc then [(c, ks[|ks| - 1])] else [];
    }
  }

  lemma FragmentsConcat(g: Grouping, nuc: map<string, string>, render: (GraphicRecord, string) -> string,
                        a: seq<(string, string)>, b: seq<(string, string)>)
    ensures Fragments(g, nuc, render, a + b) == Fragments(g, nuc, render, a) + Fragments(g, nuc, render, b)
  {
    var l, r := Fragments(g, nuc, render, a + b), Fragments(g, nuc, render, a) + Fragments(g, nuc, render, b);
    assert |l| == |r|;
    forall j | 0 <= j < |l| ensures l[j] == r[j] {
      if j < |a| {
        assert (a + b)[j] == a[j];
      } else {
        assert (a + b)[j] == b[j - |a|];
      }
    }
  }

  /** The pairs drawn once the contigs `g.keys[..i + 1]` have been visited. */
  lemma DrawnStep(g: Grouping, nuc: map<string, string>, i: nat)
    requires i < |g.keys| && g.keys[i] in g.items
    ensures Filter(AllPairs(g, g.keys[..i + 1]), InNuc(nuc)) ==
      Filter(AllPairs(g, g.keys[..i]), InNuc(nuc)) +
      (if g.keys[i] in nuc then CodePairs(g.keys[i], g.items[g.keys[i]].keys) else [])
  {
    var c := g.keys[i];
    AllPairsStep(g, g.keys, i);
    FilterConcat(AllPairs(g, g.keys[..i]), CodePairs(c, g.items[c].keys), InNuc(nuc));
    FilterCodePairs(c, g.items[c].keys, nuc);
  }

  /** The inner loop of lines 79-94 for one contig present in `nuc`. */
  method DrawContig(g: Grouping, nuc: map<string, string>, render: (GraphicRecord, string) -> string, contig: string)
    returns (html: seq<string>)
    requires WellFormed(g) && contig in g.items && contig in nuc
    ensures html == Fragments(g, nuc, render, CodePairs(contig, g.items[contig].keys))
  {
    var orfsByCode := g.items[contig];
    html := [];
    var j := 0;
    while j < |orfsByCode.keys|
      invariant 0 <= j <= |orfsByCode.keys|
      invariant html == Fragments(g, nuc, render, CodePairs(contig, orfsByCode.keys[..j]))
    {
      var code := orfsByCode.keys[j];
      var orfs := orfsByCode.items[code];
      var features := DrawFeatures(orfs);
      var record := GraphicRecord(|nuc[contig]|, features);
      var plotHtml := render(record, PlotTitle(contig, code));
      var titleHtml := Heading(contig, code);
      CodePairsStep(contig, orfsByCode.keys, j);
      FragmentsConcat(g, nuc, render, CodePairs(contig, orfsByCode.keys[..j]), [(contig, code)]);
      html := html + [titleHtml + plotHtml];
      j := j + 1;
    }
    assert orfsByCode.keys[..j] == orfsByCode.keys;
  }

  /**
   * Lines 72-94: `html_content` receives one fragment per drawn pair, in
   * order; contigs missing from `nuc` are skipped.
   */
  method CreateGraphics(g: Grouping, nuc: map<string, string>, render: (GraphicRecord, string) -> string)
    returns (html: seq<string>)
    requires WellFormed(g)
    ensures html == Fragments(g, nuc, render, DrawnPairs(g, nuc))
  {
    html := [];
    var i := 0;
    while i < |g.keys|
      invariant 0 <= i <= |g.keys|
      invariant html == Fragments(g, nuc, render, Filter(AllPairs(g, g.keys[..i]), InNuc(nuc)))
    {
      var contig := g.keys[i];
      DrawnStep(g, nuc, i);
      if contig in nuc {
        var part := DrawContig(g, nuc, render, contig);
        FragmentsConcat(g, nuc, render, Filter(AllPairs(g, g.keys[..i]), InNuc(nuc)), CodePairs(contig, g.items[contig].keys));
        html := html + part;
      } else {
        assert Filter(AllPairs(g, g.keys[..i]), InNuc(nuc)) + [] == Filter(AllPairs(g, g.keys[..i]), InNuc(nuc));
      }
      i := i + 1;
    }
    assert g.keys[..i] == g.keys;
  }

  lemma {:induction false} AllPairsMembership(g: Grouping, cs: seq<string>, c: string, k: string)
    ensures (c, k) in AllPairs(g, cs) <==> c in cs && c in g.items && k in g.items[c].keys
  {
    if cs != [] {
      var front, last := cs[..|cs| - 1], cs[|cs| - 1];
      AllPairsMembership(g, front, c, k);
      assert cs == front + [last];
      if last in g.items {
        var ps := CodePairs(last, g.items[last].keys);
        assert (c, k) in ps <==> c == last && k in g.items[last].keys by {
          if (c, k) in ps {
            var j :| 0 <= j < |ps| && ps[j] == (c, k);
            assert g.items[last].keys[j] == k;
          }
          if c == last && k in g.items[last].keys {
            var j :| 0 <= j < |g.items[last].keys| && g.items[last].keys[j] == k;
            assert ps[j] == (c, k);
          }
        }
      }
    }
  }

  lemma {:induction false} CodePairsDistinct(c: string, ks: seq<string>)
    requires Distinct(ks)
    ensures Distinct(CodePairs(c, ks))
  {
  }

  lemma {:induction false} AllPairsDistinct(g: Grouping, cs: seq<string>)
    requires WellFormed(g) && Distinct(cs)
    ensures Distinct(AllPairs(g, cs))
  {
    if cs != [] {
      var front, last := cs[..|cs| - 1], cs[|cs| - 1];
      assert Distinct(front);
      AllPairsDistinct(g, front);
      if last in g.items {
        var a, b := AllPairs(g, front), CodePairs(last, g.items[last].keys);
        CodePairsDistinct(last, g.items[last].keys);
        forall i, j | 0 <= i < |a| && 0 <= j < |b| ensures a[i] != b[j] {
          AllPairsMembership(g, front, a[i].0, a[i].1);
          assert a[i].0 in front;
          assert b[j].0 == last;
        }
        assert AllPairs(g, cs) == a + b;
        forall i, j | 0 <= i < j < |a + b| ensures (a + b)[i] != (a + b)[j] {
          if j < |a| {
          } else if i >= |a| {
            assert (a + b)[i] == b[i - |a|] && (a + b)[j] == b[j - |a|];
          } else {
            assert (a + b)[j] == b[j - |a|];
          }
        }
      }
    }
  }

  /**
   * A pair gets a fragment exactly when its contig is in the grouping and in
   * `nuc` and its code is one of that contig's codes; no pair gets two, and
   * the fragments follow the insertion order of both levels.
   */
  lemma DrawnPairsExact(g: Grouping, nuc: map<string, string>, c: string, k: string)
    requires WellFormed(g)
    ensures (c, k) in DrawnPairs(g, nuc) <==> c in g.items && c in nuc && k in g.items[c].items
    ensures Distinct(DrawnPairs(g, nuc))
    ensures IsSubseq(DrawnPairs(g, nuc), AllPairs(g, g.keys))
  {
    FilterMembership(AllPairs(g, g.keys), InNuc(nuc), (c, k));
    AllPairsMembership(g, g.keys, c, k);
    AllPairsDistinct(g, g.keys);
    FilterDistinct(AllPairs(g, g.keys), InNuc(nuc));
    FilterIsSubseq(AllPairs(g, g.keys), InNuc(nuc));
  }

  /**
   * Fragment `j` is the heading of its pair followed by the plot of that
   * pair's ORFs, drawn on a record as long as the contig's nucleotide
   * sequence, one feature per ORF in list order.
   */
  lemma FragmentContent(g: Grouping, nuc: map<string, string>, render: (GraphicRecord, string) -> string, j: nat)
    requires WellFormed(g) && j < |DrawnPairs(g, nuc)|
    ensures var (c, k) := DrawnPairs(g, nuc)[j];
      && c in g.items && c in nuc && k in g.items[c].items
      && var html := Fragments(g, nuc, render, DrawnPairs(g, nuc))[j];
      && Heading(c, k) <= html
      && html == Heading(c, k) + render(GraphicRecord(|nuc[c]|, Map(g.items[c].items[k], FeatureOf)), PlotTitle(c, k))
  {
    var (c, k) := DrawnPairs(g, nuc)[j];
    DrawnPairsExact(g, nuc, c, k);
    var plot := render(GraphicRecord(|nuc[c]|, Map(g.items[c].items[k], FeatureOf)), PlotTitle(c, k));
    assert (Heading(c, k) + plot)[..|Heading(c, k)|] == Heading(c, k);
  }
}
