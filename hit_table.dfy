/**
 * The table steps of one sample in scripts/resultsNEW.py: the left join of
 * the DIAMOND hits with the pooled taxonomy (line 37), the projection to
 * eleven columns (41-42), the length filter (45), de-duplication (48), the
 * RNA-virus subset (66-67) and the plotting columns (87-88). Each step is a
 * whole-table expression, so each is a function over a sequence of rows.
 */
module HitTable {
  import opened Wrappers
  import opened Collections

  /**
   * One row of a DIAMOND hit table as read: the ten columns the script
   * uses and whatever other columns the table has.
   */
  datatype Hit = Hit(
    querySeq: string,
    subjectSeq: string,
    qseqLength: int,
    sseqLength: int,
    pident: real,
    evalue: real,
    qCover: real,
    subjTitle: string,
    species: string,
    fullQueryLength: int,
    otherColumns: seq<string>)

  /** One row of a taxonomy list: a species and its genome composition, which may be missing. */
  datatype Taxon = Taxon(species: string, composition: Option<string>)

  /** A row of the merged table: the hit's columns plus `Genome.composition`. */
  datatype Joined = Joined(hit: Hit, composition: Option<string>)

  /** A row of the eleven-column table, in the column order of lines 41-42. */
  datatype Row = Row(
    querySeq: string,
    subjectSeq: string,
    qseqLength: int,
    sseqLength: int,
    pident: real,
    evalue: real,
    qCover: real,
    subjTitle: string,
    species: string,
    composition: Option<string>,
    fullQueryLength: int)

  /** The genome compositions counted as RNA viruses (line 66). */
  const RnaCompositions: set<string> := {"ssRNA(-)", "ssRNA(+/-)", "ssRNA(+)", "ssRNA-RT", "RNA", "unknown", "NA"}

  /** Line 17: the name list followed by the species list, nothing removed. */
  function AllVirus(ncbiNames: seq<Taxon>, ncbiSpecie: seq<Taxon>): (r: seq<Taxon>)
    ensures |r| == |ncbiNames| + |ncbiSpecie|
    ensures r[..|ncbiNames|] == ncbiNames && r[|ncbiNames|..] == ncbiSpecie
  {
    ncbiNames + ncbiSpecie
  }

  function SameSpecies(species: string): Taxon -> bool {
    (t: Taxon) => t.species == species
  }

  /** The taxonomy rows whose species is the hit's, in taxonomy order. */
  function Matches(h: Hit, taxa: seq<Taxon>): seq<Taxon> {
    Filter(taxa, SameSpecies(h.species))
  }

  /** The hit joined with each of the taxonomy rows `ts`. */
  function Attach(h: Hit, ts: seq<Taxon>): (r: seq<Joined>)
    ensures |r| == |ts|
    ensures forall i :: 0 <= i < |ts| ==> r[i] == Joined(h, ts[i].composition)
  {
    if ts == [] then [] else Attach(h, ts[..|ts| - 1]) + [Joined(h, ts[|ts| - 1].composition)]
  }

  /** What a left merge on `Species` makes of one hit: one row per match, or one row with no composition. */
  function JoinOne(h: Hit, taxa: seq<Taxon>): seq<Joined> {
    var m := Matches(h, taxa);
    if m == [] then [Joined(h, None)] else Attach(h, m)
  }

  function JoinAgainst(taxa: seq<Taxon>): Hit -> seq<Joined> {
    (h: Hit) => JoinOne(h, taxa)
  }

  /** Line 37: `pd.merge(hits, taxa, on="Species", how="left")`, the rows of each hit in hit order. */
  function LeftJoin(hits: seq<Hit>, taxa: seq<Taxon>): seq<Joined> {
    ConcatMap(hits, JoinAgainst(taxa))
  }

  /** Lines 41-42: keep the eleven columns in their fixed order, drop the others. */
  function Project(j: Joined): Row {
    var h := j.hit;
    Row(h.querySeq, h.subjectSeq, h.qseqLength, h.sseqLength, h.pident, h.evalue, h.qCover,
        h.subjTitle, h.species, j.composition, h.fullQueryLength)
  }

  /** Line 45's mask. */
  predicate LongEnough(r: Row) {
    r.qseqLength >= 500
  }

  /** The rows after merge, projection and the length filter, before de-duplication. */
  function Filtered(hits: seq<Hit>, taxa: seq<Taxon>): seq<Row> {
    Filter(Map(LeftJoin(hits, taxa), Project), LongEnough)
  }

  /** Lines 37-48: the table written to `_output.tsv`. */
  function Table(hits: seq<Hit>, taxa: seq<Taxon>): seq<Row> {
    Dedup(Filtered(hits, taxa))
  }

  /** Line 66's mask: a composition that is present and one of the seven RNA names. */
  predicate IsRna(r: Row) {
    r.composition.Some? && r.composition.value in RnaCompositions
  }

  /** Lines 66-67: the RNA-virus rows, de-duplicated again. */
  function RnaTable(table: seq<Row>): seq<Row> {
    Dedup(Filter(table, IsRna))
  }

  /** A row of the plotting frame: the eleven columns, the composition filled in, and the match label. */
  datatype PlotRow = PlotRow(
    querySeq: string,
    subjectSeq: string,
    qseqLength: int,
    sseqLength: int,
    pident: real,
    evalue: real,
    qCover: real,
    subjTitle: string,
    species: string,
    composition: string,
    fullQueryLength: int,
    matchSequence: string)

  /** `fillna("NA")` on one cell. */
  function FillNa(c: Option<string>): (s: string)
    ensures c.Some? ==> s == c.value
    ensures c.None? ==> s == "NA"
  {
    match c
    case Some(v) => v
    case None => "NA"
  }

  /** Lines 87-88 for one row. */
  function PlotRowOf(r: Row): PlotRow {
    PlotRow(r.querySeq, r.subjectSeq, r.qseqLength, r.sseqLength, r.pident, r.evalue, r.qCover,
            r.subjTitle, r.species, FillNa(r.composition), r.fullQueryLength, r.species + " -> " + r.subjTitle)
  }

  /** Lines 87-88: the frame handed to the scatter plot, made from the whole table. */
  function PlotFrame(table: seq<Row>): seq<PlotRow> {
    Map(table, PlotRowOf)
  }

  // ---------------------------------------------------------------- the merge

  /** The merged rows come hit by hit: the rows of `a + b` are those of `a`, then those of `b`. */
  lemma LeftJoinConcat(a: seq<Hit>, b: seq<Hit>, taxa: seq<Taxon>)
    ensures LeftJoin(a + b, taxa) == LeftJoin(a, taxa) + LeftJoin(b, taxa)
  {
    ConcatMapConcat(a, b, JoinAgainst(taxa));
  }

  /** The rows of a single hit are the rows `JoinOne` gives it; no hit gives no rows. */
  lemma LeftJoinSingle(h: Hit, taxa: seq<Taxon>)
    ensures LeftJoin([], taxa) == []
    ensures LeftJoin([h], taxa) == JoinOne(h, taxa)
  {
    assert LeftJoin([h], taxa) == LeftJoin([h][..0], taxa) + JoinOne(h, taxa);
    assert [h][..0] == [];
  }

  /**
   * A hit fans out into one row per taxonomy row of its species, in
   * taxonomy order and carrying that row's composition, or stays one row
   * with no composition when its species is not listed.
   */
  lemma JoinOneRows(h: Hit, taxa: seq<Taxon>)
    ensures var rows := JoinOne(h, taxa);
      var m := Matches(h, taxa);
      && |rows| == (if |m| == 0 then 1 else |m|)
      && (forall i :: 0 <= i < |rows| ==> rows[i].hit == h)
      && (m == [] ==> rows == [Joined(h, None)])
      && (forall i :: 0 <= i < |m| ==> rows[i].composition == m[i].composition && m[i].species == h.species)
      && (forall t :: t in m <==> t in taxa && t.species == h.species)
      && IsSubseq(m, taxa)
      && (forall t :: multiset(m)[t] == if t.species == h.species then multiset(taxa)[t] else 0)
  {
    forall t ensures t in Matches(h, taxa) <==> t in taxa && t.species == h.species {
      FilterMembership(taxa, SameSpecies(h.species), t);
    }
    forall t ensures multiset(Matches(h, taxa))[t] == if t.species == h.species then multiset(taxa)[t] else 0 {
      FilterCount(taxa, SameSpecies(h.species), t);
    }
    FilterIsSubseq(taxa, SameSpecies(h.species));
  }

  /**
   * Joining against the pooled list fans out over both lists: the matches
   * in the name list, then those in the species list, a species listed in
   * both giving rows for both.
   */
  lemma PooledFanOut(h: Hit, ncbiNames: seq<Taxon>, ncbiSpecie: seq<Taxon>)
    ensures Matches(h, AllVirus(ncbiNames, ncbiSpecie)) == Matches(h, ncbiNames) + Matches(h, ncbiSpecie)
    ensures |JoinOne(h, AllVirus(ncbiNames, ncbiSpecie))| ==
      if |Matches(h, ncbiNames)| + |Matches(h, ncbiSpecie)| == 0 then 1
      else |Matches(h, ncbiNames)| + |Matches(h, ncbiSpecie)|
  {
    FilterConcat(ncbiNames, ncbiSpecie, SameSpecies(h.species));
  }

  /** Every hit is kept by the merge: there are at least as many merged rows as hits, and each comes from a hit. */
  lemma LeftJoinKeepsHits(hits: seq<Hit>, taxa: seq<Taxon>)
    ensures |LeftJoin(hits, taxa)| >= |hits|
    ensures forall j :: j in LeftJoin(hits, taxa) ==> j.hit in hits
  {
    forall i | 0 <= i < |hits| ensures JoinAgainst(taxa)(hits[i]) != [] {
      JoinOneRows(hits[i], taxa);
    }
    ConcatMapLength(hits, JoinAgainst(taxa));
    forall j | j in LeftJoin(hits, taxa) ensures j.hit in hits {
      ConcatMapFrom(hits, JoinAgainst(taxa), j);
      var h :| h in hits && j in JoinOne(h, taxa);
      JoinOneRows(h, taxa);
    }
  }

  // ------------------------------------------------- projection, filter, dedup

  /** The projection keeps the named cells and ignores every other column of the hit. */
  lemma ProjectDropsOthers(a: Joined, b: Joined)
    requires a.composition == b.composition
    requires a.hit.(otherColumns := []) == b.hit.(otherColumns := [])
    ensures Project(a) == Project(b)
  {
  }

  /**
   * The table of line 48: every row is long enough; a row is in it exactly
   * when it is a long-enough projected merged row; no two rows are equal;
   * the rows keep their merge order, each at its first occurrence; and
   * de-duplicating again changes nothing.
   */
  lemma TableFacts(hits: seq<Hit>, taxa: seq<Taxon>)
    ensures var t := Table(hits, taxa);
      && (forall r :: r in t ==> r.qseqLength >= 500)
      && (forall r :: r in t <==> r in Map(LeftJoin(hits, taxa), Project) && r.qseqLength >= 500)
      && Distinct(t)
      && IsSubseq(t, Map(LeftJoin(hits, taxa), Project))
      && (forall i, j :: 0 <= i < j < |t| ==> FirstIndex(Filtered(hits, taxa), t[i]) < FirstIndex(Filtered(hits, taxa), t[j]))
      && Dedup(t) == t
  {
    var m := Map(LeftJoin(hits, taxa), Project);
    var f := Filtered(hits, taxa);
    forall r ensures r in Table(hits, taxa) <==> r in m && r.qseqLength >= 500 {
      FilterMembership(m, LongEnough, r);
    }
    FilterIsSubseq(m, LongEnough);
    DedupIsSubseq(f);
    SubseqTrans(Dedup(f), f, m);
    DedupKeepsFirstOrder(f);
    DedupIdempotent(f);
  }

  // ------------------------------------------------------------- RNA subset

  /**
   * The RNA table of lines 66-67 is exactly the table's rows whose
   * composition is present and one of the seven names, in table order; a
   * missing composition is never selected; the second de-duplication finds
   * nothing to remove.
   */
  lemma RnaTableFacts(hits: seq<Hit>, taxa: seq<Taxon>)
    ensures var t := Table(hits, taxa);
      && RnaTable(t) == Filter(t, IsRna)
      && (forall r :: r in RnaTable(t) <==> r in t && r.composition.Some? && r.composition.value in RnaCompositions)
      && (forall r :: r in RnaTable(t) ==> r.composition != None)
      && IsSubseq(RnaTable(t), t)
  {
    var t := Table(hits, taxa);
    FilterDistinct(t, IsRna);
    DedupOfDistinct(Filter(t, IsRna));
    forall r ensures r in RnaTable(t) <==> r in t && IsRna(r) {
      FilterMembership(t, IsRna, r);
    }
    FilterIsSubseq(t, IsRna);
  }

  // ---------------------------------------------------------- plotting frame

  /**
   * Lines 87-88: one plotting row per table row, in order; the label joins
   * species and subject title with ` -> `; a present composition is kept and
   * a missing one becomes the text `NA`; the other cells are unchanged.
   */
  lemma PlotFrameFacts(table: seq<Row>)
    ensures |PlotFrame(table)| == |table|
    ensures forall i :: 0 <= i < |table| ==>
      var (r, p) := (table[i], PlotFrame(table)[i]);
      && p.matchSequence == r.species + " -> " + r.subjTitle
      && (r.composition.Some? ==> p.composition == r.composition.value)
      && (r.composition.None? ==> p.composition == "NA")
      && p.querySeq == r.querySeq && p.qseqLength == r.qseqLength && p.qCover == r.qCover
      && p.pident == r.pident && p.evalue == r.evalue && p.species == r.species && p.subjTitle == r.subjTitle
      && p.subjectSeq == r.subjectSeq && p.sseqLength == r.sseqLength && p.fullQueryLength == r.fullQueryLength
  {
  }

  /**
   * The RNA filter runs before `fillna`: a row with no composition is left
   * out of the RNA table even though the plotting frame shows it as `NA`,
   * one of the seven RNA names.
   */
  lemma FilterBeforeFill(r: Row)
    requires r.composition.None?
    ensures !IsRna(r)
    ensures PlotRowOf(r).composition in RnaCompositions
  {
  }
}
