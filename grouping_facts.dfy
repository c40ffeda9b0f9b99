/**
 * What `orf_data_by_contig` holds once `parse_orf_fastas` has returned
 * (viewvir-module/bokehALL.py, lines 50-59): contigs in order of first
 * appearance, per contig the codes in order of first appearance, and under
 * each (contig, code) exactly the parsed ORFs with that contig and code, in
 * the order they were read. Also which exception ends a parse, and how many
 * records are stored.
 */
module GroupingFacts {
  import opened Wrappers
  import opened Collections
  import opened OrfHeader
  import opened OrfGrouping

  /** The contig of every ORF, in order. */
  function ContigOrder(orfs: seq<OrfRecord>): (r: seq<string>)
    ensures |r| == |orfs|
  {
    if orfs == [] then [] else ContigOrder(orfs[..|orfs| - 1]) + [orfs[|orfs| - 1].contig]
  }

  /** The code of every ORF of contig `c`, in order. */
  function CodeOrder(orfs: seq<OrfRecord>, c: string): seq<string> {
    if orfs == [] then []
    else
      var o := orfs[|orfs| - 1];
      CodeOrder(orfs[..|orfs| - 1], c) + (if o.contig == c then [o.code] else [])
  }

  /** The ORFs with contig `c` and code `k`, in order. */
  function Bucket(orfs: seq<OrfRecord>, c: string, k: string): seq<OrfRecord> {
    if orfs == [] then []
    else
      var o := orfs[|orfs| - 1];
      Bucket(orfs[..|orfs| - 1], c, k) + (if o.contig == c && o.code == k then [o] else [])
  }

  /** The outer dict lists the contigs in order of first appearance. */
  predicate OuterMatches(g: Grouping, orfs: seq<OrfRecord>) {
    ValidDict(g) && g.keys == Dedup(ContigOrder(orfs))
  }

  /** Each inner dict lists the codes of its contig in order of first appearance. */
  predicate InnerMatches(g: Grouping, orfs: seq<OrfRecord>) {
    forall c :: c in g.items ==> ValidDict(g.items[c]) && g.items[c].keys == Dedup(CodeOrder(orfs, c))
  }

  /** Each list holds the ORFs of its contig and code, in order. */
  predicate BucketsMatch(g: Grouping, orfs: seq<OrfRecord>) {
    forall c, k :: c in g.items && k in g.items[c].items ==> g.items[c].items[k] == Bucket(orfs, c, k)
  }

  predicate Represents(g: Grouping, orfs: seq<OrfRecord>) {
    OuterMatches(g, orfs) && InnerMatches(g, orfs) && BucketsMatch(g, orfs)
  }

  lemma ContigOrderStep(orfs: seq<OrfRecord>, o: OrfRecord)
    ensures ContigOrder(orfs + [o]) == ContigOrder(orfs) + [o.contig]
  {
    assert (orfs + [o])[..|orfs|] == orfs;
  }

  lemma CodeOrderStep(orfs: seq<OrfRecord>, o: OrfRecord, c: string)
    ensures CodeOrder(orfs + [o], c) == if o.contig == c then CodeOrder(orfs, c) + [o.code] else CodeOrder(orfs, c)
  {
    assert (orfs + [o])[..|orfs|] == orfs;
  }

  lemma BucketStep(orfs: seq<OrfRecord>, o: OrfRecord, c: string, k: string)
    ensures Bucket(orfs + [o], c, k) == if o.contig == c && o.code == k then Bucket(orfs, c, k) + [o] else Bucket(orfs, c, k)
  {
    assert (orfs + [o])[..|orfs|] == orfs;
  }

  /** A contig that no ORF has has no codes; a code its contig never had has an empty list. */
  lemma {:induction false} AbsentIsEmpty(orfs: seq<OrfRecord>, c: string, k: string)
    ensures c !in ContigOrder(orfs) ==> CodeOrder(orfs, c) == []
    ensures k !in CodeOrder(orfs, c) ==> Bucket(orfs, c, k) == []
  {
    if orfs != [] {
      var front := orfs[..|orfs| - 1];
      AbsentIsEmpty(front, c, k);
      assert orfs == front + [orfs[|orfs| - 1]];
      ContigOrderStep(front, orfs[|orfs| - 1]);
      CodeOrderStep(front, orfs[|orfs| - 1], c);
      BucketStep(front, orfs[|orfs| - 1], c, k);
    }
  }

  lemma AddOrfOuter(g: Grouping, orfs: seq<OrfRecord>, o: OrfRecord)
    requires OuterMatches(g, orfs)
    ensures OuterMatches(AddOrf(g, o), orfs + [o])
  {
    ContigOrderStep(orfs, o);
    var co := ContigOrder(orfs);
    assert (co + [o.contig])[..|co|] == co;
  }

  /** The inner dict of the contig just appended to. */
  lemma AddOrfInnerSame(g: Grouping, orfs: seq<OrfRecord>, o: OrfRecord)
    requires OuterMatches(g, orfs) && InnerMatches(g, orfs)
    ensures var inner := AddOrf(g, o).items[o.contig];
      ValidDict(inner) && inner.keys == Dedup(CodeOrder(orfs, o.contig) + [o.code])
  {
    var cs := CodeOrder(orfs, o.contig);
    assert (cs + [o.code])[..|cs|] == cs;
    if o.contig !in g.items {
      AbsentIsEmpty(orfs, o.contig, o.code);
      assert Dedup(cs + [o.code]) == [o.code];
    }
  }

  lemma AddOrfInner(g: Grouping, orfs: seq<OrfRecord>, o: OrfRecord)
    requires OuterMatches(g, orfs) && InnerMatches(g, orfs)
    ensures InnerMatches(AddOrf(g, o), orfs + [o])
  {
    var h := AddOrf(g, o);
    forall c | c in h.items
      ensures ValidDict(h.items[c]) && h.items[c].keys == Dedup(CodeOrder(orfs + [o], c))
    {
      CodeOrderStep(orfs, o, c);
      if c == o.contig {
        AddOrfInnerSame(g, orfs, o);
      } else {
        assert h.items[c] == g.items[c];
      }
    }
  }

  /** The list just appended to. */
  lemma AddOrfBucketSame(g: Grouping, orfs: seq<OrfRecord>, o: OrfRecord)
    requires Represents(g, orfs)
    ensures AddOrf(g, o).items[o.contig].items[o.code] == Bucket(orfs, o.contig, o.code) + [o]
  {
    var inner := if o.contig in g.items then g.items[o.contig] else EmptyDict();
    if o.code !in inner.items {
      if o.contig in g.items {
        assert o.code !in Dedup(CodeOrder(orfs, o.contig));
      } else {
        assert o.contig !in Dedup(ContigOrder(orfs));
        AbsentIsEmpty(orfs, o.contig, o.code);
      }
      AbsentIsEmpty(orfs, o.contig, o.code);
    }
  }

  lemma AddOrfBuckets(g: Grouping, orfs: seq<OrfRecord>, o: OrfRecord)
    requires Represents(g, orfs)
    ensures BucketsMatch(AddOrf(g, o), orfs + [o])
  {
    var h := AddOrf(g, o);
    forall c, k | c in h.items && k in h.items[c].items
      ensures h.items[c].items[k] == Bucket(orfs + [o], c, k)
    {
      BucketStep(orfs, o, c, k);
      if c == o.contig && k == o.code {
        AddOrfBucketSame(g, orfs, o);
      }
    }
  }

  /** Appending one ORF keeps the dict representing the ORFs read so far. */
  lemma AddOrfRepresents(g: Grouping, orfs: seq<OrfRecord>, o: OrfRecord)
    requires Represents(g, orfs)
    ensures Represents(AddOrf(g, o), orfs + [o])
  {
    AddOrfOuter(g, orfs, o);
    AddOrfInner(g, orfs, o);
    AddOrfBuckets(g, orfs, o);
  }

  /** The dict built by appending ORFs one by one represents them as described above. */
  lemma {:induction false} GroupRepresents(orfs: seq<OrfRecord>)
    ensures Represents(Group(orfs), orfs)
  {
    if orfs != [] {
      var front, o := orfs[..|orfs| - 1], orfs[|orfs| - 1];
      GroupRepresents(front);
      assert orfs == front + [o];
      AddOrfRepresents(Group(front), front, o);
    }
  }

  /** A list holds only ORFs of its contig and code, in the order they were read. */
  lemma {:induction false} BucketSound(orfs: seq<OrfRecord>, c: string, k: string)
    ensures forall x :: x in Bucket(orfs, c, k) ==> x.contig == c && x.code == k
    ensures IsSubseq(Bucket(orfs, c, k), orfs)
  {
    if orfs != [] {
      var front, o := orfs[..|orfs| - 1], orfs[|orfs| - 1];
      BucketSound(front, c, k);
      assert orfs == front + [o];
      BucketStep(front, o, c, k);
      SubseqAppend(Bucket(front, c, k), front, o);
    }
  }

  /** Every ORF read lands in the list of its own contig and code. */
  lemma {:induction false} BucketComplete(orfs: seq<OrfRecord>, x: OrfRecord)
    requires x in orfs
    ensures x.contig in ContigOrder(orfs) && x.code in CodeOrder(orfs, x.contig)
    ensures x in Bucket(orfs, x.contig, x.code)
  {
    var front, o := orfs[..|orfs| - 1], orfs[|orfs| - 1];
    assert orfs == front + [o];
    ContigOrderStep(front, o);
    CodeOrderStep(front, o, x.contig);
    BucketStep(front, o, x.contig, x.code);
    if x != o {
      BucketComplete(front, x);
    }
  }

  /**
   * The dict built from `orfs`: the contigs in order of first appearance,
   * for each contig its codes in order of first appearance, and under each
   * pair exactly the ORFs with that contig and code, in reading order.
   */
  lemma GroupFacts(orfs: seq<OrfRecord>)
    ensures var g := Group(orfs);
      && ValidDict(g)
      && g.keys == Dedup(ContigOrder(orfs))
      && (forall c :: c in g.items ==> ValidDict(g.items[c]) && g.items[c].keys == Dedup(CodeOrder(orfs, c)))
      && (forall c, k :: c in g.items && k in g.items[c].items ==>
            && g.items[c].items[k] == Bucket(orfs, c, k)
            && (forall x :: x in g.items[c].items[k] ==> x.contig == c && x.code == k)
            && IsSubseq(g.items[c].items[k], orfs))
      && (forall x :: x in orfs ==>
            x.contig in g.items && x.code in g.items[x.contig].items && x in g.items[x.contig].items[x.code])
  {
    GroupRepresents(orfs);
    GroupSound(orfs);
    GroupComplete(orfs);
  }

  lemma GroupSound(orfs: seq<OrfRecord>)
    ensures var g := Group(orfs);
      forall c, k :: c in g.items && k in g.items[c].items ==>
        && (forall x :: x in g.items[c].items[k] ==> x.contig == c && x.code == k)
        && IsSubseq(g.items[c].items[k], orfs)
  {
    var g := Group(orfs);
    GroupRepresents(orfs);
    forall c, k | c in g.items && k in g.items[c].items
      ensures (forall x :: x in g.items[c].items[k] ==> x.contig == c && x.code == k)
      ensures IsSubseq(g.items[c].items[k], orfs)
    {
      BucketSound(orfs, c, k);
    }
  }

  lemma GroupComplete(orfs: seq<OrfRecord>)
    ensures var g := Group(orfs);
      forall x :: x in orfs ==>
        x.contig in g.items && x.code in g.items[x.contig].items && x in g.items[x.contig].items[x.code]
  {
    var g := Group(orfs);
    GroupRepresents(orfs);
    forall x | x in orfs
      ensures x.contig in g.items && x.code in g.items[x.contig].items && x in g.items[x.contig].items[x.code]
    {
      BucketComplete(orfs, x);
    }
  }

  /** The dict `parse_orf_fastas` returns is the one of `GroupFacts` for the ORFs parsed from all files. */
  lemma GroupedByKeys(files: seq<OrfFile>)
    requires ParseOrfFastasSpec(files).Success?
    ensures var g := ParseOrfFastasSpec(files).value;
      var orfs := ParseItems(Items(files)).value;
      && ValidDict(g)
      && g.keys == Dedup(ContigOrder(orfs))
      && (forall c :: c in g.items ==> ValidDict(g.items[c]) && g.items[c].keys == Dedup(CodeOrder(orfs, c)))
      && (forall c, k :: c in g.items && k in g.items[c].items ==>
            && g.items[c].items[k] == Bucket(orfs, c, k)
            && (forall x :: x in g.items[c].items[k] ==> x.contig == c && x.code == k)
            && IsSubseq(g.items[c].items[k], orfs))
      && (forall x :: x in orfs ==>
            x.contig in g.items && x.code in g.items[x.contig].items && x in g.items[x.contig].items[x.code])
  {
    var orfs := ParseItems(Items(files)).value;
    assert ParseOrfFastasSpec(files).value == Group(orfs);
    GroupFacts(orfs);
  }

  function BucketCount(b: seq<OrfRecord>): nat {
    |b|
  }

  function InnerCount(inner: ODict<string, seq<OrfRecord>>): nat {
    DictSize(inner, BucketCount)
  }

  /** The number of ORFs stored in all lists together. */
  function Stored(g: Grouping): nat {
    DictSize(g, InnerCount)
  }

  /** Appending one ORF stores exactly one more record. */
  lemma StoredAddOrf(g: Grouping, o: OrfRecord)
    requires ValidDict(g) && forall c :: c in g.items ==> ValidDict(g.items[c])
    ensures Stored(AddOrf(g, o)) == Stored(g) + 1
  {
    var inner := if o.contig in g.items then g.items[o.contig] else EmptyDict();
    var bucket := if o.code in inner.items then inner.items[o.code] else [];
    DictSizePut(inner, o.code, bucket + [o], BucketCount);
    DictSizePut(g, o.contig, Put(inner, o.code, bucket + [o]), InnerCount);
  }

  /** Grouping stores every ORF once: nothing is lost and nothing duplicated. */
  lemma {:induction false} StoredGroup(orfs: seq<OrfRecord>)
    ensures Stored(Group(orfs)) == |orfs|
  {
    if orfs != [] {
      var front := orfs[..|orfs| - 1];
      StoredGroup(front);
      GroupRepresents(front);
      StoredAddOrf(Group(front), orfs[|orfs| - 1]);
    }
  }

  /** What the loop body does with one (record, code) pair. */
  function Outcome(x: (FastaRecord, string)): HeaderOutcome {
    ParseHeader(x.0, x.1)
  }

  /** The fold of `ParseItems` for any way `parse` of reading one item. */
  function ParseAll<T>(items: seq<T>, parse: T -> HeaderOutcome): Result<seq<OrfRecord>, PyError> {
    if items == [] then Success([])
    else
      match ParseAll(items[..|items| - 1], parse)
      case Failure(e) => Failure(e)
      case Success(orfs) =>
        match parse(items[|items| - 1])
        case Raised(e) => Failure(e)
        case Skipped => Success(orfs)
        case Parsed(o) => Success(orfs + [o])
  }

  lemma {:induction false} ParseItemsIsParseAll(items: seq<(FastaRecord, string)>)
    ensures ParseItems(items) == ParseAll(items, Outcome)
  {
    if items != [] {
      ParseItemsIsParseAll(items[..|items| - 1]);
    }
  }

  /** Item `i` is the first whose reading raises. */
  predicate FirstRaise<T>(items: seq<T>, parse: T -> HeaderOutcome, i: int) {
    0 <= i < |items| && parse(items[i]).Raised? && forall j :: 0 <= j < i ==> !parse(items[j]).Raised?
  }

  /** The number of skipped items. */
  function Skips<T>(items: seq<T>, parse: T -> HeaderOutcome): nat {
    if items == [] then 0
    else Skips(items[..|items| - 1], parse) + (if parse(items[|items| - 1]).Skipped? then 1 else 0)
  }

  lemma {:induction false} ParseAllOutcome<T>(items: seq<T>, parse: T -> HeaderOutcome)
    ensures ParseAll(items, parse).Success? <==> forall i :: 0 <= i < |items| ==> !parse(items[i]).Raised?
    ensures ParseAll(items, parse).Success? ==> |ParseAll(items, parse).value| + Skips(items, parse) == |items|
    ensures ParseAll(items, parse).Failure? ==>
      exists i :: FirstRaise(items, parse, i) && parse(items[i]) == Raised(ParseAll(items, parse).error)
  {
    if items != [] {
      var front := items[..|items| - 1];
      ParseAllOutcome(front, parse);
      assert forall i :: 0 <= i < |front| ==> items[i] == front[i];
      if ParseAll(front, parse).Failure? {
        var i :| FirstRaise(front, parse, i) && parse(front[i]) == Raised(ParseAll(front, parse).error);
        assert FirstRaise(items, parse, i);
      } else if parse(items[|items| - 1]).Raised? {
        assert FirstRaise(items, parse, |items| - 1);
      }
    }
  }

  /**
   * The parse succeeds exactly when no header raises; then every record is
   * either stored or skipped. Otherwise its exception is the one of the
   * first header that raises.
   */
  lemma ParseItemsOutcome(items: seq<(FastaRecord, string)>)
    ensures ParseItems(items).Success? <==> forall i :: 0 <= i < |items| ==> !Outcome(items[i]).Raised?
    ensures ParseItems(items).Success? ==> |ParseItems(items).value| + Skips(items, Outcome) == |items|
    ensures ParseItems(items).Failure? ==>
      exists i :: FirstRaise(items, Outcome, i) && Outcome(items[i]) == Raised(ParseItems(items).error)
  {
    ParseItemsIsParseAll(items);
    ParseAllOutcome(items, Outcome);
  }

  /** Over all files: stored records are the records read minus the skipped ones. */
  lemma StoredCount(files: seq<OrfFile>)
    requires ParseOrfFastasSpec(files).Success?
    ensures Stored(ParseOrfFastasSpec(files).value) + Skips(Items(files), Outcome) == |Items(files)|
  {
    ParseItemsOutcome(Items(files));
    StoredGroup(ParseItems(Items(files)).value);
  }
}
