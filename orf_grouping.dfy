/**
 * `parse_orf_fastas` and `parse_nuc_fasta` (viewvir-module/bokehALL.py,
 * lines 10-68): the ORF records of every file, in file-then-record order,
 * appended into a `contig -> code -> [ORF]` dict built in place, and the
 * nucleotide records as an `id -> sequence` dict.
 */
module OrfGrouping {
  import opened Wrappers
  import opened PyStrings
  import opened Collections
  import opened OrfHeader

  /** One ORF FASTA file: its records and the genetic code it was called with. */
  datatype OrfFile = OrfFile(records: seq<FastaRecord>, code: string)

  /** `contig -> code -> [ORF]`, both levels in insertion order. */
  type Grouping = ODict<string, ODict<string, seq<OrfRecord>>>

  /** The records of one file, each with the file's code. */
  function Tagged(f: OrfFile): (r: seq<(FastaRecord, string)>)
    ensures |r| == |f.records|
    ensures forall i :: 0 <= i < |r| ==> r[i] == (f.records[i], f.code)
  {
    seq(|f.records|, i requires 0 <= i < |f.records| => (f.records[i], f.code))
  }

  /** Every (record, code) pair in the order the two loops visit them. */
  function Items(files: seq<OrfFile>): seq<(FastaRecord, string)> {
    if files == [] then [] else Items(files[..|files| - 1]) + Tagged(files[|files| - 1])
  }

  /** The ORFs of the parsed headers in visiting order, or the first exception raised. */
  function ParseItems(items: seq<(FastaRecord, string)>): Result<seq<OrfRecord>, PyError> {
    if items == [] then Success([])
    else
      match ParseItems(items[..|items| - 1])
      case Failure(e) => Failure(e)
      case Success(orfs) =>
        match ParseHeader(items[|items| - 1].0, items[|items| - 1].1)
        case Raised(e) => Failure(e)
        case Skipped => Success(orfs)
        case Parsed(o) => Success(orfs + [o])
  }

  /** Lines 53-59 for one ORF: create the contig entry and the code list if missing, then append. */
  function AddOrf(g: Grouping, o: OrfRecord): Grouping {
    var inner := if o.contig in g.items then g.items[o.contig] else EmptyDict();
    var bucket := if o.code in inner.items then inner.items[o.code] else [];
    Put(g, o.contig, Put(inner, o.code, bucket + [o]))
  }

  /** The dict after appending the ORFs one by one to an empty dict. */
  function Group(orfs: seq<OrfRecord>): Grouping {
    if orfs == [] then EmptyDict() else AddOrf(Group(orfs[..|orfs| - 1]), orfs[|orfs| - 1])
  }

  /** What `parse_orf_fastas` returns, or the exception that ends it. */
  function ParseOrfFastasSpec(files: seq<OrfFile>): Result<Grouping, PyError> {
    match ParseItems(Items(files))
    case Failure(e) => Failure(e)
    case Success(orfs) => Success(Group(orfs))
  }

  lemma ItemsStep(files: seq<OrfFile>, i: nat)
    requires i < |files|
    ensures Items(files[..i + 1]) == Items(files[..i]) + Tagged(files[i])
  {
    assert files[..i + 1][..i] == files[..i];
  }

  lemma {:induction false} ItemsAppend(a: seq<OrfFile>, b: seq<OrfFile>)
    ensures Items(a + b) == Items(a) + Items(b)
  {
    if b == [] {
      assert a + b == a;
    } else {
      var ab := a + b;
      var front, last := b[..|b| - 1], b[|b| - 1];
      assert ab[..|ab| - 1] == a + front && ab[|ab| - 1] == last;
      ItemsAppend(a, front);
      calc {
        Items(ab);
        Items(a + front) + Tagged(last);
        (Items(a) + Items(front)) + Tagged(last);
        Items(a) + (Items(front) + Tagged(last));
      }
    }
  }

  /** The items visited so far are a prefix of all items. */
  lemma ItemsSplit(files: seq<OrfFile>, i: nat, j: nat)
    requires i < |files| && j <= |files[i].records|
    ensures Items(files) == (Items(files[..i]) + Tagged(files[i])[..j]) + (Tagged(files[i])[j..] + Items(files[i + 1..]))
  {
    var t := Tagged(files[i]);
    assert files == files[..i + 1] + files[i + 1..];
    ItemsAppend(files[..i + 1], files[i + 1..]);
    ItemsStep(files, i);
    assert t == t[..j] + t[j..];
    calc {
      Items(files);
      (Items(files[..i]) + t) + Items(files[i + 1..]);
      (Items(files[..i]) + (t[..j] + t[j..])) + Items(files[i + 1..]);
      (Items(files[..i]) + t[..j]) + (t[j..] + Items(files[i + 1..]));
    }
  }

  lemma SeenStep(p: seq<(FastaRecord, string)>, f: OrfFile, j: nat)
    requires j < |f.records|
    ensures p + Tagged(f)[..j + 1] == (p + Tagged(f)[..j]) + [(f.records[j], f.code)]
  {
    var t := Tagged(f);
    assert t[..j + 1] == t[..j] + [t[j]];
  }

  lemma SeenEnds(p: seq<(FastaRecord, string)>, f: OrfFile)
    ensures p + Tagged(f)[..0] == p
    ensures p + Tagged(f)[..|f.records|] == p + Tagged(f)
  {
    var t := Tagged(f);
    assert t[..0] == [] && t[..|t|] == t;
  }

  /** An exception while reading file `i`, record `j`, ends the whole call with that exception. */
  lemma FailureEndsGrouping(files: seq<OrfFile>, i: nat, j: nat, e: PyError)
    requires i < |files| && j < |files[i].records|
    requires GroupItems(Items(files[..i]) + Tagged(files[i])[..j + 1]) == Failure(e)
    ensures ParseOrfFastasSpec(files) == Failure(e)
  {
    ItemsSplit(files, i, j + 1);
    GroupItemsFailure(Items(files[..i]) + Tagged(files[i])[..j + 1], Tagged(files[i])[j + 1..] + Items(files[i + 1..]), e);
    GroupItemsIsGroup(Items(files));
  }

  /**
   * Lines 53-59 as written: create `orf_data_by_contig[contig]` and
   * `orf_data_by_contig[contig][code]` when missing, then append the ORF.
   */
  method AppendOrf(g: Grouping, orf: OrfRecord) returns (h: Grouping)
    ensures h == AddOrf(g, orf)
  {
    ghost var inner0 := if orf.contig in g.items then g.items[orf.contig] else EmptyDict();
    ghost var bucket0 := if orf.code in inner0.items then inner0.items[orf.code] else [];
    ghost var g1 := g;
    h := g;
    if orf.contig !in h.items {
      h := Put(h, orf.contig, EmptyDict());
    }
    var inner := h.items[orf.contig];
    assert inner == inner0;
    ghost var h1 := h;
    if orf.code !in inner.items {
      inner := Put(inner, orf.code, []);
      h := Put(h, orf.contig, inner);
      PutTwice(h1, orf.contig, inner0, inner);
    }
    var bucket := inner.items[orf.code];
    assert bucket == bucket0;
    PutTwice(inner0, orf.code, [], bucket + [orf]);
    PutTwice(g, orf.contig, EmptyDict(), Put(inner, orf.code, bucket + [orf]));
    PutTwice(g, orf.contig, inner, Put(inner, orf.code, bucket + [orf]));
    h := Put(h, orf.contig, Put(inner, orf.code, bucket + [orf]));
  }

  /** One pass of the inner loop body on the dict built so far (lines 14-59). */
  function AddRecord(g: Grouping, record: FastaRecord, code: string): Result<Grouping, PyError> {
    match ParseHeader(record, code)
    case Raised(e) => Failure(e)
    case Skipped => Success(g)
    case Parsed(o) => Success(AddOrf(g, o))
  }

  /** The dict built from the items so far, or the first exception. */
  function GroupItems(items: seq<(FastaRecord, string)>): Result<Grouping, PyError> {
    if items == [] then Success(EmptyDict())
    else
      match GroupItems(items[..|items| - 1])
      case Failure(e) => Failure(e)
      case Success(g) => AddRecord(g, items[|items| - 1].0, items[|items| - 1].1)
  }

  /** Building the dict record by record is parsing all headers and then grouping the ORFs. */
  lemma {:induction false} GroupItemsIsGroup(items: seq<(FastaRecord, string)>)
    ensures GroupItems(items) == match ParseItems(items)
      case Failure(e) => Failure(e)
      case Success(orfs) => Success(Group(orfs))
  {
    if items != [] {
      var front := items[..|items| - 1];
      GroupItemsIsGroup(front);
      if ParseItems(front).Success? {
        var orfs := ParseItems(front).value;
        var x := items[|items| - 1];
        match ParseHeader(x.0, x.1) {
          case Parsed(o) =>
            assert (orfs + [o])[..|orfs|] == orfs;
          case _ =>
        }
      }
    }
  }

  lemma GroupItemsStep(p: seq<(FastaRecord, string)>, x: (FastaRecord, string))
    ensures GroupItems(p + [x]) == match GroupItems(p)
      case Failure(e) => Failure(e)
      case Success(g) => AddRecord(g, x.0, x.1)
  {
    assert (p + [x])[..|p|] == p;
  }

  /** An exception ends the fold: nothing after it is looked at. */
  lemma {:induction false} GroupItemsFailure(p: seq<(FastaRecord, string)>, q: seq<(FastaRecord, string)>, e: PyError)
    requires GroupItems(p) == Failure(e)
    ensures GroupItems(p + q) == Failure(e)
  {
    if q == [] {
      assert p + q == p;
    } else {
      var pq := p + q;
      assert pq[..|pq| - 1] == p + q[..|q| - 1];
      GroupItemsFailure(p, q[..|q| - 1], e);
    }
  }

  /** The body of the inner loop for one record: parse the header, then skip, raise or append. */
  method ParseRecordInto(g: Grouping, record: FastaRecord, code: string) returns (r: Result<Grouping, PyError>)
    ensures r == AddRecord(g, record, code)
  {
    match ParseHeader(record, code) {
      case Raised(e) =>
        r := Failure(e);
      case Skipped =>
        r := Success(g);
      case Parsed(orf) =>
        var h := AppendOrf(g, orf);
        r := Success(h);
    }
  }

  /**
   * The two nested loops of lines 11-59: `orf_data_by_contig` grows in
   * place, one record at a time, and the first exception ends the call.
   */
  method ParseOrfFastas(files: seq<OrfFile>) returns (r: Result<Grouping, PyError>)
    ensures r == ParseOrfFastasSpec(files)
  {
    var g: Grouping := EmptyDict();
    ghost var seen: seq<(FastaRecord, string)> := [];
    var i := 0;
    while i < |files|
      invariant 0 <= i <= |files|
      invariant seen == Items(files[..i])
      invariant GroupItems(seen) == Success(g)
    {
      var file := files[i];
      var j := 0;
      SeenEnds(Items(files[..i]), file);
      while j < |file.records|
        invariant 0 <= j <= |file.records|
        invariant seen == Items(files[..i]) + Tagged(file)[..j]
        invariant GroupItems(seen) == Success(g)
      {
        SeenStep(Items(files[..i]), file, j);
        GroupItemsStep(seen, (file.records[j], file.code));
        seen := seen + [(file.records[j], file.code)];
        var step := ParseRecordInto(g, file.records[j], file.code);
        if step.Failure? {
          FailureEndsGrouping(files, i, j, step.error);
          return Failure(step.error);
        }
        g := step.value;
        j := j + 1;
      }
      ItemsStep(files, i);
      i := i + 1;
    }
    assert files[..i] == files;
    GroupItemsIsGroup(seen);
    r := Success(g);
  }
}
