/**
 * `parse_nuc_fasta` (viewvir-module/bokehALL.py, lines 64-68): every
 * nucleotide record stored under its id, a later record with the same id
 * overwriting an earlier one.
 */
module NucFasta {
  import opened PyStrings
  import opened OrfHeader

  /**
   * The record id the FASTA reader derives from a description line: its
   * first word, that is the longest whitespace-free prefix of the line once
   * its leading whitespace is skipped, or "" when it has none.
   */
  function RecordId(r: FastaRecord): (id: string)
    ensures NoSpace(id)
    ensures id == "" <==> SplitWs(r.description) == []
    ensures var t := r.description[LeadingSpaces(r.description)..];
      id <= t && (|id| < |t| ==> IsSpace(t[|id|]))
  {
    var words := SplitWs(r.description);
    SplitWsFirst(r.description);
    if words == [] then "" else words[0]
  }

  /** The records stored in order, each under `key` of it, a later one overwriting an earlier one. */
  function StoreBy(records: seq<FastaRecord>, key: FastaRecord -> string): map<string, string> {
    if records == [] then map[]
    else
      var last := records[|records| - 1];
      StoreBy(records[..|records| - 1], key)[key(last) := last.sequence]
  }

  /** `nuc_data` after storing the records in order. */
  function NucMap(records: seq<FastaRecord>): map<string, string> {
    StoreBy(records, RecordId)
  }

  /** The loop of lines 65-67. */
  method ParseNucFasta(records: seq<FastaRecord>) returns (nuc: map<string, string>)
    ensures nuc == NucMap(records)
  {
    nuc := map[];
    var i := 0;
    while i < |records|
      invariant 0 <= i <= |records|
      invariant nuc == NucMap(records[..i])
    {
      assert records[..i + 1][..i] == records[..i];
      nuc := nuc[RecordId(records[i]) := records[i].sequence];
      i := i + 1;
    }
    assert records[..i] == records;
  }

  /** The keys stored are exactly the keys of the records. */
  lemma {:induction false} StoreKeys(records: seq<FastaRecord>, key: FastaRecord -> string, k: string)
    ensures k in StoreBy(records, key) <==> exists i :: 0 <= i < |records| && key(records[i]) == k
  {
    if records != [] {
      var front := records[..|records| - 1];
      StoreKeys(front, key, k);
      if exists i :: 0 <= i < |front| && key(front[i]) == k {
        var i :| 0 <= i < |front| && key(front[i]) == k;
        assert records[i] == front[i];
      }
      if exists i :: 0 <= i < |records| && key(records[i]) == k {
        var i :| 0 <= i < |records| && key(records[i]) == k;
        if i < |front| {
          assert front[i] == records[i];
        }
      }
    }
  }

  /** Each key holds the letters of the last record with that key. */
  lemma {:induction false} StoreLastWins(records: seq<FastaRecord>, key: FastaRecord -> string, i: nat)
    requires i < |records|
    requires forall j :: i < j < |records| ==> key(records[j]) != key(records[i])
    ensures key(records[i]) in StoreBy(records, key)
    ensures StoreBy(records, key)[key(records[i])] == records[i].sequence
  {
    var front := records[..|records| - 1];
    if i < |records| - 1 {
      assert forall j :: i < j < |front| ==> front[j] == records[j];
      StoreLastWins(front, key, i);
    }
  }

  /** The ids stored are exactly the ids of the records. */
  lemma NucKeys(records: seq<FastaRecord>, id: string)
    ensures id in NucMap(records) <==> exists i :: 0 <= i < |records| && RecordId(records[i]) == id
  {
    StoreKeys(records, RecordId, id);
  }

  /** Each id holds the letters of the last record with that id. */
  lemma NucLastWins(records: seq<FastaRecord>, i: nat)
    requires i < |records|
    requires forall j :: i < j < |records| ==> RecordId(records[j]) != RecordId(records[i])
    ensures RecordId(records[i]) in NucMap(records)
    ensures NucMap(records)[RecordId(records[i])] == records[i].sequence
  {
    StoreLastWins(records, RecordId, i);
  }
}
