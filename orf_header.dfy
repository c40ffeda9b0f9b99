/**
 * One FASTA description line written by the ORF caller, parsed into an ORF
 * record, as `parse_orf_fastas` does it for each record
 * (viewvir-module/bokehALL.py, lines 14-51). A line is either parsed, skipped
 * (its location token has no `(`), or makes Python raise, which ends the
 * whole parse.
 */
module OrfHeader {
  import opened Wrappers
  import opened PyStrings
  import opened Collections

  /** A FASTA record as the FASTA reader hands it over: its description line and its letters. */
  datatype FastaRecord = FastaRecord(description: string, sequence: string)

  /** The two Python exceptions the header code can raise. */
  datatype PyError = IndexError | ValueError

  /** The dict built for one ORF (lines 38-51); absent metadata is `None`, an absent length is 0. */
  datatype OrfRecord = OrfRecord(
    contigFull: string,
    contig: string,
    start: int,
    end: int,
    strand: string,
    sequence: string,
    orfType: Option<string>,
    length: int,
    frame: Option<string>,
    startCodon: Option<string>,
    stopCodon: Option<string>,
    code: string)

  datatype HeaderOutcome = Parsed(orf: OrfRecord) | Skipped | Raised(error: PyError)

  /** The separator between a contig id and the ORF index in an ORF id. */
  const OrfMarker: string := "_ORF."

  /** The parent contig of an ORF id: the text before the first `_ORF.`, or the whole id. */
  function ContigId(full: string): (contig: string)
    ensures contig <= full
    ensures forall j :: 0 <= j < |contig| ==> !Occurs(full, OrfMarker, j)
    ensures contig != full <==> Occurs(full, OrfMarker, |contig|)
  {
    match FindFirst(full, OrfMarker)
    case Some(i) => full[..i]
    case None => full
  }

  /** `token.replace('[', '').replace(']', '')`. */
  function StripBrackets(token: string): string {
    ReplaceAll(ReplaceAll(token, "[", ""), "]", "")
  }

  datatype Location = Location(start: int, end: int, strand: string)

  /**
   * Lines 27-30, reached only when the token holds a `(`: unpacking
   * `split('(')` into two names and `map(int, coordinates.split('-'))` into
   * two integers, each of which raises `ValueError` when it fails.
   */
  function ParseLocation(cs: string): Result<Location, PyError> {
    var pieces := SplitOn(cs, '(');
    if |pieces| != 2 then Failure(ValueError)
    else
      var coordinates := Strip(pieces[0]);
      var strand := Strip(ReplaceAll(pieces[1], ")", ""));
      var bounds := SplitOn(coordinates, '-');
      if |bounds| != 2 then Failure(ValueError)
      else
        match (ParseInt(bounds[0]), ParseInt(bounds[1]))
        case (Some(start), Some(end)) => Success(Location(start, end, strand))
        case _ => Failure(ValueError)
  }

  /** `info.split(':')[0]` and `info.split(':')[1]`; the second raises `IndexError` without a `:`. */
  function MetaEntry(token: string): Result<(string, string), PyError> {
    var fields := SplitOn(token, ':');
    if |fields| < 2 then Failure(IndexError) else Success((fields[0], fields[1]))
  }

  /** The key and the value `info.split(':')[0]`, `info.split(':')[1]` of a token. */
  function TokenPair(token: string): (string, string) {
    var fields := SplitOn(token, ':');
    (fields[0], if |fields| > 1 then fields[1] else "")
  }

  /** The value of the last pair with key `k`: what a dict built from the pairs in order holds for `k`. */
  function LastValue(pairs: seq<(string, string)>, k: string): Option<string> {
    if pairs == [] then None
    else if pairs[|pairs| - 1].0 == k then Some(pairs[|pairs| - 1].1)
    else LastValue(pairs[..|pairs| - 1], k)
  }

  /** The dict comprehension of line 36: tokens left to right, a later key overwriting an earlier one. */
  function MetaDict(tokens: seq<string>): Result<map<string, string>, PyError> {
    if tokens == [] then Success(map[])
    else
      match MetaDict(tokens[..|tokens| - 1])
      case Failure(e) => Failure(e)
      case Success(info) =>
        match MetaEntry(tokens[|tokens| - 1])
        case Failure(e) => Failure(e)
        case Success(kv) => Success(info[kv.0 := kv.1])
  }

  /** `info.get(key)`. */
  function Get(info: map<string, string>, key: string): Option<string> {
    if key in info then Some(info[key]) else None
  }

  /** The loop body of lines 14-51 for one record of the file for genetic code `code`. */
  function ParseHeader(record: FastaRecord, code: string): HeaderOutcome {
    var parts := SplitWs(record.description);
    if |parts| == 0 then Raised(IndexError)
    else
      var contigFull := parts[0];
      var contig := ContigId(contigFull);
      if |parts| == 1 then Raised(IndexError)
      else
        var cs := StripBrackets(parts[1]);
        if '(' !in cs then Skipped
        else
          match ParseLocation(cs)
          case Failure(e) => Raised(e)
          case Success(loc) =>
            match MetaDict(parts[2..])
            case Failure(e) => Raised(e)
            case Success(info) =>
              var length := if "length" in info then ParseInt(info["length"]) else Some(0);
              if length.None? then Raised(ValueError)
              else
                Parsed(OrfRecord(contigFull, contig, loc.start, loc.end, loc.strand, record.sequence,
                                 Get(info, "type"), length.value, Get(info, "frame"),
                                 Get(info, "start"), Get(info, "stop"), code))
  }

  /** A metadata token is read as its key and value exactly when it holds a `:`; otherwise `IndexError`. */
  lemma MetaEntryCases(token: string)
    ensures ':' in token ==> MetaEntry(token) == Success(TokenPair(token))
    ensures ':' !in token ==> MetaEntry(token) == Failure(IndexError)
  {
    CountCharPositive(token, ':');
  }

  /**
   * The metadata dict is built exactly when every token holds a `:`, and
   * then each key holds the value of its last token (a repeated key keeps
   * its last value, an absent key is absent); otherwise `IndexError`.
   */
  lemma {:induction false} MetaDictLastWins(tokens: seq<string>)
    ensures MetaDict(tokens).Success? <==> forall i :: 0 <= i < |tokens| ==> ':' in tokens[i]
    ensures MetaDict(tokens).Failure? ==> MetaDict(tokens).error == IndexError
    ensures MetaDict(tokens).Success? ==>
      forall k :: Get(MetaDict(tokens).value, k) == LastValue(Map(tokens, TokenPair), k)
  {
    if tokens != [] {
      var front, last := tokens[..|tokens| - 1], tokens[|tokens| - 1];
      MetaDictLastWins(front);
      MetaEntryCases(last);
      assert Map(tokens, TokenPair)[..|front|] == Map(front, TokenPair);
      assert forall i :: 0 <= i < |front| ==> front[i] == tokens[i];
    }
  }

  /** A header is skipped exactly when it has a second token and that token, without brackets, has no `(`. */
  lemma SkipIff(record: FastaRecord, code: string)
    ensures ParseHeader(record, code) == Skipped <==>
      var parts := SplitWs(record.description);
      |parts| >= 2 && '(' !in StripBrackets(parts[1])
  {
  }

  /** A header with fewer than two tokens makes Python raise `IndexError` rather than being skipped. */
  lemma ShortHeaderRaises(record: FastaRecord, code: string)
    requires |SplitWs(record.description)| < 2
    ensures ParseHeader(record, code) == Raised(IndexError)
  {
  }

  /**
   * What a parsed header holds: the first token as the id, the contig cut
   * from it, the record's letters and the genetic code of its file, metadata
   * looked up by key (`None` when absent) and a length of 0 when absent.
   */
  lemma ParsedFields(record: FastaRecord, code: string)
    requires ParseHeader(record, code).Parsed?
    ensures var o := ParseHeader(record, code).orf;
      var parts := SplitWs(record.description);
      && |parts| >= 2 && MetaDict(parts[2..]).Success?
      && var info := MetaDict(parts[2..]).value;
      && o.contigFull == parts[0] && o.contig == ContigId(parts[0]) && o.contig <= o.contigFull
      && o.sequence == record.sequence && o.code == code
      && o.orfType == Get(info, "type") && o.frame == Get(info, "frame")
      && o.startCodon == Get(info, "start") && o.stopCodon == Get(info, "stop")
      && ("length" !in info ==> o.length == 0)
      && ("length" in info ==> ParseInt(info["length"]) == Some(o.length))
  {
  }
}
