/**
 * The header layout the ORF caller writes and the parser of OrfHeader
 * reads back: `<orf id> [<start>-<end>(<strand>)] type:.. length:.. frame:..
 * start:.. stop:..`. Formatting a record and parsing the header gives the
 * record back, which pins down what `ParseHeader` extracts from each token.
 */
module OrfHeaderFormat {
  import opened Wrappers
  import opened PyStrings
  import opened OrfHeader

  /** One `key:value` metadata token. */
  function MetaToken(pair: (string, string)): string {
    pair.0 + ":" + pair.1
  }

  /** The metadata tokens for a list of key/value pairs, in order. */
  function MetaTokens(pairs: seq<(string, string)>): (r: seq<string>)
    ensures |r| == |pairs|
    ensures forall i :: 0 <= i < |r| ==> r[i] == MetaToken(pairs[i])
  {
    if pairs == [] then [] else MetaTokens(pairs[..|pairs| - 1]) + [MetaToken(pairs[|pairs| - 1])]
  }

  /** A pair for `key` when the value is present. */
  function WithMeta(pairs: seq<(string, string)>, key: string, value: Option<string>): seq<(string, string)> {
    if value.Some? then pairs + [(key, value.value)] else pairs
  }

  /** The metadata of an ORF in the order the caller writes it; the length is always written. */
  function MetaPairs(o: OrfRecord): seq<(string, string)> {
    var typed := WithMeta([], "type", o.orfType) + [("length", IntToString(o.length))];
    WithMeta(WithMeta(WithMeta(typed, "frame", o.frame), "start", o.startCodon), "stop", o.stopCodon)
  }

  /** The location token, `[start-end(strand)]`. */
  function LocationToken(o: OrfRecord): string {
    "[" + IntToString(o.start) + "-" + IntToString(o.end) + "(" + o.strand + ")]"
  }

  /** The description line of an ORF record. */
  function FormatHeader(o: OrfRecord): string {
    JoinWith([o.contigFull, LocationToken(o)] + MetaTokens(MetaPairs(o)), " ")
  }

  /** A metadata value that survives the round trip: one token, no `:`. */
  predicate PlainValue(v: Option<string>) {
    v.Some? ==> NoSpace(v.value) && ':' !in v.value
  }

  /**
   * The records whose header the parser reads back unchanged: an id without
   * whitespace, the contig derived from it, non-negative coordinates (a `-`
   * sign would add a third piece to `split('-')`), a strand without brackets,
   * parentheses or whitespace, and plain metadata values.
   */
  predicate Formattable(o: OrfRecord) {
    && o.contigFull != [] && NoSpace(o.contigFull) && o.contig == ContigId(o.contigFull)
    && o.start >= 0 && o.end >= 0
    && NoSpace(o.strand)
    && '(' !in o.strand && ')' !in o.strand && '[' !in o.strand && ']' !in o.strand
    && PlainValue(o.orfType) && PlainValue(o.frame) && PlainValue(o.startCodon) && PlainValue(o.stopCodon)
  }

  /** The decimal text of a non-negative integer: one non-empty token of digits, free of the separators. */
  lemma DigitText(n: int)
    requires n >= 0
    ensures IntToString(n) != [] && NoSpace(IntToString(n))
    ensures '-' !in IntToString(n) && '(' !in IntToString(n) && ')' !in IntToString(n)
    ensures '[' !in IntToString(n) && ']' !in IntToString(n)
  {
    var ds := IntToString(n);
    assert forall i :: 0 <= i < |ds| ==> IsDigit(ds[i]);
  }

  /** The decimal text of any integer is one token without `:`. */
  lemma IntTextPlain(n: int)
    ensures NoSpace(IntToString(n)) && ':' !in IntToString(n)
  {
    var ds := NatToString(if n < 0 then -n else n);
    assert forall i :: 0 <= i < |ds| ==> IsDigit(ds[i]);
    assert IntToString(n) == if n < 0 then "-" + ds else ds;
  }

  /** A metadata token splits at its first `:` into the key and the value. */
  lemma MetaEntryOfToken(pair: (string, string))
    requires ':' !in pair.0 && ':' !in pair.1
    ensures MetaEntry(MetaToken(pair)) == Success(pair)
  {
    assert MetaToken(pair) == pair.0 + [':'] + pair.1;
    SplitOnFirst(pair.0, pair.1, ':');
    SplitOnAbsent(pair.1, ':');
  }

  /** A pair that makes one whitespace-free token which splits back at its `:`. */
  predicate PlainPair(pair: (string, string)) {
    pair.0 != [] && NoSpace(pair.0) && ':' !in pair.0 && NoSpace(pair.1) && ':' !in pair.1
  }

  predicate PlainPairs(pairs: seq<(string, string)>) {
    forall i :: 0 <= i < |pairs| ==> PlainPair(pairs[i])
  }

  /** The dict built from well-formed metadata tokens holds, for each key, the value of its last pair. */
  lemma {:induction false} MetaDictOfPairs(pairs: seq<(string, string)>)
    requires PlainPairs(pairs)
    ensures MetaDict(MetaTokens(pairs)).Success?
    ensures forall k :: Get(MetaDict(MetaTokens(pairs)).value, k) == LastValue(pairs, k)
  {
    if pairs != [] {
      var front, last := pairs[..|pairs| - 1], pairs[|pairs| - 1];
      var tokens := MetaTokens(pairs);
      assert PlainPairs(front);
      MetaDictOfPairs(front);
      assert tokens[..|tokens| - 1] == MetaTokens(front);
      MetaEntryOfToken(last);
    }
  }

  lemma LastValueWithOther(pairs: seq<(string, string)>, key: string, value: Option<string>, k: string)
    requires k != key
    ensures LastValue(WithMeta(pairs, key, value), k) == LastValue(pairs, k)
  {
    if value.Some? {
      assert (pairs + [(key, value.value)])[..|pairs|] == pairs;
    }
  }

  lemma LastValueWithSame(pairs: seq<(string, string)>, key: string, value: Option<string>)
    requires value.Some?
    ensures LastValue(WithMeta(pairs, key, value), key) == value
  {
  }

  lemma LastValueWithNone(pairs: seq<(string, string)>, key: string)
    ensures LastValue(WithMeta(pairs, key, None), key) == LastValue(pairs, key)
  {
  }

  lemma LastValueWith(pairs: seq<(string, string)>, key: string, value: Option<string>)
    requires LastValue(pairs, key) == None
    ensures LastValue(WithMeta(pairs, key, value), key) == value
  {
    if value.Some? {
      LastValueWithSame(pairs, key, value);
    }
  }

  /** Each metadata key looks up the field it was written from. */
  lemma MetaPairsLookup(o: OrfRecord)
    ensures LastValue(MetaPairs(o), "type") == o.orfType
    ensures LastValue(MetaPairs(o), "length") == Some(IntToString(o.length))
    ensures LastValue(MetaPairs(o), "frame") == o.frame
    ensures LastValue(MetaPairs(o), "start") == o.startCodon
    ensures LastValue(MetaPairs(o), "stop") == o.stopCodon
  {
    var t := WithMeta([], "type", o.orfType);
    var typed := t + [("length", IntToString(o.length))];
    var f := WithMeta(typed, "frame", o.frame);
    var s := WithMeta(f, "start", o.startCodon);
    assert typed[..|t|] == t;
    assert LastValue(t, "type") == o.orfType by { LastValueWith([], "type", o.orfType); }
    assert LastValue(t, "frame") == None by { LastValueWithOther([], "type", o.orfType, "frame"); }
    assert LastValue(t, "start") == None by { LastValueWithOther([], "type", o.orfType, "start"); }
    assert LastValue(t, "stop") == None by { LastValueWithOther([], "type", o.orfType, "stop"); }
    LastValueWithOther(typed, "frame", o.frame, "type");
    LastValueWithOther(f, "start", o.startCodon, "type");
    LastValueWithOther(s, "stop", o.stopCodon, "type");
    LastValueWithOther(typed, "frame", o.frame, "length");
    LastValueWithOther(f, "start", o.startCodon, "length");
    LastValueWithOther(s, "stop", o.stopCodon, "length");
    LastValueWith(typed, "frame", o.frame);
    LastValueWithOther(f, "start", o.startCodon, "frame");
    LastValueWithOther(s, "stop", o.stopCodon, "frame");
    LastValueWithOther(typed, "frame", o.frame, "start");
    LastValueWith(f, "start", o.startCodon);
    LastValueWithOther(s, "stop", o.stopCodon, "start");
    LastValueWithOther(typed, "frame", o.frame, "stop");
    LastValueWithOther(f, "start", o.startCodon, "stop");
    LastValueWith(s, "stop", o.stopCodon);
  }

  lemma PlainAppend(pairs: seq<(string, string)>, pair: (string, string))
    requires PlainPairs(pairs) && PlainPair(pair)
    ensures PlainPairs(pairs + [pair])
  {
  }

  lemma WithMetaPlain(pairs: seq<(string, string)>, key: string, value: Option<string>)
    requires PlainPairs(pairs) && PlainValue(value)
    requires key != [] && NoSpace(key) && ':' !in key
    ensures PlainPairs(WithMeta(pairs, key, value))
  {
    if value.Some? {
      PlainAppend(pairs, (key, value.value));
    }
  }

  lemma LengthPairPlain(n: int)
    ensures PlainPair(("length", IntToString(n)))
  {
    IntTextPlain(n);
  }

  /** Every metadata pair of a formattable record is plain. */
  lemma MetaPairsPlain(o: OrfRecord)
    requires PlainValue(o.orfType) && PlainValue(o.frame) && PlainValue(o.startCodon) && PlainValue(o.stopCodon)
    ensures PlainPairs(MetaPairs(o))
  {
    var t := WithMeta([], "type", o.orfType);
    WithMetaPlain([], "type", o.orfType);
    LengthPairPlain(o.length);
    PlainAppend(t, ("length", IntToString(o.length)));
    var typed := t + [("length", IntToString(o.length))];
    var f := WithMeta(typed, "frame", o.frame);
    WithMetaPlain(typed, "frame", o.frame);
    var s := WithMeta(f, "start", o.startCodon);
    WithMetaPlain(f, "start", o.startCodon);
    WithMetaPlain(s, "stop", o.stopCodon);
  }

  /** Brackets are dropped from a bracket-free text between `[` and `]`. */
  lemma StripBracketsOf(inner: string)
    requires '[' !in inner && ']' !in inner
    ensures StripBrackets("[" + inner + "]") == inner
  {
    ReplaceCharConcat("[", inner + "]", '[', "");
    assert ReplaceAll("[", "[", "") == "" by {
      assert "["[..1] == "[";
      assert "[" [1..] == [];
    }
    ReplaceCharAbsent(inner + "]", '[', "");
    assert "[" + inner + "]" == "[" + (inner + "]");
    assert "" + (inner + "]") == inner + "]";
    ReplaceCharConcat(inner, "]", ']', "");
    ReplaceCharAbsent(inner, ']', "");
    assert ReplaceAll("]", "]", "") == "" by {
      assert "]"[..1] == "]";
      assert "]" [1..] == [];
    }
    assert inner + "" == inner;
  }

  /** The strand piece `strand)` loses its parenthesis. */
  lemma StrandPiece(strand: string)
    requires ')' !in strand && NoSpace(strand)
    ensures Strip(ReplaceAll(strand + ")", ")", "")) == strand
  {
    ReplaceCharConcat(strand, ")", ')', "");
    ReplaceCharAbsent(strand, ')', "");
    assert ReplaceAll(")", ")", "") == "" by {
      assert ")"[..1] == ")";
      assert ")" [1..] == [];
    }
    assert strand + "" == strand;
    StripUnchanged(strand);
  }

  /** `a-b` splits into its two numbers. */
  lemma CoordinatePieces(a: string, b: string)
    requires a != [] && b != [] && NoSpace(a) && NoSpace(b) && '-' !in a && '-' !in b
    ensures Strip(a + "-" + b) == a + "-" + b
    ensures SplitOn(a + "-" + b, '-') == [a, b]
  {
    var c := a + "-" + b;
    assert c[0] == a[0] && c[|c| - 1] == b[|b| - 1];
    StripUnchanged(c);
    assert c == a + ['-'] + b;
    SplitOnFirst(a, b, '-');
    SplitOnAbsent(b, '-');
  }

  /** `a-b(strand)` splits at its one `(`. */
  lemma CharNotIn3(x: string, y: string, z: string, c: char)
    requires c !in x && c !in y && c !in z
    ensures c !in x + y + z
  {
  }

  lemma LocationPieces(a: string, b: string, strand: string)
    requires '(' !in a && '(' !in b && '(' !in strand
    ensures SplitOn(a + "-" + b + "(" + strand + ")", '(') == [a + "-" + b, strand + ")"]
  {
    var coordinates := a + "-" + b;
    var tail := strand + ")";
    CharNotIn3(a, "-", b, '(');
    CharNotIn3(strand, ")", [], '(');
    assert tail + [] == tail;
    assert coordinates + ['('] + tail == coordinates + "(" + strand + ")";
    SplitOnOnce(coordinates, tail, '(');
  }

  /** `a-b(strand)` is read as the location with the values of `a` and `b`. */
  lemma ParseLocationOf(a: string, b: string, strand: string, start: int, end: int)
    requires a != [] && b != [] && NoSpace(a) && NoSpace(b) && '-' !in a && '-' !in b
    requires '(' !in a && '(' !in b && '(' !in strand && ')' !in strand && NoSpace(strand)
    requires ParseInt(a) == Some(start) && ParseInt(b) == Some(end)
    ensures ParseLocation(a + "-" + b + "(" + strand + ")") == Success(Location(start, end, strand))
  {
    LocationPieces(a, b, strand);
    StrandPiece(strand);
    CoordinatePieces(a, b);
  }

  /** The location token `[a-b(strand)]` is one token. */
  lemma LocationNoSpace(a: string, b: string, strand: string)
    requires NoSpace(a) && NoSpace(b) && NoSpace(strand)
    ensures NoSpace("[" + a + "-" + b + "(" + strand + ")]")
  {
    NoSpaceConcat("[", a);
    NoSpaceConcat("[" + a, "-");
    NoSpaceConcat("[" + a + "-", b);
    NoSpaceConcat("[" + a + "-" + b, "(");
    NoSpaceConcat("[" + a + "-" + b + "(", strand);
    NoSpaceConcat("[" + a + "-" + b + "(" + strand, ")]");
  }

  /** Dropping the brackets of `[a-b(strand)]` leaves `a-b(strand)`. */
  lemma LocationBrackets(a: string, b: string, strand: string)
    requires '[' !in a && '[' !in b && '[' !in strand && ']' !in a && ']' !in b && ']' !in strand
    ensures StripBrackets("[" + a + "-" + b + "(" + strand + ")]") == a + "-" + b + "(" + strand + ")"
  {
    var inner := a + "-" + b + "(" + strand + ")";
    assert "[" + a + "-" + b + "(" + strand + ")]" == "[" + inner + "]";
    StripBracketsOf(inner);
  }

  /** The location token of a formattable record, and what it parses to. */
  lemma LocationOfRecord(o: OrfRecord)
    requires Formattable(o)
    ensures NoSpace(LocationToken(o)) && '(' in StripBrackets(LocationToken(o))
    ensures ParseLocation(StripBrackets(LocationToken(o))) == Success(Location(o.start, o.end, o.strand))
  {
    DigitText(o.start);
    DigitText(o.end);
    ParseIntToString(o.start);
    ParseIntToString(o.end);
    var a, b := IntToString(o.start), IntToString(o.end);
    assert LocationToken(o) == "[" + a + "-" + b + "(" + o.strand + ")]";
    LocationNoSpace(a, b, o.strand);
    LocationBrackets(a, b, o.strand);
    assert (a + "-" + b + "(" + o.strand + ")")[|a| + |b| + 1] == '(';
    ParseLocationOf(a, b, o.strand, o.start, o.end);
  }

  /** The metadata tokens are non-empty and free of whitespace. */
  lemma MetaTokensPlain(pairs: seq<(string, string)>)
    requires PlainPairs(pairs)
    ensures Words(MetaTokens(pairs))
  {
    forall i | 0 <= i < |pairs| ensures MetaTokens(pairs)[i] != [] && NoSpace(MetaTokens(pairs)[i]) {
      assert PlainPair(pairs[i]);
      NoSpaceConcat(pairs[i].0, ":");
      NoSpaceConcat(pairs[i].0 + ":", pairs[i].1);
    }
  }

  /** Words joined by single spaces split back into the same words. */
  lemma JoinedTokens(id: string, location: string, meta: seq<string>)
    requires id != [] && NoSpace(id) && location != [] && NoSpace(location) && Words(meta)
    ensures SplitWs(JoinWith([id, location] + meta, " ")) == [id, location] + meta
  {
    assert Words([id, location]);
    WordsConcat([id, location], meta);
    SplitWsJoin([id, location] + meta);
  }

  /** The header splits at whitespace into the id, the location token and the metadata tokens. */
  lemma HeaderTokens(o: OrfRecord)
    requires Formattable(o)
    ensures SplitWs(FormatHeader(o)) == [o.contigFull, LocationToken(o)] + MetaTokens(MetaPairs(o))
  {
    LocationOfRecord(o);
    MetaPairsPlain(o);
    MetaTokensPlain(MetaPairs(o));
    JoinedTokens(o.contigFull, LocationToken(o), MetaTokens(MetaPairs(o)));
  }

  /**
   * The success path of the header parser: a header whose location token
   * holds a `(` and parses, and whose metadata tokens all hold a `:`, gives
   * the record with the looked-up metadata and the length read with `int()`.
   */
  lemma ParseHeaderOfParts(r: FastaRecord, code: string, id: string, location: string, meta: seq<string>,
                           loc: Location, info: map<string, string>, length: int, orf: OrfRecord)
    requires SplitWs(r.description) == [id, location] + meta
    requires '(' in StripBrackets(location) && ParseLocation(StripBrackets(location)) == Success(loc)
    requires MetaDict(meta) == Success(info)
    requires if "length" in info then ParseInt(info["length"]) == Some(length) else length == 0
    requires orf == OrfRecord(id, ContigId(id), loc.start, loc.end, loc.strand, r.sequence,
      Get(info, "type"), length, Get(info, "frame"), Get(info, "start"), Get(info, "stop"), code)
    ensures ParseHeader(r, code) == Parsed(orf)
  {
    var parts := SplitWs(r.description);
    assert parts[0] == id && parts[1] == location && parts[2..] == meta;
  }

  /** Plain pairs are read back into the values their keys last took. */
  lemma MetaOfPairs(pairs: seq<(string, string)>, o: OrfRecord)
    requires PlainPairs(pairs)
    requires LastValue(pairs, "type") == o.orfType && LastValue(pairs, "length") == Some(IntToString(o.length))
    requires LastValue(pairs, "frame") == o.frame && LastValue(pairs, "start") == o.startCodon
    requires LastValue(pairs, "stop") == o.stopCodon
    ensures MetaDict(MetaTokens(pairs)).Success?
    ensures var info := MetaDict(MetaTokens(pairs)).value;
      && "length" in info && info["length"] == IntToString(o.length)
      && Get(info, "type") == o.orfType && Get(info, "frame") == o.frame
      && Get(info, "start") == o.startCodon && Get(info, "stop") == o.stopCodon
  {
    MetaDictKey(pairs, "type");
    MetaDictKey(pairs, "length");
    MetaDictKey(pairs, "frame");
    MetaDictKey(pairs, "start");
    MetaDictKey(pairs, "stop");
  }

  lemma MetaDictKey(pairs: seq<(string, string)>, k: string)
    requires PlainPairs(pairs)
    ensures MetaDict(MetaTokens(pairs)).Success?
    ensures Get(MetaDict(MetaTokens(pairs)).value, k) == LastValue(pairs, k)
  {
    MetaDictOfPairs(pairs);
  }

  /** The metadata tokens of a formattable record are read back into its metadata fields. */
  lemma MetaOfRecord(o: OrfRecord)
    requires Formattable(o)
    ensures MetaDict(MetaTokens(MetaPairs(o))).Success?
    ensures var info := MetaDict(MetaTokens(MetaPairs(o))).value;
      && "length" in info && info["length"] == IntToString(o.length)
      && Get(info, "type") == o.orfType && Get(info, "frame") == o.frame
      && Get(info, "start") == o.startCodon && Get(info, "stop") == o.stopCodon
  {
    MetaPairsPlain(o);
    MetaPairsLookup(o);
    MetaOfPairs(MetaPairs(o), o);
  }

  /** Parsing a formatted header gives the record back. */
  lemma ParseFormatted(o: OrfRecord)
    requires Formattable(o)
    ensures ParseHeader(FastaRecord(FormatHeader(o), o.sequence), o.code) == Parsed(o)
  {
    var meta := MetaTokens(MetaPairs(o));
    HeaderTokens(o);
    LocationOfRecord(o);
    MetaOfRecord(o);
    ParseIntToString(o.length);
    ParseHeaderOfParts(FastaRecord(FormatHeader(o), o.sequence), o.code, o.contigFull, LocationToken(o), meta,
                       Location(o.start, o.end, o.strand), MetaDict(meta).value, o.length, o);
  }
}
