/**
 * The text-to-binary encoder of NewTreeFromInput: every non-empty input line
 * `mode kind hash<TAB>name` appends `mode-without-leading-zeros SP name NUL
 * raw-hash` to the payload; the kind field is not looked at.
 */
module TreeInput {
  import opened Wrappers
  import opened ByteStrings
  import Hex
  import opened TreeEntries

  /** What one input line appends to the payload, or the error it raises. */
  function EncodeLine(line: Bytes): Result<Bytes, TreeError>
  {
    if |line| == 0 then Ok([])
    else
      var props := Fields(line);
      if |props| < 4 then Err(MissingField(line))
      else
        match Hex.Decode(props[2])
        case None => Err(BadHex(props[2]))
        case Some(raw) => Ok(TrimZeros(props[0]) + [SP] + props[3] + [NUL] + raw)
  }

  /** `first` followed by `rest`: the first error wins, otherwise the bytes concatenate. */
  function Chain(first: Result<Bytes, TreeError>, rest: Result<Bytes, TreeError>): Result<Bytes, TreeError>
  {
    match first
    case Err(e) => Err(e)
    case Ok(d) =>
      match rest
      case Err(e) => Err(e)
      case Ok(x) => Ok(d + x)
  }

  /** The payload of a sequence of lines, line by line in order. */
  function EncodeLines(lines: seq<Bytes>): Result<Bytes, TreeError>
    decreases |lines|
  {
    if lines == [] then Ok([]) else Chain(EncodeLine(lines[0]), EncodeLines(lines[1..]))
  }

  /** The payload NewTreeFromInput builds from its input, or the error that stops it. */
  function EncodeInput(input: Bytes): Result<Bytes, TreeError>
  {
    EncodeLines(SplitLines(input))
  }

  /** An entry whose four fields can stand as whitespace-separated words of a line. */
  predicate IsInputEntry(e: TreeEntry)
  {
    IsToken(e.mode) && IsToken(e.kind) && IsToken(e.hash) && IsToken(e.name)
  }

  /** The hash field is text that hex.DecodeString accepts. */
  predicate HasHexHash(e: TreeEntry)
  {
    |e.hash| % 2 == 0 && Hex.IsHex(e.hash)
  }

  /** The reference size of a payload: per entry, trimmed mode, name, SP, NUL and 20 hash bytes. */
  function PayloadSize(es: seq<TreeEntry>): nat
  {
    if es == [] then 0 else |TrimZeros(es[0].mode)| + |es[0].name| + 22 + PayloadSize(es[1..])
  }

  lemma ChainAssociative(x: Result<Bytes, TreeError>, y: Result<Bytes, TreeError>, z: Result<Bytes, TreeError>)
    ensures Chain(x, Chain(y, z)) == Chain(Chain(x, y), z)
  {
    if x.Ok? && y.Ok? && z.Ok? {
      assert x.value + (y.value + z.value) == (x.value + y.value) + z.value;
    }
  }

  lemma {:induction false} EncodeLinesAppend(a: seq<Bytes>, b: seq<Bytes>)
    ensures EncodeLines(a + b) == Chain(EncodeLines(a), EncodeLines(b))
    decreases |a|
  {
    if a == [] {
      assert a + b == b;
      assert Chain(Ok([]), EncodeLines(b)) == EncodeLines(b) by {
        if EncodeLines(b).Ok? {
          assert [] + EncodeLines(b).value == EncodeLines(b).value;
        }
      }
    } else {
      assert (a + b)[1..] == a[1..] + b;
      EncodeLinesAppend(a[1..], b);
      ChainAssociative(EncodeLine(a[0]), EncodeLines(a[1..]), EncodeLines(b));
    }
  }

  /** Empty lines contribute nothing: doubling a line feed leaves the result unchanged. */
  lemma EmptyLineIgnored(a: Bytes, b: Bytes)
    ensures EncodeInput(a + [LF, LF] + b) == EncodeInput(a + [LF] + b)
  {
    var sa, sb := SplitLines(a), SplitLines(b);
    SplitDoubled(a, b);
    SplitLinesAppend(a, b);
    EncodeLinesAppend(sa, [[]] + sb);
    EncodeBlankThen(sb);
    EncodeLinesAppend(sa, sb);
  }

  /** A doubled line feed splits into an extra empty line. */
  lemma SplitDoubled(a: Bytes, b: Bytes)
    ensures SplitLines(a + [LF, LF] + b) == SplitLines(a) + ([[]] + SplitLines(b))
  {
    var c := [LF] + b;
    assert a + [LF, LF] + b == a + [LF] + c;
    SplitLinesAppend(a, c);
    LeadingFeed(b);
    SplitLinesCons([], b);
    assert SplitLines(c) == [[]] + SplitLines(b);
  }

  lemma LeadingFeed(b: Bytes)
    ensures [] + [LF] + b == [LF] + b
  {
  }

  lemma EncodeBlankThen(lines: seq<Bytes>)
    ensures EncodeLines([[]] + lines) == EncodeLines(lines)
  {
    assert ([[]] + lines)[1..] == lines;
    if EncodeLines(lines).Ok? {
      assert [] + EncodeLines(lines).value == EncodeLines(lines).value;
    }
  }

  /** The line of an input entry, without its line feed. */
  function Words(e: TreeEntry): Bytes
  {
    e.mode + [SP] + e.kind + [SP] + e.hash + [TAB] + e.name
  }

  lemma TokenHasNoLF(s: Bytes)
    requires NoSpace(s)
    ensures LF !in s
  {
  }

  /** The first line of the text of `es` is the words of `es[0]`. */
  lemma SplitText(es: seq<TreeEntry>)
    requires es != [] && IsInputEntry(es[0])
    ensures SplitLines(Text(es)) == [Words(es[0])] + SplitLines(Text(es[1..]))
  {
    var e := es[0];
    TokenHasNoLF(e.mode);
    TokenHasNoLF(e.kind);
    TokenHasNoLF(e.hash);
    TokenHasNoLF(e.name);
    assert LF !in Words(e);
    assert Text(es) == Words(e) + [LF] + Text(es[1..]);
    SplitLinesCons(Words(e), Text(es[1..]));
  }

  /** The line of an input entry, when its hash is hex, encodes to the record of the trimmed entry. */
  lemma EncodeWords(e: TreeEntry)
    requires IsInputEntry(e)
    ensures HasHexHash(e) ==> EncodeLine(Words(e)) == Ok(Record(e.(mode := TrimZeros(e.mode))))
    ensures !HasHexHash(e) ==> EncodeLine(Words(e)) == Err(BadHex(e.hash))
  {
    FieldsOfFour(e.mode, e.kind, e.hash, e.name);
  }

  lemma EncodeTextCons(es: seq<TreeEntry>)
    requires es != [] && IsInputEntry(es[0])
    ensures EncodeInput(Text(es)) == Chain(EncodeLine(Words(es[0])), EncodeInput(Text(es[1..])))
  {
    SplitText(es);
    var rest := SplitLines(Text(es[1..]));
    assert ([Words(es[0])] + rest)[1..] == rest;
  }

  /**
   * Encoding the text of input entries whose hashes are hex gives exactly the
   * records of the entries with their modes trimmed, in line order.
   */
  lemma {:induction false} EncodeText(es: seq<TreeEntry>)
    requires forall i :: 0 <= i < |es| ==> IsInputEntry(es[i]) && HasHexHash(es[i])
    ensures EncodeInput(Text(es)) == Ok(Serialize(TrimModes(es)))
    decreases |es|
  {
    if es == [] {
      EncodeEmptyText();
      assert TrimModes(es) == [];
    } else {
      EncodeTextStep(es);
      EncodeText(es[1..]);
      SerializeTrimmedCons(es);
    }
  }

  lemma EncodeTextStep(es: seq<TreeEntry>)
    requires es != [] && IsInputEntry(es[0]) && HasHexHash(es[0])
    ensures EncodeInput(Text(es)) == Chain(Ok(Record(TrimModes(es)[0])), EncodeInput(Text(es[1..])))
  {
    EncodeTextCons(es);
    EncodeWords(es[0]);
  }

  lemma SerializeTrimmedCons(es: seq<TreeEntry>)
    requires es != []
    ensures Serialize(TrimModes(es)) == Record(TrimModes(es)[0]) + Serialize(TrimModes(es[1..]))
  {
    assert TrimModes(es)[1..] == TrimModes(es[1..]);
  }

  lemma EncodeEmptyText()
    ensures EncodeInput([]) == Ok([])
  {
    assert SplitLines([]) == [[]];
    EncodeBlankThen([]);
  }

  /** The first entry whose hash is not hex makes the whole construction fail with its hash text. */
  lemma {:induction false} EncodeTextBadHash(es: seq<TreeEntry>, k: nat)
    requires forall i :: 0 <= i < |es| ==> IsInputEntry(es[i])
    requires k < |es| && !HasHexHash(es[k])
    requires forall i :: 0 <= i < k ==> HasHexHash(es[i])
    ensures EncodeInput(Text(es)) == Err(BadHex(es[k].hash))
    decreases k
  {
    if k == 0 {
      EncodeTextCons(es);
      EncodeWords(es[0]);
    } else {
      EncodeTextStep(es);
      var tail := es[1..];
      assert forall i :: 0 <= i < |tail| ==> tail[i] == es[i + 1];
      EncodeTextBadHash(tail, k - 1);
      ChainOkErr(Record(TrimModes(es)[0]), EncodeInput(Text(tail)));
    }
  }

  lemma ChainOkErr(x: Bytes, r: Result<Bytes, TreeError>)
    requires r.Err?
    ensures Chain(Ok(x), r) == r
  {
  }

  /** With 40-digit hashes the payload has PayloadSize bytes. */
  lemma {:induction false} EncodedSize(es: seq<TreeEntry>)
    requires forall i :: 0 <= i < |es| ==> IsInputEntry(es[i]) && HasHexHash(es[i]) && |es[i].hash| == 40
    ensures EncodeInput(Text(es)).Ok?
    ensures |EncodeInput(Text(es)).value| == PayloadSize(es)
  {
    EncodeText(es);
    SerializeSize(es);
  }

  lemma {:induction false} SerializeSize(es: seq<TreeEntry>)
    requires forall i :: 0 <= i < |es| ==> HasHexHash(es[i]) && |es[i].hash| == 40
    ensures |Serialize(TrimModes(es))| == PayloadSize(es)
    decreases |es|
  {
    if es != [] {
      assert TrimModes(es)[1..] == TrimModes(es[1..]);
      SerializeSize(es[1..]);
    }
  }
}
