/**
 * Tree entries, the tree engine's error cases, and the two byte formats an
 * entry list has: the binary payload of a tree object and the text of
 * `mode kind hash<TAB>name` lines.
 */
module TreeEntries {
  import opened Wrappers
  import opened ByteStrings
  import Hex

  /** One directory entry: octal mode text, address text, stored kind and name. */
  datatype TreeEntry = TreeEntry(mode: Bytes, hash: Bytes, kind: Bytes, name: Bytes)

  datatype TreeError =
    | BadType(kind: Bytes)       // "Malformed object: bad type %s"
    | BadMode(mode: Bytes)       // "Malformed object: bad mode %s"
    | BadHex(text: Bytes)        // the error of hex.DecodeString
    | MissingField(line: Bytes)  // the source indexes past the fields of a line and panics
    | Truncated                  // a record without SP or NUL, or too short for its hash
    | NotFound(hash: Bytes)      // the store holds no object at this address
    | NotBlob(kind: Bytes)       // a non-tree entry names an object that is not a blob
    | IOFailure(path: seq<Bytes>)  // creating the directory or writing the file failed
    | DepthExhausted             // the checkout recursion bound of the model ran out

  /** The mode lengths a parsed entry may have: 5 ("40000") or 6 ("100644"). */
  predicate ValidMode(mode: Bytes)
  {
    |mode| == 5 || |mode| == 6
  }

  predicate ValidModes(es: seq<TreeEntry>)
  {
    forall e <- es :: ValidMode(e.mode)
  }

  /** The 20 raw bytes an address text stands for (empty if it is not hex). */
  function RawHash(hash: Bytes): Bytes
  {
    match Hex.Decode(hash)
    case Some(raw) => raw
    case None => []
  }

  /** The binary record of one entry: mode, SP, name, NUL, raw hash bytes. */
  function Record(e: TreeEntry): Bytes
  {
    e.mode + [SP] + e.name + [NUL] + RawHash(e.hash)
  }

  /** The binary payload of a tree object: its records, concatenated. */
  function Serialize(es: seq<TreeEntry>): Bytes
  {
    if es == [] then [] else Record(es[0]) + Serialize(es[1..])
  }

  /** One line of the textual form: `mode SP kind SP hash TAB name LF`. */
  function Line(e: TreeEntry): Bytes
  {
    e.mode + [SP] + e.kind + [SP] + e.hash + [TAB] + e.name + [LF]
  }

  /** The textual form of an entry list, one line per entry. */
  function Text(es: seq<TreeEntry>): Bytes
  {
    if es == [] then [] else Line(es[0]) + Text(es[1..])
  }

  /** The entries with the leading zeros of every mode removed. */
  function TrimModes(es: seq<TreeEntry>): (r: seq<TreeEntry>)
    ensures |r| == |es|
    ensures forall i :: 0 <= i < |es| ==> r[i] == es[i].(mode := TrimZeros(es[i].mode))
  {
    seq(|es|, i requires 0 <= i < |es| => es[i].(mode := TrimZeros(es[i].mode)))
  }

  lemma {:induction false} SerializeAppend(a: seq<TreeEntry>, b: seq<TreeEntry>)
    ensures Serialize(a + b) == Serialize(a) + Serialize(b)
    decreases |a|
  {
    if a != [] {
      assert (a + b)[0] == a[0];
      assert (a + b)[1..] == a[1..] + b;
      SerializeAppend(a[1..], b);
      calc {
        Serialize(a + b);
        Record(a[0]) + Serialize(a[1..] + b);
        Record(a[0]) + (Serialize(a[1..]) + Serialize(b));
        (Record(a[0]) + Serialize(a[1..])) + Serialize(b);
      }
    } else {
      assert a + b == b;
    }
  }
}
