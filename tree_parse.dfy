/**
 * The binary parser of ParseData: a cursor walks the payload record by
 * record, reads the mode up to the first SP, the name up to the first NUL,
 * hex-encodes the next 20 bytes and looks up the kind of that address.
 */
module TreeParse {
  import opened Wrappers
  import opened ByteStrings
  import Hex
  import opened Objects
  import opened TreeEntries
  import opened TreeSort

  /** The entries read so far and the error that stopped the walk, if any. */
  datatype Parsed = Parsed(entries: seq<TreeEntry>, err: Option<TreeError>)

  /** What every parsed entry satisfies. */
  predicate IsParsedEntry(e: TreeEntry, store: Store)
  {
    && ValidMode(e.mode) && SP !in e.mode && NUL !in e.mode && NUL !in e.name
    && Hex.IsHashText(e.hash) && e.hash in store && e.kind == store[e.hash].kind
  }

  /** `p` then `q`: once `p` has stopped with an error, `q` is not reached. */
  function Then(p: Parsed, q: Parsed): Parsed
  {
    if p.err.Some? then p else Parsed(p.entries + q.entries, q.err)
  }

  /** The run of the cursor loop over `data`, entries in payload order. */
  function ParseEntries(data: Bytes, store: Store): (p: Parsed)
    ensures forall e <- p.entries :: IsParsedEntry(e, store)
    ensures p.err.None? ==> Serialize(p.entries) == data
    decreases |data|
  {
    if |data| == 0 then Parsed([], None)
    else
      var sp := IndexByte(data, SP);
      if sp < 0 then Parsed([], Some(Truncated))
      else if sp != 5 && sp != 6 then Parsed([], Some(BadMode(data[..sp])))
      else
        var nul := IndexByte(data, NUL);
        if nul < sp || |data| < nul + 21 then Parsed([], Some(Truncated))
        else
          var raw := data[nul + 1..nul + 21];
          var hash := Hex.Encode(raw);
          if hash !in store then Parsed([], Some(NotFound(hash)))
          else
            var e := TreeEntry(data[..sp], hash, store[hash].kind, data[sp + 1..nul]);
            var rest := ParseEntries(data[nul + 21..], store);
            ParsedHead(data, sp, nul, e, store);
            ParsedCons(data, nul + 21, e, rest, store);
            Parsed([e] + rest.entries, rest.err)
  }

  /** The entry read at the head of the payload is well formed and re-serializes to its bytes. */
  lemma ParsedHead(data: Bytes, sp: int, nul: int, e: TreeEntry, store: Store)
    requires sp == IndexByte(data, SP) && (sp == 5 || sp == 6)
    requires nul == IndexByte(data, NUL) && sp <= nul && nul + 21 <= |data|
    requires Hex.Encode(data[nul + 1..nul + 21]) in store
    requires e == TreeEntry(data[..sp], Hex.Encode(data[nul + 1..nul + 21]),
                            store[Hex.Encode(data[nul + 1..nul + 21])].kind, data[sp + 1..nul])
    ensures IsParsedEntry(e, store)
    ensures Record(e) == data[..nul + 21]
  {
    var raw := data[nul + 1..nul + 21];
    Hex.DecodeEncode(raw);
    NotInSlice(data, nul, 0, sp, NUL);
    NotInSlice(data, nul, sp + 1, nul, NUL);
    RecordSlices(data, sp, nul);
  }

  /** Prefixing the head entry keeps both facts the walk guarantees. */
  lemma ParsedCons(data: Bytes, n: nat, e: TreeEntry, rest: Parsed, store: Store)
    requires n <= |data| && IsParsedEntry(e, store) && Record(e) == data[..n]
    requires forall x <- rest.entries :: IsParsedEntry(x, store)
    requires rest.err.None? ==> Serialize(rest.entries) == data[n..]
    ensures forall x <- [e] + rest.entries :: IsParsedEntry(x, store)
    ensures rest.err.None? ==> Serialize([e] + rest.entries) == data
  {
    assert ([e] + rest.entries)[1..] == rest.entries;
    assert data[..n] + data[n..] == data;
  }

  /** A byte absent from `s[..n]` is absent from every slice inside it. */
  lemma NotInSlice(s: Bytes, n: nat, i: nat, j: nat, b: byte)
    requires i <= j <= n <= |s| && b !in s[..n]
    ensures b !in s[i..j]
  {
    assert forall k :: i <= k < j ==> s[k] == s[..n][k];
  }

  /** The head of the payload cut at its SP and its NUL. */
  lemma RecordSlices(d: Bytes, sp: nat, nul: nat)
    requires sp < nul && nul + 21 <= |d| && d[sp] == SP && d[nul] == NUL
    ensures d[..nul + 21] == d[..sp] + [SP] + d[sp + 1..nul] + [NUL] + d[nul + 1..nul + 21]
  {
  }

  /** A record the parser can read back: valid mode, no separator inside, a 40-digit address. */
  predicate IsRecordEntry(e: TreeEntry)
  {
    ValidMode(e.mode) && SP !in e.mode && NUL !in e.mode && NUL !in e.name && Hex.IsHashText(e.hash)
  }

  /** Reference meaning of reading well-formed records: each kind is looked up in order, the first miss stops. */
  function Resolve(es: seq<TreeEntry>, store: Store): (p: Parsed)
    ensures p.err.None? <==> forall i :: 0 <= i < |es| ==> es[i].hash in store
    ensures p.err.Some? ==> p.err.value.NotFound? && p.err.value.hash !in store
    decreases |es|
  {
    if es == [] then Parsed([], None)
    else if es[0].hash !in store then Parsed([], Some(NotFound(es[0].hash)))
    else
      var rest := Resolve(es[1..], store);
      assert forall i :: 1 <= i < |es| ==> es[i] == es[1..][i - 1];
      Then(Parsed([es[0].(kind := store[es[0].hash].kind)], None), rest)
  }

  lemma ThenAssociative(p: Parsed, q: Parsed, r: Parsed)
    ensures Then(p, Then(q, r)) == Then(Then(p, q), r)
  {
    if p.err.None? && q.err.None? {
      assert p.entries + (q.entries + r.entries) == (p.entries + q.entries) + r.entries;
    }
  }

  /** Where the separators of a record followed by anything else are found. */
  lemma RecordLayout(e: TreeEntry, tail: Bytes)
    requires IsRecordEntry(e)
    ensures var d := Record(e) + tail;
      var sp := |e.mode|;
      var nul := |e.mode| + 1 + |e.name|;
      && IndexByte(d, SP) == sp
      && IndexByte(d, NUL) == nul
      && nul + 21 <= |d|
      && d[..sp] == e.mode
      && d[sp + 1..nul] == e.name
      && d[nul + 1..nul + 21] == RawHash(e.hash)
      && d[nul + 21..] == tail
  {
    Hex.EncodeDecode(e.hash);
    var raw := RawHash(e.hash);
    RecordRegroup(e.mode, e.name, raw, tail);
    FirstAfter(e.mode, SP, e.name + [NUL] + raw + tail);
    NotInHead(e.mode, e.name, NUL);
    FirstAfter(e.mode + [SP] + e.name, NUL, raw + tail);
    LayoutSlices(e.mode, e.name, raw, tail);
  }

  /** The same record bytes grouped around its SP and around its NUL. */
  lemma RecordRegroup(mode: Bytes, name: Bytes, raw: Bytes, tail: Bytes)
    ensures mode + [SP] + name + [NUL] + raw + tail == mode + [SP] + (name + [NUL] + raw + tail)
    ensures mode + [SP] + name + [NUL] + raw + tail == (mode + [SP] + name) + [NUL] + (raw + tail)
  {
  }

  /** A NUL-free mode and name leave the head of a record NUL-free. */
  lemma NotInHead(mode: Bytes, name: Bytes, b: byte)
    requires b !in mode && b !in name && b != SP
    ensures b !in mode + [SP] + name
  {
  }

  /** The first `b` of `a + [b] + c` when `a` has none. */
  lemma FirstAfter(a: Bytes, b: byte, c: Bytes)
    requires b !in a
    ensures IndexByte(a + [b] + c, b) == |a|
  {
    assert a + [b] + c == a + ([b] + c);
    IndexByteSkip(a, [b] + c, b);
  }

  lemma LayoutSlices(mode: Bytes, name: Bytes, raw: Bytes, tail: Bytes)
    ensures var d := mode + [SP] + name + [NUL] + raw + tail;
      var nul := |mode| + 1 + |name|;
      && d[..|mode|] == mode
      && d[|mode| + 1..nul] == name
      && d[nul + 1..nul + 1 + |raw|] == raw
      && d[nul + 1 + |raw|..] == tail
  {
  }

  /** Reading one well-formed record at the head of the payload. */
  lemma ParseRecord(e: TreeEntry, tail: Bytes, store: Store)
    requires IsRecordEntry(e)
    ensures ParseEntries(Record(e) + tail, store) ==
      if e.hash !in store then Parsed([], Some(NotFound(e.hash)))
      else Then(Parsed([e.(kind := store[e.hash].kind)], None), ParseEntries(tail, store))
  {
    RecordLayout(e, tail);
    Hex.EncodeDecode(e.hash);
  }

  /**
   * Encode/parse agreement: well-formed records followed by any bytes parse
   * record by record, with each kind looked up, and then on into the rest.
   */
  lemma {:induction false} ParseSerialized(es: seq<TreeEntry>, rest: Bytes, store: Store)
    requires forall i :: 0 <= i < |es| ==> IsRecordEntry(es[i])
    ensures ParseEntries(Serialize(es) + rest, store) == Then(Resolve(es, store), ParseEntries(rest, store))
    decreases |es|
  {
    if es == [] {
      assert Serialize(es) + rest == rest;
      assert Then(Parsed([], None), ParseEntries(rest, store)) == ParseEntries(rest, store);
    } else {
      var e := es[0];
      assert Serialize(es) + rest == Record(e) + (Serialize(es[1..]) + rest);
      ParseRecord(e, Serialize(es[1..]) + rest, store);
      if e.hash in store {
        ParseSerialized(es[1..], rest, store);
        ThenAssociative(Parsed([e.(kind := store[e.hash].kind)], None), Resolve(es[1..], store), ParseEntries(rest, store));
      }
    }
  }

  /** The payload of well-formed records parses to exactly their resolution. */
  lemma ParseExactly(es: seq<TreeEntry>, store: Store)
    requires forall i :: 0 <= i < |es| ==> IsRecordEntry(es[i])
    ensures ParseEntries(Serialize(es), store) == Resolve(es, store)
  {
    ParseSerialized(es, [], store);
    assert Serialize(es) + [] == Serialize(es);
    var p := Resolve(es, store);
    if p.err.None? {
      assert p.entries + [] == p.entries;
    }
  }

  /**
   * When the text before the first SP of a record is not 5 or 6 bytes long,
   * the walk stops there with BadMode, keeping the entries read before it.
   */
  lemma BadModeRejected(es: seq<TreeEntry>, rest: Bytes, store: Store)
    requires forall i :: 0 <= i < |es| ==> IsRecordEntry(es[i]) && es[i].hash in store
    requires SP in rest && IndexByte(rest, SP) != 5 && IndexByte(rest, SP) != 6
    ensures ParseEntries(Serialize(es) + rest, store) ==
      Parsed(Resolve(es, store).entries, Some(BadMode(rest[..IndexByte(rest, SP)])))
  {
    ParseSerialized(es, rest, store);
  }

  /** The first record whose address is not in the store stops the walk with NotFound. */
  lemma MissingObjectRejected(es: seq<TreeEntry>, store: Store, k: nat)
    requires forall i :: 0 <= i < |es| ==> IsRecordEntry(es[i])
    requires k < |es| && es[k].hash !in store
    requires forall i :: 0 <= i < k ==> es[i].hash in store
    ensures ParseEntries(Serialize(es), store).err == Some(NotFound(es[k].hash))
    ensures |ParseEntries(Serialize(es), store).entries| == k
  {
    ParseExactly(es, store);
    ResolveStopsAt(es, store, k);
  }

  lemma {:induction false} ResolveStopsAt(es: seq<TreeEntry>, store: Store, k: nat)
    requires k < |es| && es[k].hash !in store
    requires forall i :: 0 <= i < k ==> es[i].hash in store
    ensures Resolve(es, store).err == Some(NotFound(es[k].hash))
    ensures |Resolve(es, store).entries| == k
    decreases k
  {
    if k > 0 {
      ResolveStopsAt(es[1..], store, k - 1);
    }
  }

  /** NewTree on an object: the type check, then the parse, then the sort. */
  function NewTreeSpec(obj: GitObject, store: Store): (r: Result<seq<TreeEntry>, TreeError>)
    ensures r.Ok? ==> ValidModes(r.value)
  {
    if obj.kind != TreeKind then Err(BadType(obj.kind))
    else
      var p := ParseEntries(obj.data, store);
      if p.err.Some? then Err(p.err.value)
      else
        SortedMembers(p.entries);
        Ok(SortByName(p.entries))
  }

  /**
   * NewTree fails with BadType for any object that is not a tree and with the
   * parse error when the payload does not parse; otherwise its entries are the
   * parsed records, sorted by name, and they account for the whole payload.
   */
  lemma NewTreeResult(obj: GitObject, store: Store)
    ensures var r := NewTreeSpec(obj, store);
      && (obj.kind != TreeKind ==> r == Err(BadType(obj.kind)))
      && (obj.kind == TreeKind ==> (r.Err? <==> ParseEntries(obj.data, store).err.Some?))
      && (r.Err? && obj.kind == TreeKind ==> Some(r.error) == ParseEntries(obj.data, store).err)
      && (r.Ok? ==> SortedByName(r.value))
      && (r.Ok? ==> multiset(r.value) == multiset(ParseEntries(obj.data, store).entries))
      && (r.Ok? ==> |Serialize(r.value)| == |obj.data|)
      && (r.Ok? ==> forall e <- r.value :: IsParsedEntry(e, store))
  {
    if obj.kind == TreeKind {
      var p := ParseEntries(obj.data, store);
      if p.err.None? {
        SortKeepsSize(p.entries);
        SortedMembers(p.entries);
      }
    }
  }
}
