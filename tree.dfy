/**
 * The tree object of gogit: a stored object of kind "tree" together with
 * the entries parsed from its payload, and the operations on it.
 */
module Tree {
  import opened Wrappers
  import opened ByteStrings
  import Hex
  import opened Objects
  import opened TreeEntries
  import opened TreeInput
  import opened TreeSort
  import opened TreeParse
  import opened TreePrint
  import opened FileSystem
  import opened TreeCheckout

  class GitTree {
    var obj: GitObject
    var entries: seq<TreeEntry>

    /**
     * What every tree NewTree returns satisfies: the object is a tree, every
     * mode is 5 or 6 bytes long and the entries account for the whole payload.
     */
    ghost predicate Valid()
      reads this
    {
      obj.kind == TreeKind && ValidModes(entries) && |Serialize(entries)| == |obj.data|
    }

    /** The tree literal of NewTree: the object and no entries yet. */
    constructor (obj: GitObject)
      ensures this.obj == obj && entries == []
    {
      this.obj := obj;
      entries := [];
    }

    /** The type name of a tree, which is the kind of the object it was built from. */
    function Type(): (t: Bytes)
      reads this
      ensures Valid() ==> t == obj.kind
    {
      TreeKind
    }

    /** The payload length, which is the length of the records of the entries. */
    function DataSize(): (n: nat)
      reads this
      ensures Valid() ==> n == |Serialize(entries)|
    {
      |obj.data|
    }

    /** The text of the tree: per entry, the mode padded to six bytes, kind, hash and name. */
    method Print() returns (s: Bytes)
      requires Printable(entries)
      ensures s == Render(entries)
    {
      s := [];
      var es := entries;
      var i := 0;
      while i < |es|
        invariant 0 <= i <= |es|
        invariant Render(es) == s + Render(es[i..])
      {
        var e := es[i];
        var mode := Zeros(6 - |e.mode|) + e.mode;
        assert es[i..][1..] == es[i + 1..];
        s := s + (mode + [SP] + e.kind + [SP] + e.hash + [TAB] + e.name + [LF]);
        i := i + 1;
      }
    }

    /**
     * Reads the payload record by record, appending each entry to `entries`,
     * and sorts the entries by name once the payload is used up. On an error
     * the entries read before it stay appended and nothing is sorted.
     */
    method ParseData(store: Store) returns (err: Option<TreeError>)
      modifies this
      ensures obj == old(obj)
      ensures err == ParseEntries(obj.data, store).err
      ensures err.Some? ==> entries == old(entries) + ParseEntries(obj.data, store).entries
      ensures err.None? ==> entries == SortByName(old(entries) + ParseEntries(obj.data, store).entries)
    {
      var data := obj.data;
      var start := 0;
      ghost var done: seq<TreeEntry> := [];
      while start < |data|
        invariant 0 <= start <= |data|
        invariant obj == old(obj) && data == obj.data
        invariant entries == old(entries) + done
        invariant ParseEntries(data, store) == Then(Parsed(done, None), ParseEntries(data[start..], store))
        decreases |data| - start
      {
        var rest := data[start..];
        var read := ReadRecord(rest, store);
        if read.Err? {
          StopWith(done, ParseEntries(rest, store));
          return Some(read.error);
        }
        var (e, n) := read.value;
        var next := start + n;
        WalkStep(data, start, next, e, done, store);
        AppendOne(old(entries), done, e);
        entries := entries + [e];
        done := done + [e];
        start := next;
      }
      assert data[start..] == [];
      assert done + [] == done;
      entries := SortByName(entries);
      return None;
    }

    /**
     * Writes the entries below `path` on `disk`, in order: a directory and a
     * recursive checkout for a tree entry, a file for any other entry; the
     * first error is returned and what was written before it stays.
     */
    method Checkout(path: Path, store: Store, disk: Disk, depth: nat) returns (err: Option<TreeError>)
      requires ValidModes(entries)
      modifies disk
      ensures disk.nodes == CheckoutEntries(entries, path, store, old(disk.nodes), depth).nodes
      ensures err == CheckoutEntries(entries, path, store, old(disk.nodes), depth).err
      decreases depth, 2
    {
      var i := 0;
      while i < |entries|
        invariant 0 <= i <= |entries|
        invariant CheckoutEntries(entries, path, store, old(disk.nodes), depth) ==
                  CheckoutEntries(entries[i..], path, store, disk.nodes, depth)
      {
        assert entries[i] in entries;
        ghost var before := disk.nodes;
        EntriesStep(entries[i..], path, store, before, depth);
        assert entries[i..][1..] == entries[i + 1..];
        err := CheckoutOne(entries[i], path, store, disk, depth);
        if err.Some? {
          return;
        }
        i := i + 1;
      }
      return None;
    }
  }

  /**
   * One pass of the loop of Checkout: the object of the entry is looked up;
   * a tree entry becomes a directory, any other entry a file.
   */
  method CheckoutOne(e: TreeEntry, path: Path, store: Store, disk: Disk, depth: nat) returns (err: Option<TreeError>)
    requires ValidMode(e.mode)
    modifies disk
    ensures disk.nodes == CheckoutEntry(e, path, store, old(disk.nodes), depth).nodes
    ensures err == CheckoutEntry(e, path, store, old(disk.nodes), depth).err
    decreases depth, 1
  {
    if e.hash !in store {
      return Some(NotFound(e.hash));
    }
    if e.kind == TreeKind {
      err := CheckoutDir(Join(path, e.name), store[e.hash], store, disk, depth);
    } else {
      err := CheckoutFile(Join(path, e.name), store[e.hash], FileMode(e.mode), disk);
    }
  }

  /** A tree entry: os.Mkdir, NewTree on the object, then the checkout inside the new directory. */
  method CheckoutDir(p: Path, obj: GitObject, store: Store, disk: Disk, depth: nat) returns (err: Option<TreeError>)
    modifies disk
    ensures disk.nodes == CheckoutTree(p, obj, store, old(disk.nodes), depth).nodes
    ensures err == CheckoutTree(p, obj, store, old(disk.nodes), depth).err
    decreases depth, 0
  {
    var ok := disk.Mkdir(p);
    if !ok {
      return Some(IOFailure(p));
    }
    var t := NewTree(obj, store);
    if t.Err? {
      return Some(t.error);
    }
    if depth == 0 {
      return Some(DepthExhausted);
    }
    err := t.value.Checkout(p, store, disk, depth - 1);
  }

  /** Any other entry: NewBlob on the object, then ioutil.WriteFile of its bytes with `perm`. */
  method CheckoutFile(p: Path, obj: GitObject, perm: int, disk: Disk) returns (err: Option<TreeError>)
    modifies disk
    ensures disk.nodes == CheckoutBlob(p, obj, perm, old(disk.nodes)).nodes
    ensures err == CheckoutBlob(p, obj, perm, old(disk.nodes)).err
  {
    if obj.kind != BlobKind {
      return Some(NotBlob(obj.kind));
    }
    var ok := disk.WriteFile(p, obj.data, perm);
    if !ok {
      return Some(IOFailure(p));
    }
    return None;
  }

  /** The checkout of a non-empty run of entries is that of its head, then, without an error, that of the rest. */
  lemma EntriesStep(es: seq<TreeEntry>, path: Path, store: Store, nodes: Nodes, depth: nat)
    requires es != [] && ValidModes(es)
    ensures es[0] in es && ValidModes(es[1..])
    ensures var first := CheckoutEntry(es[0], path, store, nodes, depth);
      CheckoutEntries(es, path, store, nodes, depth) ==
        if first.err.Some? then first else CheckoutEntries(es[1..], path, store, first.nodes, depth)
  {
    assert es[0] in es;
  }

  /** A walk that stops at the head of the rest stops with what was read so far. */
  lemma StopWith(done: seq<TreeEntry>, head: Parsed)
    requires head.err.Some? && head.entries == []
    ensures Then(Parsed(done, None), head) == Parsed(done, head.err)
  {
    assert done + [] == done;
  }

  /**
   * One pass of the cursor loop of ParseData, on the payload left at the
   * cursor: the entry at its head and the length of its record, or the
   * error that ends the walk there.
   */
  method ReadRecord(rest: Bytes, store: Store) returns (r: Result<(TreeEntry, nat), TreeError>)
    requires |rest| > 0
    ensures r.Err? ==> ParseEntries(rest, store) == Parsed([], Some(r.error))
    ensures r.Ok? ==> 0 < r.value.1 <= |rest| && IsParsedEntry(r.value.0, store)
    ensures r.Ok? ==> Record(r.value.0) == rest[..r.value.1]
    ensures r.Ok? ==>
      var tail := ParseEntries(rest[r.value.1..], store);
      ParseEntries(rest, store) == Parsed([r.value.0] + tail.entries, tail.err)
  {
    var sp := IndexByte(rest, SP);
    if sp < 0 {
      return Err(Truncated);
    }
    var mode := rest[..sp];
    if |mode| != 5 && |mode| != 6 {
      return Err(BadMode(mode));
    }
    var nul := IndexByte(rest, NUL);
    if nul < sp || |rest| < nul + 21 {
      return Err(Truncated);
    }
    var name := rest[sp + 1..nul];
    var hash := Hex.Encode(rest[nul + 1..nul + 21]);
    if hash !in store {
      return Err(NotFound(hash));
    }
    var e := TreeEntry(mode, hash, store[hash].kind, name);
    ParsedHead(rest, sp, nul, e, store);
    var n: nat := nul + 21;
    return Ok((e, n));
  }

  /** A record read at the cursor moves its entry from the rest of the walk to what was read. */
  lemma WalkStep(data: Bytes, start: nat, next: nat, e: TreeEntry, done: seq<TreeEntry>, store: Store)
    requires start < next <= |data|
    requires ParseEntries(data[start..], store) ==
      Parsed([e] + ParseEntries(data[start..][next - start..], store).entries, ParseEntries(data[start..][next - start..], store).err)
    requires ParseEntries(data, store) == Then(Parsed(done, None), ParseEntries(data[start..], store))
    ensures ParseEntries(data, store) == Then(Parsed(done + [e], None), ParseEntries(data[next..], store))
  {
    assert data[start..][next - start..] == data[next..];
    ThenCons(done, e, ParseEntries(data[next..], store));
  }

  lemma AppendOne(before: seq<TreeEntry>, done: seq<TreeEntry>, e: TreeEntry)
    ensures before + done + [e] == before + (done + [e])
  {
  }

  /** Moving one entry from the rest of the walk to what was read so far. */
  lemma ThenCons(done: seq<TreeEntry>, e: TreeEntry, rest: Parsed)
    ensures Then(Parsed(done, None), Parsed([e] + rest.entries, rest.err)) ==
            Then(Parsed(done + [e], None), rest)
  {
    assert done + ([e] + rest.entries) == (done + [e]) + rest.entries;
  }

  /**
   * NewTree: a tree object becomes a tree whose entries are parsed from its
   * payload and sorted by name; any other object, or a payload that does not
   * parse, gives the error and no tree.
   */
  method NewTree(obj: GitObject, store: Store) returns (r: Result<GitTree, TreeError>)
    ensures r.Err? <==> NewTreeSpec(obj, store).Err?
    ensures r.Err? ==> r.error == NewTreeSpec(obj, store).error
    ensures r.Ok? ==> fresh(r.value) && r.value.obj == obj && r.value.Valid()
    ensures r.Ok? ==> r.value.entries == NewTreeSpec(obj, store).value
  {
    if obj.kind != TreeKind {
      return Err(BadType(obj.kind));
    }
    var tree := new GitTree(obj);
    var err := tree.ParseData(store);
    if err.Some? {
      return Err(err.value);
    }
    assert [] + ParseEntries(obj.data, store).entries == ParseEntries(obj.data, store).entries;
    NewTreeResult(obj, store);
    return Ok(tree);
  }

  /**
   * NewTreeFromInput: the payload built from the input lines is made a tree
   * object and handed to NewTree; a line that does not encode stops it first.
   */
  method NewTreeFromInput(input: Bytes, store: Store) returns (r: Result<GitTree, TreeError>)
    ensures EncodeInput(input).Err? ==> r == Err(EncodeInput(input).error)
    ensures EncodeInput(input).Ok? ==>
      var obj := GitObject(TreeKind, EncodeInput(input).value);
      && (r.Err? <==> NewTreeSpec(obj, store).Err?)
      && (r.Err? ==> r.error == NewTreeSpec(obj, store).error)
      && (r.Ok? ==> fresh(r.value) && r.value.obj == obj && r.value.Valid())
      && (r.Ok? ==> r.value.entries == NewTreeSpec(obj, store).value)
  {
    var data := BuildPayload(input);
    if data.Err? {
      return Err(data.error);
    }
    r := NewTree(GitObject(TreeKind, data.value), store);
  }

  /**
   * The loop of NewTreeFromInput: every non-empty line `mode kind hash<TAB>name`
   * appends the mode without leading zeros, SP, the name, NUL and the 20 hash
   * bytes to the payload; empty lines are skipped.
   */
  method BuildPayload(input: Bytes) returns (r: Result<Bytes, TreeError>)
    ensures r == EncodeInput(input)
  {
    var data: Bytes := [];
    var lines := SplitLines(input);
    var i := 0;
    ChainEmpty(EncodeLines(lines));
    assert lines[0..] == lines;
    while i < |lines|
      invariant 0 <= i <= |lines|
      invariant EncodeInput(input) == Chain(Ok(data), EncodeLines(lines[i..]))
    {
      var line := lines[i];
      assert lines[i..] == [line] + lines[i + 1..];
      if |line| == 0 {
        ChainThen(data, [], EncodeLines(lines[i + 1..]));
        assert data + [] == data;
        i := i + 1;
        continue;
      }
      var props := Fields(line);
      if |props| < 4 {
        return Err(MissingField(line));
      }
      var mode := TrimZeros(props[0]);
      var record := mode + [SP] + props[3] + [NUL];
      var raw := Hex.Decode(props[2]);
      if raw.None? {
        return Err(BadHex(props[2]));
      }
      ChainThen(data, record + raw.value, EncodeLines(lines[i + 1..]));
      assert data + record + raw.value == data + (record + raw.value);
      data := data + record + raw.value;
      i := i + 1;
    }
    assert data + [] == data;
    return Ok(data);
  }

  lemma ChainEmpty(rest: Result<Bytes, TreeError>)
    ensures Chain(Ok([]), rest) == rest
  {
    if rest.Ok? {
      assert [] + rest.value == rest.value;
    }
  }

  /** The bytes of one more line join the payload built so far. */
  lemma ChainThen(data: Bytes, x: Bytes, rest: Result<Bytes, TreeError>)
    ensures Chain(Ok(data), Chain(Ok(x), rest)) == Chain(Ok(data + x), rest)
  {
    if rest.Ok? {
      assert data + (x + rest.value) == data + x + rest.value;
    }
  }
}
