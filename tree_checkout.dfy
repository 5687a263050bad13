/**
 * What Checkout does to the filesystem: entries in order, a directory and a
 * recursive checkout for every tree entry, a file holding the blob's bytes
 * for every other entry, and the first error ends the walk with whatever was
 * written so far left in place.
 */
module TreeCheckout {
  import opened Wrappers
  import opened ByteStrings
  import opened Objects
  import opened TreeEntries
  import opened TreeParse
  import opened TreeSort
  import opened FileSystem

  const PLUS: byte := 43
  const MINUS: byte := 45

  predicate IsOctalDigit(c: byte)
  {
    ZERO <= c < ZERO + 8
  }

  predicate IsOctal(s: Bytes)
  {
    forall i :: 0 <= i < |s| ==> IsOctalDigit(s[i])
  }

  /** The value of a run of octal digits, most significant first. */
  function OctalValue(s: Bytes): nat
    requires IsOctal(s)
    decreases |s|
  {
    if s == [] then 0 else OctalValue(s[..|s| - 1]) * 8 + (s[|s| - 1] - ZERO)
  }

  function Pow8(n: nat): (p: nat)
    ensures p >= 1
  {
    if n == 0 then 1 else 8 * Pow8(n - 1)
  }

  /** Bounds of what ParseUint and ParseInt can return for bit size 32. */
  const MaxUint32: int := 0xffff_ffff
  const MaxInt32: int := 0x7fff_ffff
  const MinInt32: int := -0x8000_0000

  /** Some run of leading octal digits of `s` already has a value above 32 bits. */
  ghost predicate Overflows(s: Bytes)
  {
    exists k :: 0 < k <= |s| && IsOctal(s[..k]) && OctalValue(s[..k]) > MaxUint32
  }

  /** How strconv.ParseUint(s, 8, 32) ends: with a value, ErrSyntax or ErrRange. */
  datatype UintScan = Digits(n: nat) | SyntaxError | RangeError

  /**
   * strconv.ParseUint(s, 8, 32): the empty text is a syntax error; otherwise
   * the bytes are read left to right, a byte that is no octal digit is a
   * syntax error, and a value that no longer fits 32 bits stops the scan with
   * ErrRange before any later byte is read.
   */
  function ParseUint32(s: Bytes): (r: UintScan)
    ensures r.Digits? <==> s != [] && IsOctal(s) && OctalValue(s) <= MaxUint32
    ensures r.Digits? ==> IsOctal(s) && r.n == OctalValue(s)
    ensures r == RangeError <==> Overflows(s)
    ensures r == SyntaxError <==> s == [] || (!IsOctal(s) && !Overflows(s))
  {
    if s == [] then SyntaxError
    else
      assert s[..0] == [] && s[..|s|] == s;
      ScanSpec(s, 0, 0);
      ScanOctal(s, 0, 0)
  }

  /** The loop of ParseUint from position `k`, with `n` the value read so far. */
  function ScanOctal(s: Bytes, k: nat, n: nat): UintScan
    requires k <= |s| && n <= MaxUint32
    decreases |s| - k
  {
    if k == |s| then Digits(n)
    else if !IsOctalDigit(s[k]) then SyntaxError
    else if n * 8 + (s[k] - ZERO) as int > MaxUint32 then RangeError
    else ScanOctal(s, k + 1, n * 8 + (s[k] - ZERO) as int)
  }

  /** The scan from `k` ends as the digit prefixes beyond `k` say. */
  lemma {:induction false} ScanSpec(s: Bytes, k: nat, n: nat)
    requires k <= |s| && IsOctal(s[..k]) && n == OctalValue(s[..k]) && n <= MaxUint32
    ensures ScanOctal(s, k, n).Digits? <==> IsOctal(s) && OctalValue(s) <= MaxUint32
    ensures ScanOctal(s, k, n).Digits? ==> IsOctal(s) && ScanOctal(s, k, n).n == OctalValue(s)
    ensures ScanOctal(s, k, n) == RangeError <==>
      exists j :: k < j <= |s| && IsOctal(s[..j]) && OctalValue(s[..j]) > MaxUint32
    decreases |s| - k
  {
    if k == |s| {
      assert s[..k] == s;
    } else {
      var d := (s[k] - ZERO) as int;
      if !IsOctalDigit(s[k]) {
        forall j | k < j <= |s|
          ensures !IsOctal(s[..j])
        {
          assert s[..j][k] == s[k];
        }
        assert !IsOctal(s) by { assert s[..|s|] == s; }
      } else {
        OctalStep(s, k);
        if n * 8 + d > MaxUint32 {
          if IsOctal(s) {
            assert s[..|s|] == s;
            OctalPrefixBound(s, k + 1, |s|);
          }
        } else {
          ScanSpec(s, k + 1, n * 8 + d);
        }
      }
    }
  }

  /** Reading one more digit: the prefix value is shifted by one place. */
  lemma OctalStep(s: Bytes, k: nat)
    requires k < |s| && IsOctal(s[..k]) && IsOctalDigit(s[k])
    ensures IsOctal(s[..k + 1])
    ensures OctalValue(s[..k + 1]) == OctalValue(s[..k]) * 8 + (s[k] - ZERO) as int
  {
    assert s[..k + 1][..k] == s[..k];
  }

  /** A longer run of digits never has a smaller value. */
  lemma {:induction false} OctalPrefixBound(s: Bytes, j: nat, k: nat)
    requires j <= k <= |s| && IsOctal(s[..k])
    ensures IsOctal(s[..j]) && OctalValue(s[..j]) <= OctalValue(s[..k])
    decreases k - j
  {
    if j < k {
      assert s[..k - 1] == s[..k][..k - 1];
      OctalPrefixBound(s, j, k - 1);
    }
  }

  /**
   * strconv.ParseInt(s, 8, 32) with its error dropped: an optional sign, then
   * ParseUint on the rest. A syntax error gives 0; a value outside 32 bits,
   * or a scan that ParseUint stopped with ErrRange, is clamped to the bound on
   * the side of the sign.
   */
  function ParseOctal(s: Bytes): (v: int)
    ensures MinInt32 <= v <= MaxInt32
    // unsigned digits: their value, clamped to the int32 maximum
    ensures IsOctal(s) && s != [] && OctalValue(s) <= MaxInt32 ==> v == OctalValue(s)
    ensures IsOctal(s) && s != [] && OctalValue(s) > MaxInt32 ==> v == MaxInt32
    // '+' then digits: their value, clamped to the int32 maximum
    ensures |s| > 1 && s[0] == PLUS && IsOctal(s[1..]) ==>
      v == if OctalValue(s[1..]) <= MaxInt32 then OctalValue(s[1..]) else MaxInt32
    // '-' then digits: the negated value, clamped to the int32 minimum
    ensures |s| > 1 && s[0] == MINUS && IsOctal(s[1..]) ==>
      v == if OctalValue(s[1..]) <= -MinInt32 then -(OctalValue(s[1..]) as int) else MinInt32
    // empty text or a bare sign: a syntax error
    ensures s == [] || s == [PLUS] || s == [MINUS] ==> v == 0
    // a byte that is no octal digit: a syntax error, unless the digits before it already overflow
    ensures s != [] && s[0] != PLUS && s[0] != MINUS && !IsOctal(s) ==>
      v == if Overflows(s) then MaxInt32 else 0
    ensures |s| > 1 && s[0] == PLUS && !IsOctal(s[1..]) ==>
      v == if Overflows(s[1..]) then MaxInt32 else 0
    ensures |s| > 1 && s[0] == MINUS && !IsOctal(s[1..]) ==>
      v == if Overflows(s[1..]) then MinInt32 else 0
  {
    if s == [] then 0
    else
      var neg := s[0] == MINUS;
      var digits := if s[0] == PLUS || s[0] == MINUS then s[1..] else s;
      match ParseUint32(digits)
      case SyntaxError => 0
      case RangeError => if neg then MinInt32 else MaxInt32
      case Digits(un) =>
        if !neg && un > MaxInt32 then MaxInt32
        else if neg && un > -MinInt32 then MinInt32
        else if neg then -(un as int)
        else un
  }

  /** os.FileMode(ParseInt(mode[3:], 8, 32)): the conversion to uint32 wraps. */
  function FileMode(mode: Bytes): (perm: int)
    requires |mode| >= 3
    ensures 0 <= perm < 0x1_0000_0000
  {
    ParseOctal(mode[3..]) % 0x1_0000_0000
  }

  lemma {:induction false} OctalAppend(a: Bytes, b: Bytes)
    requires IsOctal(a) && IsOctal(b)
    ensures IsOctal(a + b)
    ensures OctalValue(a + b) == OctalValue(a) * Pow8(|b|) + OctalValue(b)
    decreases |b|
  {
    if b == [] {
      assert a + b == a;
    } else {
      var b' := b[..|b| - 1];
      OctalLast(a, b);
      OctalAppend(a, b');
      ShiftDigit(OctalValue(a), Pow8(|b'|), OctalValue(b'), b[|b| - 1] - ZERO);
    }
  }

  /** Dropping the last digit of `a + b` drops the last digit of `b`. */
  lemma OctalLast(a: Bytes, b: Bytes)
    requires IsOctal(a) && IsOctal(b) && b != []
    ensures IsOctal(a + b) && IsOctal(b[..|b| - 1])
    ensures OctalValue(a + b) == OctalValue(a + b[..|b| - 1]) * 8 + (b[|b| - 1] - ZERO)
  {
    assert (a + b)[..|a + b| - 1] == a + b[..|b| - 1];
  }

  lemma ShiftDigit(x: int, p: int, y: int, d: int)
    ensures (x * p + y) * 8 + d == x * (8 * p) + (y * 8 + d)
  {
  }

  lemma {:induction false} OctalBound(s: Bytes)
    requires IsOctal(s)
    ensures OctalValue(s) < Pow8(|s|)
    decreases |s|
  {
    if s != [] {
      OctalBound(s[..|s| - 1]);
    }
  }

  /**
   * For a six-digit octal mode such as 100644, the permission is the low nine
   * bits of the mode's value: the "100" or "040" type marker is dropped.
   */
  lemma FileModeOfSixDigits(mode: Bytes)
    requires |mode| == 6 && IsOctal(mode)
    ensures FileMode(mode) == OctalValue(mode) % 512
  {
    var hi, lo := mode[..3], mode[3..];
    assert mode == hi + lo;
    assert IsOctal(lo) && IsOctal(hi);
    OctalAppend(hi, lo);
    OctalBound(lo);
    assert Pow8(3) == 512;
    assert ParseOctal(lo) == OctalValue(lo);
    LowDigits(OctalValue(hi), OctalValue(lo));
  }

  lemma LowDigits(a: nat, b: nat)
    requires b < 512
    ensures (a * 512 + b) % 512 == b && b % 0x1_0000_0000 == b
  {
  }

  /** What a checkout leaves: the filesystem, and the error that stopped it, if any. */
  datatype Outcome = Outcome(nodes: Nodes, err: Option<TreeError>)

  /**
   * The checkout of one entry into `path`. Its object is looked up first; a
   * tree entry becomes a directory with the tree checked out inside, any other
   * entry a file.
   */
  function CheckoutEntry(e: TreeEntry, path: Path, store: Store, nodes: Nodes, depth: nat): Outcome
    requires ValidMode(e.mode)
    decreases depth, 0, 2
  {
    if e.hash !in store then Outcome(nodes, Some(NotFound(e.hash)))
    else if e.kind == TreeKind then CheckoutTree(Join(path, e.name), store[e.hash], store, nodes, depth)
    else CheckoutBlob(Join(path, e.name), store[e.hash], FileMode(e.mode), nodes)
  }

  /** A tree entry: os.Mkdir, then NewTree on the object, then the checkout inside. */
  function CheckoutTree(p: Path, obj: GitObject, store: Store, nodes: Nodes, depth: nat): Outcome
    decreases depth, 0, 1
  {
    match MkdirResult(nodes, p)
    case None => Outcome(nodes, Some(IOFailure(p)))
    case Some(made) => CheckoutChildren(NewTreeSpec(obj, store), p, store, made, depth)
  }

  /** The inside of a new directory: the error of NewTree, or the checkout of its entries one level down. */
  function CheckoutChildren(tree: Result<seq<TreeEntry>, TreeError>, p: Path, store: Store, made: Nodes, depth: nat): Outcome
    requires tree.Ok? ==> ValidModes(tree.value)
    decreases depth, 0, 0
  {
    match tree
    case Err(err) => Outcome(made, Some(err))
    case Ok(children) =>
      if depth == 0 then Outcome(made, Some(DepthExhausted))
      else CheckoutEntries(children, p, store, made, depth - 1)
  }

  /** Any other entry: NewBlob on the object, then ioutil.WriteFile of its bytes. */
  function CheckoutBlob(p: Path, obj: GitObject, perm: int, nodes: Nodes): Outcome
  {
    if obj.kind != BlobKind then Outcome(nodes, Some(NotBlob(obj.kind)))
    else
      match WriteFileResult(nodes, p, obj.data, perm)
      case None => Outcome(nodes, Some(IOFailure(p)))
      case Some(written) => Outcome(written, None)
  }

  /** The checkout of `es` into `path`: entry by entry, and the first error stops the walk. */
  function CheckoutEntries(es: seq<TreeEntry>, path: Path, store: Store, nodes: Nodes, depth: nat): Outcome
    requires ValidModes(es)
    decreases depth, |es|, 3
  {
    if es == [] then Outcome(nodes, None)
    else
      assert es[0] in es;
      var first := CheckoutEntry(es[0], path, store, nodes, depth);
      if first.err.Some? then first
      else CheckoutEntries(es[1..], path, store, first.nodes, depth)
  }

  /** Entries are checked out one after the other, and the first error stops everything after it. */
  lemma {:induction false} CheckoutAppend(a: seq<TreeEntry>, b: seq<TreeEntry>, path: Path, store: Store, nodes: Nodes, depth: nat)
    requires ValidModes(a) && ValidModes(b)
    ensures ValidModes(a + b)
    ensures var r := CheckoutEntries(a, path, store, nodes, depth);
      CheckoutEntries(a + b, path, store, nodes, depth) ==
        if r.err.Some? then r else CheckoutEntries(b, path, store, r.nodes, depth)
    decreases |a|
  {
    if a == [] {
      assert a + b == b;
    } else {
      assert (a + b)[0] == a[0];
      assert (a + b)[1..] == a[1..] + b;
      assert a[0] in a;
      var first := CheckoutEntry(a[0], path, store, nodes, depth);
      if first.err.None? {
        CheckoutAppend(a[1..], b, path, store, first.nodes, depth);
      }
    }
  }

  /** `q` was added or changed between `before` and `after`. */
  ghost predicate Touched(before: Nodes, after: Nodes, q: Path)
  {
    q in after && (q !in before || after[q] != before[q])
  }

  /** Nothing is removed and every directory stays a directory. */
  ghost predicate Grows(before: Nodes, after: Nodes)
  {
    before.Keys <= after.Keys && forall q :: IsDir(before, q) ==> IsDir(after, q)
  }

  /** Every path added or rewritten lies at or below `base`. */
  ghost predicate Within(before: Nodes, after: Nodes, base: Path)
  {
    forall q :: Touched(before, after, q) ==> Under(base, q)
  }

  /** Every path added or rewritten lies below `base`, inside one of `names`. */
  ghost predicate WithinNames(before: Nodes, after: Nodes, base: Path, names: set<Bytes>)
  {
    forall q :: Touched(before, after, q) ==> |q| > |base| && q[|base|] in names
  }

  /** The names of a list of entries. */
  function Names(es: seq<TreeEntry>): set<Bytes>
  {
    set e | e in es :: e.name
  }

  /** Checking out one entry changes nothing outside the entry's own path. */
  lemma EntryFrame(e: TreeEntry, path: Path, store: Store, nodes: Nodes, depth: nat)
    requires ValidMode(e.mode)
    ensures Grows(nodes, CheckoutEntry(e, path, store, nodes, depth).nodes)
    ensures Within(nodes, CheckoutEntry(e, path, store, nodes, depth).nodes, Join(path, e.name))
    decreases depth, 0, 2
  {
    if e.hash in store {
      if e.kind == TreeKind {
        TreeFrame(Join(path, e.name), store[e.hash], store, nodes, depth);
      } else {
        BlobFrame(Join(path, e.name), store[e.hash], FileMode(e.mode), nodes);
      }
    }
  }

  lemma TreeFrame(p: Path, obj: GitObject, store: Store, nodes: Nodes, depth: nat)
    ensures Grows(nodes, CheckoutTree(p, obj, store, nodes, depth).nodes)
    ensures Within(nodes, CheckoutTree(p, obj, store, nodes, depth).nodes, p)
    decreases depth, 0, 1
  {
    MkdirFrame(nodes, p);
    var made := MkdirResult(nodes, p);
    if made.Some? {
      ChildrenFrame(NewTreeSpec(obj, store), p, store, made.value, depth);
      FrameChain(nodes, made.value, CheckoutTree(p, obj, store, nodes, depth).nodes, p);
    }
  }

  lemma ChildrenFrame(tree: Result<seq<TreeEntry>, TreeError>, p: Path, store: Store, made: Nodes, depth: nat)
    requires tree.Ok? ==> ValidModes(tree.value)
    ensures Grows(made, CheckoutChildren(tree, p, store, made, depth).nodes)
    ensures Within(made, CheckoutChildren(tree, p, store, made, depth).nodes, p)
    decreases depth, 0, 0
  {
    if tree.Ok? && depth > 0 {
      EntriesFrame(tree.value, p, store, made, depth - 1);
    }
  }

  lemma BlobFrame(p: Path, obj: GitObject, perm: int, nodes: Nodes)
    ensures Grows(nodes, CheckoutBlob(p, obj, perm, nodes).nodes)
    ensures Within(nodes, CheckoutBlob(p, obj, perm, nodes).nodes, p)
  {
    WriteFrame(nodes, p, obj.data, perm);
  }

  lemma MkdirFrame(nodes: Nodes, p: Path)
    ensures MkdirResult(nodes, p).Some? ==>
      Grows(nodes, MkdirResult(nodes, p).value) && Within(nodes, MkdirResult(nodes, p).value, p)
  {
  }

  lemma WriteFrame(nodes: Nodes, p: Path, data: Bytes, perm: int)
    ensures WriteFileResult(nodes, p, data, perm).Some? ==>
      Grows(nodes, WriteFileResult(nodes, p, data, perm).value) &&
      Within(nodes, WriteFileResult(nodes, p, data, perm).value, p)
  {
  }

  lemma FrameChain(n0: Nodes, n1: Nodes, n2: Nodes, base: Path)
    requires Grows(n0, n1) && Within(n0, n1, base)
    requires Grows(n1, n2) && Within(n1, n2, base)
    ensures Grows(n0, n2) && Within(n0, n2, base)
  {
    assert forall q :: Touched(n0, n2, q) ==> Touched(n0, n1, q) || Touched(n1, n2, q);
  }

  /**
   * Checkout only adds: nothing is removed, a directory stays a directory,
   * and every path it adds or rewrites lies at or below `path`; when no entry
   * name is empty, every such path lies below `path` inside an entry's own name.
   */
  lemma {:induction false} EntriesFrame(es: seq<TreeEntry>, path: Path, store: Store, nodes: Nodes, depth: nat)
    requires ValidModes(es)
    ensures Grows(nodes, CheckoutEntries(es, path, store, nodes, depth).nodes)
    ensures Within(nodes, CheckoutEntries(es, path, store, nodes, depth).nodes, path)
    ensures (forall e <- es :: e.name != []) ==>
      WithinNames(nodes, CheckoutEntries(es, path, store, nodes, depth).nodes, path, Names(es))
    decreases depth, |es|, 3
  {
    if es != [] {
      var e := es[0];
      assert e in es;
      EntryFrame(e, path, store, nodes, depth);
      var first := CheckoutEntry(e, path, store, nodes, depth);
      var rest := es[1..];
      assert forall x <- rest :: x in es;
      var r := first.nodes;
      if first.err.None? {
        EntriesFrame(rest, path, store, first.nodes, depth);
        r := CheckoutEntries(rest, path, store, first.nodes, depth).nodes;
      }
      FrameStep(nodes, first.nodes, r, path, es);
    }
  }

  /**
   * Composing the change made for the first entry (inside its own path) with
   * the change made for the rest keeps the frame of the whole list.
   */
  lemma FrameStep(n0: Nodes, n1: Nodes, n2: Nodes, path: Path, es: seq<TreeEntry>)
    requires es != []
    requires Grows(n0, n1) && Within(n0, n1, Join(path, es[0].name))
    requires Grows(n1, n2) && Within(n1, n2, path)
    requires n1 != n2 ==> (forall x <- es[1..] :: x.name != []) ==> WithinNames(n1, n2, path, Names(es[1..]))
    ensures Grows(n0, n2) && Within(n0, n2, path)
    ensures (forall x <- es :: x.name != []) ==> WithinNames(n0, n2, path, Names(es))
  {
    var e := es[0];
    var p := Join(path, e.name);
    assert e in es;
    assert forall x <- es[1..] :: x in es;
    assert forall q :: Touched(n0, n2, q) ==> Touched(n0, n1, q) || Touched(n1, n2, q);
    assert forall q :: Under(p, q) ==> Under(path, q);
    if forall x <- es :: x.name != [] {
      assert Names(es[1..]) <= Names(es);
      forall q | Touched(n0, n1, q)
        ensures |q| > |path| && q[|path|] in Names(es)
      {
        assert Under(p, q);
        assert q[|path|] == q[..|p|][|path|];
      }
    }
  }

  /** No path below `path` already uses one of `names` as its first segment there. */
  ghost predicate FreeBelow(nodes: Nodes, path: Path, names: set<Bytes>)
  {
    forall q :: q in nodes && |q| > |path| && Under(path, q) ==> q[|path|] !in names
  }

  /** The node a successful checkout leaves for one entry. */
  predicate HoldsEntry(r: Nodes, path: Path, e: TreeEntry, store: Store)
    requires ValidMode(e.mode)
  {
    && e.hash in store
    && path + [e.name] in r
    && r[path + [e.name]] ==
         if e.kind == TreeKind then Dir else File(store[e.hash].data, FileMode(e.mode))
  }

  /** A successful checkout of one entry whose path is still free leaves the entry's node. */
  lemma EntryContents(e: TreeEntry, path: Path, store: Store, nodes: Nodes, depth: nat)
    requires ValidMode(e.mode) && e.name != [] && path + [e.name] !in nodes
    requires CheckoutEntry(e, path, store, nodes, depth).err.None?
    ensures HoldsEntry(CheckoutEntry(e, path, store, nodes, depth).nodes, path, e, store)
  {
    var p := path + [e.name];
    if e.kind == TreeKind {
      var made := MkdirResult(nodes, p).value;
      TreeFrame(p, store[e.hash], store, nodes, depth);
      ChildrenFrame(NewTreeSpec(store[e.hash], store), p, store, made, depth);
      assert IsDir(made, p);
    }
  }

  /**
   * What a successful checkout leaves behind when the entries have distinct,
   * non-empty names that are not yet used below `path`: a directory for every
   * tree entry, and for every other entry a file holding the bytes of its blob
   * with the permission taken from its mode.
   */
  lemma {:induction false} CheckoutContents(es: seq<TreeEntry>, path: Path, store: Store, nodes: Nodes, depth: nat)
    requires ValidModes(es) && StrictlySortedByName(es)
    requires forall i :: 0 <= i < |es| ==> es[i].name != []
    requires FreeBelow(nodes, path, Names(es))
    requires CheckoutEntries(es, path, store, nodes, depth).err.None?
    ensures forall i :: 0 <= i < |es| ==>
      HoldsEntry(CheckoutEntries(es, path, store, nodes, depth).nodes, path, es[i], store)
    decreases |es|
  {
    if es != [] {
      var e := es[0];
      assert e in es;
      var rest := es[1..];
      assert forall x <- rest :: x in es;
      var mid := CheckoutEntry(e, path, store, nodes, depth).nodes;
      var r := CheckoutEntries(rest, path, store, mid, depth).nodes;
      assert (path + [e.name])[|path|] == e.name;
      EntryContents(e, path, store, nodes, depth);
      EntryFrame(e, path, store, nodes, depth);
      RestFree(nodes, mid, path, es);
      CheckoutContents(rest, path, store, mid, depth);
      EntriesFrame(rest, path, store, mid, depth);
      FirstKept(es, path, store, mid, r);
      ShiftHolds(es, r, path, store);
    }
  }

  lemma ShiftHolds(es: seq<TreeEntry>, r: Nodes, path: Path, store: Store)
    requires es != [] && ValidModes(es)
    requires forall i :: 0 <= i < |es[1..]| ==> HoldsEntry(r, path, es[1..][i], store)
    ensures forall i :: 1 <= i < |es| ==> HoldsEntry(r, path, es[i], store)
  {
    forall i | 1 <= i < |es|
      ensures HoldsEntry(r, path, es[i], store)
    {
      assert es[i] in es && es[i] == es[1..][i - 1];
    }
  }

  /** After the first entry, the names of the others are still unused below `path`. */
  lemma RestFree(nodes: Nodes, mid: Nodes, path: Path, es: seq<TreeEntry>)
    requires es != [] && StrictlySortedByName(es) && es[0].name != []
    requires FreeBelow(nodes, path, Names(es))
    requires Within(nodes, mid, path + [es[0].name])
    ensures FreeBelow(mid, path, Names(es[1..]))
  {
    var n := es[0].name;
    NameNotLater(es);
    assert forall x <- es[1..] :: x in es;
    assert Names(es[1..]) <= Names(es);
    forall q | q in mid && |q| > |path| && Under(path, q)
      ensures q[|path|] !in Names(es[1..])
    {
      if Touched(nodes, mid, q) {
        assert Under(path + [n], q);
        assert q[|path|] == q[..|path| + 1][|path|];
      }
    }
  }

  /** In a strictly sorted list the first name does not occur again. */
  lemma NameNotLater(es: seq<TreeEntry>)
    requires es != [] && StrictlySortedByName(es)
    ensures es[0].name !in Names(es[1..])
  {
    var n := es[0].name;
    if n in Names(es[1..]) {
      var x :| x in es[1..] && x.name == n;
      var j :| 0 <= j < |es[1..]| && es[1..][j] == x;
      assert es[j + 1] == x;
      LessIrreflexive(n);
    }
  }

  /** The first entry's path is not among the paths the other entries touch. */
  lemma FirstKept(es: seq<TreeEntry>, path: Path, store: Store, mid: Nodes, r: Nodes)
    requires es != [] && StrictlySortedByName(es) && ValidMode(es[0].mode)
    requires HoldsEntry(mid, path, es[0], store)
    requires mid.Keys <= r.Keys && WithinNames(mid, r, path, Names(es[1..]))
    ensures HoldsEntry(r, path, es[0], store)
  {
    NameNotLater(es);
    var p := path + [es[0].name];
    assert p[|path|] == es[0].name;
    assert !Touched(mid, r, p);
  }

  /** Every node other than the starting point sits inside a directory, as on a real disk. */
  ghost predicate WellFormed(nodes: Nodes)
  {
    forall q :: q in nodes ==> q != [] && IsDir(nodes, q[..|q| - 1])
  }

  /** Every tree in the store lists distinct, non-empty names, as git requires of a tree object. */
  ghost predicate WellNamed(store: Store)
  {
    forall h :: h in store && NewTreeSpec(store[h], store).Ok? ==>
      && StrictlySortedByName(NewTreeSpec(store[h], store).value)
      && forall i :: 0 <= i < |NewTreeSpec(store[h], store).value| ==> NewTreeSpec(store[h], store).value[i].name != []
  }

  /**
   * What a successful checkout leaves for one entry and everything below it:
   * its node, and for a tree entry every entry of that tree, checked out one
   * level down inside the new directory.
   */
  ghost predicate HoldsDeep(r: Nodes, path: Path, e: TreeEntry, store: Store, depth: nat)
    requires ValidMode(e.mode)
    decreases depth, 0
  {
    && HoldsEntry(r, path, e, store)
    && (e.kind == TreeKind ==>
          && depth > 0
          && NewTreeSpec(store[e.hash], store).Ok?
          && HoldsAll(r, path + [e.name], NewTreeSpec(store[e.hash], store).value, store, depth - 1))
  }

  ghost predicate HoldsAll(r: Nodes, path: Path, es: seq<TreeEntry>, store: Store, depth: nat)
    requires ValidModes(es)
    decreases depth, 1
  {
    forall i :: 0 <= i < |es| ==> HoldsDeep(r, path, es[i], store, depth)
  }

  /** On a well-formed disk nothing lies below a path that is not there. */
  lemma {:induction false} NotBelowMissing(nodes: Nodes, p: Path, q: Path)
    requires WellFormed(nodes) && p != [] && p !in nodes
    ensures Under(p, q) ==> q !in nodes
    decreases |q|
  {
    if Under(p, q) && |q| > |p| {
      var parent := q[..|q| - 1];
      assert parent[..|p|] == q[..|p|];
      NotBelowMissing(nodes, p, parent);
    } else if Under(p, q) {
      assert q == q[..|p|];
    }
  }

  lemma MkdirWellFormed(nodes: Nodes, p: Path)
    requires WellFormed(nodes) && MkdirResult(nodes, p).Some?
    ensures WellFormed(MkdirResult(nodes, p).value)
  {
    var r := MkdirResult(nodes, p).value;
    forall q | q in r
      ensures q != [] && IsDir(r, q[..|q| - 1])
    {
      if q != p {
        assert q[..|q| - 1] != p by { assert |q[..|q| - 1]| < |q|; }
      }
    }
  }

  lemma WriteWellFormed(nodes: Nodes, p: Path, data: Bytes, perm: int)
    requires WellFormed(nodes) && WriteFileResult(nodes, p, data, perm).Some?
    ensures WellFormed(WriteFileResult(nodes, p, data, perm).value)
  {
  }

  /** Checkout keeps a well-formed disk well-formed. */
  lemma EntryWellFormed(e: TreeEntry, path: Path, store: Store, nodes: Nodes, depth: nat)
    requires ValidMode(e.mode) && WellFormed(nodes)
    ensures WellFormed(CheckoutEntry(e, path, store, nodes, depth).nodes)
    decreases depth, 0, 2
  {
    if e.hash in store {
      if e.kind == TreeKind {
        TreeWellFormed(Join(path, e.name), store[e.hash], store, nodes, depth);
      } else if store[e.hash].kind == BlobKind {
        var p := Join(path, e.name);
        if WriteFileResult(nodes, p, store[e.hash].data, FileMode(e.mode)).Some? {
          WriteWellFormed(nodes, p, store[e.hash].data, FileMode(e.mode));
        }
      }
    }
  }

  lemma TreeWellFormed(p: Path, obj: GitObject, store: Store, nodes: Nodes, depth: nat)
    requires WellFormed(nodes)
    ensures WellFormed(CheckoutTree(p, obj, store, nodes, depth).nodes)
    decreases depth, 0, 1
  {
    if MkdirResult(nodes, p).Some? {
      MkdirWellFormed(nodes, p);
      ChildrenWellFormed(NewTreeSpec(obj, store), p, store, MkdirResult(nodes, p).value, depth);
    }
  }

  lemma ChildrenWellFormed(tree: Result<seq<TreeEntry>, TreeError>, p: Path, store: Store, made: Nodes, depth: nat)
    requires tree.Ok? ==> ValidModes(tree.value)
    requires WellFormed(made)
    ensures WellFormed(CheckoutChildren(tree, p, store, made, depth).nodes)
    decreases depth, 0, 0
  {
    if tree.Ok? && depth > 0 {
      EntriesWellFormed(tree.value, p, store, made, depth - 1);
    }
  }

  lemma {:induction false} EntriesWellFormed(es: seq<TreeEntry>, path: Path, store: Store, nodes: Nodes, depth: nat)
    requires ValidModes(es) && WellFormed(nodes)
    ensures WellFormed(CheckoutEntries(es, path, store, nodes, depth).nodes)
    decreases depth, |es|, 3
  {
    if es != [] {
      assert es[0] in es;
      EntryWellFormed(es[0], path, store, nodes, depth);
      var first := CheckoutEntry(es[0], path, store, nodes, depth);
      if first.err.None? {
        EntriesWellFormed(es[1..], path, store, first.nodes, depth);
      }
    }
  }

  /** Every node at or below `p` in `r1` is in `r2` unchanged. */
  ghost predicate KeptBelow(r1: Nodes, r2: Nodes, p: Path)
  {
    forall q :: q in r1 && Under(p, q) ==> q in r2 && r2[q] == r1[q]
  }

  lemma KeptDeeper(r1: Nodes, r2: Nodes, p: Path, n: Bytes)
    requires KeptBelow(r1, r2, p)
    ensures KeptBelow(r1, r2, p + [n])
  {
    forall q | q in r1 && Under(p + [n], q)
      ensures Under(p, q)
    {
      assert q[..|p|] == q[..|p| + 1][..|p|];
    }
  }

  /** What was checked out below a path survives changes that keep that path's subtree. */
  lemma {:induction false} DeepKept(r1: Nodes, r2: Nodes, path: Path, e: TreeEntry, store: Store, depth: nat)
    requires ValidMode(e.mode) && KeptBelow(r1, r2, path + [e.name])
    requires HoldsDeep(r1, path, e, store, depth)
    ensures HoldsDeep(r2, path, e, store, depth)
    decreases depth, 0
  {
    var p := path + [e.name];
    assert Under(p, p) && p in r1;
    if e.kind == TreeKind {
      var tree := NewTreeSpec(store[e.hash], store);
      assert tree.Ok? && depth > 0;
      assert HoldsAll(r1, p, tree.value, store, depth - 1);
      AllKept(r1, r2, p, tree.value, store, depth - 1);
      assert HoldsAll(r2, path + [e.name], NewTreeSpec(store[e.hash], store).value, store, depth - 1);
    }
  }

  lemma {:induction false} AllKept(r1: Nodes, r2: Nodes, p: Path, cs: seq<TreeEntry>, store: Store, depth: nat)
    requires ValidModes(cs) && KeptBelow(r1, r2, p)
    requires HoldsAll(r1, p, cs, store, depth)
    ensures HoldsAll(r2, p, cs, store, depth)
    decreases depth, 1
  {
    forall i | 0 <= i < |cs|
      ensures HoldsDeep(r2, p, cs[i], store, depth)
    {
      assert cs[i] in cs;
      KeptDeeper(r1, r2, p, cs[i].name);
      DeepKept(r1, r2, p, cs[i], store, depth);
    }
  }

  /** The checkout of later siblings, inside other names, leaves an entry's subtree as it was. */
  lemma KeptOutside(mid: Nodes, r: Nodes, path: Path, n: Bytes, names: set<Bytes>)
    requires mid.Keys <= r.Keys && WithinNames(mid, r, path, names) && n !in names
    ensures KeptBelow(mid, r, path + [n])
  {
    forall q | q in mid && Under(path + [n], q)
      ensures q in r && r[q] == mid[q]
    {
      assert q[|path|] == q[..|path| + 1][|path|];
    }
  }

  /**
   * A successful checkout of one entry into a free name on a well-formed disk
   * leaves the entry's node and, for a tree entry, the whole tree below it.
   */
  lemma {:induction false} EntryTreeContents(e: TreeEntry, path: Path, store: Store, nodes: Nodes, depth: nat)
    requires ValidMode(e.mode) && e.name != [] && path + [e.name] !in nodes
    requires WellFormed(nodes) && WellNamed(store)
    requires CheckoutEntry(e, path, store, nodes, depth).err.None?
    ensures HoldsDeep(CheckoutEntry(e, path, store, nodes, depth).nodes, path, e, store, depth)
    decreases depth, 0, 2
  {
    EntryContents(e, path, store, nodes, depth);
    if e.kind == TreeKind {
      SubtreeContents(e, path, store, nodes, depth);
    }
  }

  /** The inside of the directory a tree entry's checkout makes. */
  lemma {:induction false} SubtreeContents(e: TreeEntry, path: Path, store: Store, nodes: Nodes, depth: nat)
    requires ValidMode(e.mode) && e.name != [] && path + [e.name] !in nodes && e.kind == TreeKind
    requires WellFormed(nodes) && WellNamed(store)
    requires CheckoutEntry(e, path, store, nodes, depth).err.None?
    ensures e.hash in store && depth > 0 && NewTreeSpec(store[e.hash], store).Ok?
    ensures HoldsAll(CheckoutEntry(e, path, store, nodes, depth).nodes, path + [e.name],
                     NewTreeSpec(store[e.hash], store).value, store, depth - 1)
    decreases depth, 0, 1
  {
    var p := path + [e.name];
    TreeEntryUnfolds(e, path, store, nodes, depth);
    MkdirWellFormed(nodes, p);
    ChildrenContents(NewTreeSpec(store[e.hash], store), p, store, nodes, nodes[p := Dir], depth);
  }

  /** The checkout of a tree's entries inside the directory just made for it. */
  lemma {:induction false} ChildrenContents(tree: Result<seq<TreeEntry>, TreeError>, p: Path, store: Store, nodes: Nodes, made: Nodes, depth: nat)
    requires tree.Ok? ==> ValidModes(tree.value)
    requires tree.Ok? ==> StrictlySortedByName(tree.value) && forall i :: 0 <= i < |tree.value| ==> tree.value[i].name != []
    requires WellFormed(nodes) && p != [] && p !in nodes && made == nodes[p := Dir] && WellFormed(made)
    requires WellNamed(store)
    requires CheckoutChildren(tree, p, store, made, depth).err.None?
    ensures tree.Ok? && depth > 0
    ensures HoldsAll(CheckoutChildren(tree, p, store, made, depth).nodes, p, tree.value, store, depth - 1)
    decreases depth, 0, 0
  {
    FreshDirFree(nodes, p, Names(tree.value));
    CheckoutTreeContents(tree.value, p, store, made, depth - 1);
  }

  /** On a well-formed disk a directory just made holds nothing below it. */
  lemma FreshDirFree(nodes: Nodes, p: Path, names: set<Bytes>)
    requires WellFormed(nodes) && p != [] && p !in nodes
    ensures FreeBelow(nodes[p := Dir], p, names)
  {
    forall q | q in nodes[p := Dir]
      ensures Under(p, q) && |q| > |p| ==> q[|p|] !in names
    {
      NotBelowMissing(nodes, p, q);
    }
  }

  /** A successful checkout of a tree entry is the checkout of its tree inside the new directory. */
  lemma TreeEntryUnfolds(e: TreeEntry, path: Path, store: Store, nodes: Nodes, depth: nat)
    requires ValidMode(e.mode) && e.name != [] && e.kind == TreeKind
    requires CheckoutEntry(e, path, store, nodes, depth).err.None?
    ensures e.hash in store
    ensures var p := path + [e.name];
      && p != [] && p !in nodes && IsDir(nodes, p[..|p| - 1])
      && CheckoutEntry(e, path, store, nodes, depth) ==
           CheckoutChildren(NewTreeSpec(store[e.hash], store), p, store, nodes[p := Dir], depth)
  {
    var p := path + [e.name];
    assert Join(path, e.name) == p;
    assert e.hash in store;
    var obj := store[e.hash];
    assert CheckoutEntry(e, path, store, nodes, depth) == CheckoutTree(p, obj, store, nodes, depth);
    assert MkdirResult(nodes, p) == Some(nodes[p := Dir]);
  }

  /**
   * What a successful checkout leaves on a well-formed disk when the names are
   * distinct, non-empty and unused below `path`, and every tree in the store
   * has distinct, non-empty names: the whole tree, at every level, with a
   * directory for each tree entry and the bytes of its blob, with the
   * permission from its mode, for every other entry.
   */
  lemma {:induction false} CheckoutTreeContents(es: seq<TreeEntry>, path: Path, store: Store, nodes: Nodes, depth: nat)
    requires ValidModes(es) && StrictlySortedByName(es)
    requires forall i :: 0 <= i < |es| ==> es[i].name != []
    requires FreeBelow(nodes, path, Names(es))
    requires WellFormed(nodes) && WellNamed(store)
    requires CheckoutEntries(es, path, store, nodes, depth).err.None?
    ensures HoldsAll(CheckoutEntries(es, path, store, nodes, depth).nodes, path, es, store, depth)
    decreases depth, 2, 0
  {
    AllContents(es, path, store, nodes, depth);
  }

  /** The conditions of `CheckoutTreeContents`, taken together. */
  ghost predicate ContentsReady(es: seq<TreeEntry>, path: Path, store: Store, nodes: Nodes, depth: nat)
  {
    && ValidModes(es) && StrictlySortedByName(es)
    && (forall i :: 0 <= i < |es| ==> es[i].name != [])
    && FreeBelow(nodes, path, Names(es))
    && WellFormed(nodes) && WellNamed(store)
    && CheckoutEntries(es, path, store, nodes, depth).err.None?
  }

  /** `CheckoutTreeContents`, by induction on the entries. */
  lemma {:induction false} AllContents(es: seq<TreeEntry>, path: Path, store: Store, nodes: Nodes, depth: nat)
    requires ContentsReady(es, path, store, nodes, depth)
    ensures HoldsAll(CheckoutEntries(es, path, store, nodes, depth).nodes, path, es, store, depth)
    decreases depth, 1, |es|
  {
    if es != [] {
      var mid := CheckoutEntry(es[0], path, store, nodes, depth).nodes;
      var r := CheckoutEntries(es[1..], path, store, mid, depth).nodes;
      FirstTreeContents(es, path, store, nodes, depth);
      RestReady(es, path, store, nodes, depth);
      AllContents(es[1..], path, store, mid, depth);
      RestKeepsFirst(es, path, store, mid, depth);
      DeepKept(mid, r, path, es[0], store, depth);
      ConsHoldsAll(es, r, path, store, depth);
    }
  }

  /** The first entry's checkout succeeds and leaves its whole tree. */
  lemma {:induction false} FirstTreeContents(es: seq<TreeEntry>, path: Path, store: Store, nodes: Nodes, depth: nat)
    requires es != [] && ContentsReady(es, path, store, nodes, depth)
    ensures CheckoutEntry(es[0], path, store, nodes, depth).err.None?
    ensures var mid := CheckoutEntry(es[0], path, store, nodes, depth).nodes;
      && HoldsDeep(mid, path, es[0], store, depth)
      && CheckoutEntries(es, path, store, nodes, depth) == CheckoutEntries(es[1..], path, store, mid, depth)
    decreases depth, 0, 3
  {
    var e := es[0];
    assert e in es;
    assert (path + [e.name])[..|path|] == path && (path + [e.name])[|path|] == e.name;
    EntryTreeContents(e, path, store, nodes, depth);
  }

  /** After the first entry's checkout, the other entries are ready to follow. */
  lemma RestReady(es: seq<TreeEntry>, path: Path, store: Store, nodes: Nodes, depth: nat)
    requires es != [] && ContentsReady(es, path, store, nodes, depth)
    ensures ContentsReady(es[1..], path, store, CheckoutEntry(es[0], path, store, nodes, depth).nodes, depth)
  {
    var e := es[0];
    var rest := es[1..];
    assert e in es;
    assert forall x <- rest :: x in es;
    var mid := CheckoutEntry(e, path, store, nodes, depth).nodes;
    EntryFrame(e, path, store, nodes, depth);
    EntryWellFormed(e, path, store, nodes, depth);
    RestFree(nodes, mid, path, es);
  }

  /** The later entries' checkout leaves everything below the first entry's name in place. */
  lemma RestKeepsFirst(es: seq<TreeEntry>, path: Path, store: Store, mid: Nodes, depth: nat)
    requires es != [] && ValidModes(es) && StrictlySortedByName(es)
    requires forall i :: 0 <= i < |es| ==> es[i].name != []
    ensures KeptBelow(mid, CheckoutEntries(es[1..], path, store, mid, depth).nodes, path + [es[0].name])
  {
    var rest := es[1..];
    assert forall x <- rest :: x in es;
    EntriesFrame(rest, path, store, mid, depth);
    NameNotLater(es);
    KeptOutside(mid, CheckoutEntries(rest, path, store, mid, depth).nodes, path, es[0].name, Names(rest));
  }

  lemma ConsHoldsAll(es: seq<TreeEntry>, r: Nodes, path: Path, store: Store, depth: nat)
    requires es != [] && ValidModes(es)
    requires HoldsDeep(r, path, es[0], store, depth) && HoldsAll(r, path, es[1..], store, depth)
    ensures HoldsAll(r, path, es, store, depth)
  {
    forall i | 0 <= i < |es|
      ensures HoldsDeep(r, path, es[i], store, depth)
    {
      if i > 0 {
        assert es[i] == es[1..][i - 1];
      }
    }
  }
}
