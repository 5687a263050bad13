/**
 * The tree of the repository's tests: one entry `100644 blob <hash>\ttestfile`
 * for the blob "Hello World\n", built from its input line, printed, sized
 * and checked out into an empty directory.
 */
module TreeExamples {
  import opened Wrappers
  import opened ByteStrings
  import Hex
  import opened Objects
  import opened TreeEntries
  import opened TreeInput
  import opened TreeSort
  import opened TreeParse
  import opened TreePrint
  import opened FileSystem
  import opened TreeCheckout
  import opened Tree

  /** "Hello World\n" */
  const TestData: Bytes := [72, 101, 108, 108, 111, 32, 87, 111, 114, 108, 100, 10]

  /** The object name of TestData: 557db03de997c86a4a028e1ebd3a1ceb225be238. */
  const BlobHash: Bytes := [53, 53, 55, 100, 98, 48, 51, 100, 101, 57, 57, 55, 99, 56, 54, 97, 52, 97, 48, 50,
                            56, 101, 49, 101, 98, 100, 51, 97, 49, 99, 101, 98, 50, 50, 53, 98, 101, 50, 51, 56]

  /** "testfile" */
  const FileName: Bytes := [116, 101, 115, 116, 102, 105, 108, 101]

  /** "100644" */
  const Mode: Bytes := [49, 48, 48, 54, 52, 52]

  const Entry: TreeEntry := TreeEntry(Mode, BlobHash, BlobKind, FileName)

  /** The input line the tests build the tree from. */
  const TreeInputText: Bytes := Text([Entry])

  const TestStore: Store := map[BlobHash := GitObject(BlobKind, TestData)]

  /** Text of printable bytes above SP is one word without NUL. */
  lemma PrintableIsToken(s: Bytes)
    requires s != [] && forall i :: 0 <= i < |s| ==> s[i] > SP
    ensures IsToken(s) && NUL !in s
  {
  }

  lemma HashIsText()
    ensures Hex.IsHashText(BlobHash)
  {
  }

  lemma HashIsToken()
    ensures IsToken(BlobHash) && NUL !in BlobHash
  {
    PrintableIsToken(BlobHash);
  }

  lemma ModeIsClean()
    ensures IsToken(Mode) && NUL !in Mode && TrimZeros(Mode) == Mode && ValidMode(Mode)
  {
    PrintableIsToken(Mode);
  }

  lemma NameIsClean()
    ensures IsToken(FileName) && NUL !in FileName
  {
    PrintableIsToken(FileName);
  }

  lemma KindIsClean()
    ensures IsToken(BlobKind)
  {
    assert BlobKind == [98, 108, 111, 98];
    PrintableIsToken(BlobKind);
  }

  lemma EntryRoundTrips()
    ensures IsRoundTripEntry(Entry, TestStore)
  {
    HashIsText();
    HashIsToken();
    ModeIsClean();
    NameIsClean();
    KindIsClean();
  }

  lemma TestLineRoundTrips()
    ensures forall i :: 0 <= i < |[Entry]| ==> IsRoundTripEntry([Entry][i], TestStore)
    ensures StrictlySortedByName([Entry])
    ensures TrimModes([Entry]) == [Entry]
  {
    EntryRoundTrips();
    assert TrimModes([Entry])[0] == Entry;
  }

  /** NewTreeFromInput on the test line: the tree holds the one entry, and Print gives the line back. */
  lemma TreeOfInput()
    ensures EncodeInput(TreeInputText).Ok?
    ensures NewTreeSpec(GitObject(TreeKind, EncodeInput(TreeInputText).value), TestStore) == Ok([Entry])
    ensures Printable([Entry]) && Render([Entry]) == TreeInputText
  {
    TestLineRoundTrips();
    PrintRoundTrip([Entry], TestStore);
  }

  /** The payload of the test line has 36 bytes, the size git cat-file -s reports. */
  lemma PayloadOfInput()
    ensures EncodeInput(TreeInputText).Ok?
    ensures |EncodeInput(TreeInputText).value| == 36
  {
    EntryRoundTrips();
    HashIsText();
    assert forall i :: 0 <= i < |[Entry]| ==> IsInputEntry([Entry][i]) && HasHexHash([Entry][i]) && |[Entry][i].hash| == 40;
    EncodedSize([Entry]);
    assert [Entry][1..] == [];
  }

  /** n octal digits '7'. */
  function Sevens(n: nat): (s: Bytes)
    ensures |s| == n && IsOctal(s) && OctalValue(s) == Pow8(n) - 1
  {
    if n == 0 then []
    else
      var s := Sevens(n - 1) + [ZERO + 7];
      assert s[..n - 1] == Sevens(n - 1);
      s
  }

  /**
   * Eleven '7's already exceed 32 bits, so ParseUint stops with ErrRange
   * before it reaches the "x" after them, and ParseInt clamps the value to
   * the bound on the side of the sign.
   */
  lemma RangeBeforeSyntax()
    ensures ParseOctal(Sevens(11) + [120]) == MaxInt32
    ensures ParseOctal([MINUS] + Sevens(11) + [120]) == MinInt32
  {
    var long := Sevens(11) + [120];
    OverflowAtEleven(long);
    assert long[0] == ZERO + 7 && long[11] == 120;
    assert !IsOctal(long);
    var negative := [MINUS] + Sevens(11) + [120];
    assert negative == [MINUS] + long && negative[1..] == long;
  }

  lemma OverflowAtEleven(s: Bytes)
    requires |s| > 11 && s[..11] == Sevens(11)
    ensures Overflows(s)
  {
    assert Pow8(11) == 8589934592;
    assert IsOctal(s[..11]) && OctalValue(s[..11]) > MaxUint32;
  }

  /** Ten '7's still fit 32 bits, so the "x" after them is a syntax error. */
  lemma SyntaxWithinRange()
    ensures ParseOctal(Sevens(10) + [120]) == 0
  {
    var short := Sevens(10) + [120];
    assert short[..10] == Sevens(10);
    assert Pow8(10) == 1073741824;
    assert !IsOctal(short) by { assert short[10] == 120; }
    forall k | 0 < k <= |short|
      ensures !IsOctal(short[..k]) || OctalValue(short[..k]) <= MaxUint32
    {
      if k <= 10 {
        if IsOctal(short[..k]) {
          OctalPrefixBound(short, k, 10);
        }
      } else {
        assert short[..k] == short;
      }
    }
  }

  /** The permission a checkout gives the test file: 0644. */
  lemma TestFileMode()
    ensures FileMode(Mode) == 420
  {
    var digits := Mode[3..];
    assert digits == [54, 52, 52];
    assert digits[..2] == [54, 52] && digits[..2][..1] == [54] && digits[..2][..1][..0] == [];
    assert IsOctal(digits);
    assert OctalValue(digits[..2][..1]) == 6;
    assert OctalValue(digits[..2]) == 52;
    assert OctalValue(digits) == 420;
  }

  /** Writing the test file into the empty directory creates it with the given permission. */
  lemma TestFileWritten()
    ensures WriteFileResult(map[], [FileName], TestData, 420) == Some(map[[FileName] := File(TestData, 420)])
  {
    assert [FileName][..0] == [];
  }

  lemma EntryWritesTestFile(depth: nat)
    ensures CheckoutEntry(Entry, [], TestStore, map[], depth) == Outcome(map[[FileName] := File(TestData, 420)], None)
  {
    TestFileMode();
    TestFileWritten();
    assert BlobKind[0] != TreeKind[0];
    assert Join([], FileName) == [FileName];
  }

  /** Checking the tree out into an empty directory writes exactly the test file. */
  lemma CheckoutWritesTestFile(depth: nat)
    ensures CheckoutEntries([Entry], [], TestStore, map[], depth) ==
      Outcome(map[[FileName] := File(TestData, 420)], None)
  {
    EntryWritesTestFile(depth);
    assert [Entry][0] in [Entry];
    assert [Entry][1..] == [];
  }

  /**
   * The cat-file tests on the model: the tree built from the input line
   * prints as that line and has size 36.
   */
  method CatFile() returns (printed: Bytes, size: nat)
    ensures printed == TreeInputText && size == 36
  {
    TreeOfInput();
    PayloadOfInput();
    var t := NewTreeFromInput(TreeInputText, TestStore);
    printed := t.value.Print();
    size := t.value.DataSize();
  }

  /**
   * The checkout test on the model: checking the tree built from the input
   * line out into an empty directory succeeds and leaves the file with the
   * blob's bytes and mode 0644.
   */
  method CheckoutTestTree() returns (err: Option<TreeError>, written: Node)
    ensures err == None && written == File(TestData, 420)
  {
    TreeOfInput();
    var t := NewTreeFromInput(TreeInputText, TestStore);
    var tree := t.value;
    assert tree.entries == [Entry];
    var disk := new Disk(map[]);
    CheckoutWritesTestFile(1);
    err := tree.Checkout([], TestStore, disk, 1);
    assert disk.nodes == map[[FileName] := File(TestData, 420)];
    written := disk.nodes[[FileName]];
  }
}
