/**
 * What Print renders: one `mode6 SP kind SP hash TAB name LF` line per entry,
 * where `mode6` is the mode left-padded with '0' to six bytes, and how that
 * text relates to the input text NewTreeFromInput reads.
 */
module TreePrint {
  import opened Wrappers
  import opened ByteStrings
  import Hex
  import opened Objects
  import opened TreeEntries
  import opened TreeInput
  import opened TreeSort
  import opened TreeParse

  /** strings.Repeat("0", 6-len(mode)) + mode. */
  function Pad6(mode: Bytes): Bytes
    requires |mode| <= 6
  {
    Zeros(6 - |mode|) + mode
  }

  /** Every mode is short enough to be padded (Repeat panics on a negative count). */
  predicate Printable(es: seq<TreeEntry>)
  {
    forall i :: 0 <= i < |es| ==> |es[i].mode| <= 6
  }

  /** The line Print writes for one entry: the input line of the entry with its mode padded. */
  function PrintLine(e: TreeEntry): Bytes
    requires |e.mode| <= 6
  {
    Line(e.(mode := Pad6(e.mode)))
  }

  /** The text Print builds, line by line in entry order. */
  function Render(es: seq<TreeEntry>): Bytes
    requires Printable(es)
  {
    if es == [] then [] else PrintLine(es[0]) + Render(es[1..])
  }

  /** The entries with every mode padded to six bytes. */
  function PadModes(es: seq<TreeEntry>): (r: seq<TreeEntry>)
    requires Printable(es)
    ensures |r| == |es|
    ensures forall i :: 0 <= i < |es| ==> r[i] == es[i].(mode := Pad6(es[i].mode))
  {
    seq(|es|, i requires 0 <= i < |es| => es[i].(mode := Pad6(es[i].mode)))
  }

  /** Padding a trimmed six-byte mode gives the mode back. */
  lemma PadTrim(m: Bytes)
    requires |m| == 6
    ensures |TrimZeros(m)| <= 6 && Pad6(TrimZeros(m)) == m
  {
  }

  /** Trimming a padded mode that has no leading '0' gives the mode back. */
  lemma TrimPad(m: Bytes)
    requires |m| <= 6 && (|m| > 0 ==> m[0] != ZERO)
    ensures TrimZeros(Pad6(m)) == m
  {
    TrimZerosPrefix(6 - |m|, m);
  }

  lemma {:induction false} TrimZerosPrefix(k: nat, m: Bytes)
    requires |m| > 0 ==> m[0] != ZERO
    ensures TrimZeros(Zeros(k) + m) == m
    decreases k
  {
    if k > 0 {
      var s := Zeros(k) + m;
      assert s[0] == ZERO;
      assert s[1..] == Zeros(k - 1) + m;
      TrimZerosPrefix(k - 1, m);
    } else {
      assert Zeros(k) + m == m;
    }
  }

  /** Rendering is printing the padded entries as input text. */
  lemma {:induction false} RenderIsText(es: seq<TreeEntry>)
    requires Printable(es)
    ensures Render(es) == Text(PadModes(es))
    decreases |es|
  {
    if es != [] {
      RenderIsText(es[1..]);
      assert PadModes(es)[1..] == PadModes(es[1..]);
    }
  }

  /** Rendering the trimmed entries of six-digit input gives the input text back. */
  lemma {:induction false} RenderTrimmed(es: seq<TreeEntry>)
    requires forall i :: 0 <= i < |es| ==> |es[i].mode| == 6
    ensures Printable(TrimModes(es))
    ensures Render(TrimModes(es)) == Text(es)
    decreases |es|
  {
    var t := TrimModes(es);
    forall i | 0 <= i < |es|
      ensures |t[i].mode| <= 6
    {
      PadTrim(es[i].mode);
    }
    if es != [] {
      RenderTrimmed(es[1..]);
      assert t[1..] == TrimModes(es[1..]);
      PadTrim(es[0].mode);
      assert t[0].(mode := Pad6(t[0].mode)) == es[0];
    }
  }

  /**
   * An entry that keeps its fields when printed and read back: single-word
   * fields once the mode is padded, no leading '0' in the mode, a hex hash.
   */
  predicate IsPrintableEntry(e: TreeEntry)
  {
    && |e.mode| <= 6 && (|e.mode| > 0 ==> e.mode[0] != ZERO)
    && IsInputEntry(e.(mode := Pad6(e.mode)))
    && HasHexHash(e)
  }

  /**
   * Print then NewTreeFromInput: the rendered text of entries whose fields are
   * single words and whose modes carry no leading '0' encodes back to their payload.
   */
  lemma RenderEncode(es: seq<TreeEntry>)
    requires forall i :: 0 <= i < |es| ==> IsPrintableEntry(es[i])
    ensures Printable(es)
    ensures EncodeInput(Render(es)) == Ok(Serialize(es))
  {
    RenderIsText(es);
    PaddedInput(es);
    EncodeText(PadModes(es));
    TrimPadModes(es);
  }

  lemma PaddedInput(es: seq<TreeEntry>)
    requires forall i :: 0 <= i < |es| ==> IsPrintableEntry(es[i])
    ensures Printable(es)
    ensures forall i :: 0 <= i < |es| ==> IsInputEntry(PadModes(es)[i]) && HasHexHash(PadModes(es)[i])
  {
  }

  lemma TrimPadModes(es: seq<TreeEntry>)
    requires forall i :: 0 <= i < |es| ==> IsPrintableEntry(es[i])
    ensures Printable(es) && TrimModes(PadModes(es)) == es
  {
    var t := TrimModes(PadModes(es));
    forall i | 0 <= i < |es|
      ensures t[i] == es[i]
    {
      TrimPad(es[i].mode);
    }
  }

  /** The conditions under which an input line survives construction and printing unchanged. */
  predicate IsRoundTripEntry(e: TreeEntry, store: Store)
  {
    && IsInputEntry(e) && |e.mode| == 6 && ValidMode(TrimZeros(e.mode))
    && NUL !in e.mode && NUL !in e.name && Hex.IsHashText(e.hash)
    && e.hash in store && store[e.hash].kind == e.kind
  }

  /**
   * The round trip the tests assert: for name-sorted input lines with
   * six-digit modes and kinds that agree with the store, the input encodes,
   * the tree built from the payload holds the entries with trimmed modes in
   * input order, and printing it reproduces the input text.
   */
  lemma PrintRoundTrip(es: seq<TreeEntry>, store: Store)
    requires forall i :: 0 <= i < |es| ==> IsRoundTripEntry(es[i], store)
    requires StrictlySortedByName(es)
    ensures EncodeInput(Text(es)).Ok?
    ensures NewTreeSpec(GitObject(TreeKind, EncodeInput(Text(es)).value), store) == Ok(TrimModes(es))
    ensures Printable(TrimModes(es)) && Render(TrimModes(es)) == Text(es)
  {
    var t := TrimModes(es);
    forall i | 0 <= i < |es|
      ensures HasHexHash(es[i])
    {
      HashTextIsHex(es[i].hash);
    }
    EncodeText(es);
    forall i | 0 <= i < |t|
      ensures IsRecordEntry(t[i])
    {
      TrimmedModeClean(es[i].mode);
    }
    ParseExactly(t, store);
    ResolveFound(t, store);
    assert StrictlySortedByName(t);
    SortStrictlySorted(t);
    RenderTrimmed(es);
  }

  lemma HashTextIsHex(h: Bytes)
    requires Hex.IsHashText(h)
    ensures |h| % 2 == 0 && Hex.IsHex(h)
  {
  }

  /** Trimming the zeros off a mode keeps it free of SP and NUL. */
  lemma TrimmedModeClean(m: Bytes)
    requires NoSpace(m) && NUL !in m
    ensures SP !in TrimZeros(m) && NUL !in TrimZeros(m)
  {
    var r := TrimZeros(m);
    assert m == Zeros(|m| - |r|) + r;
    assert m[|m| - |r|..] == r;
  }

  /** Entries whose kinds already agree with the store resolve to themselves. */
  lemma {:induction false} ResolveFound(es: seq<TreeEntry>, store: Store)
    requires forall i :: 0 <= i < |es| ==> es[i].hash in store && store[es[i].hash].kind == es[i].kind
    ensures Resolve(es, store) == Parsed(es, None)
    decreases |es|
  {
    if es != [] {
      ResolveFound(es[1..], store);
      assert es[0].(kind := store[es[0].hash].kind) == es[0];
      assert [es[0]] + es[1..] == es;
    }
  }
}
