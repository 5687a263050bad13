/**
 * The order ParseData leaves entries in: sort.Slice with `name <`, that is,
 * ascending in Go's byte-wise string order. sort.Slice is not stable; the
 * model sorts by insertion, which is, so among equal names it fixes one of the
 * orders the source may produce.
 */
module TreeSort {
  import opened ByteStrings
  import opened TreeEntries

  /** Ascending by name: no later entry has a smaller name than an earlier one. */
  predicate SortedByName(s: seq<TreeEntry>)
  {
    forall i, j :: 0 <= i < j < |s| ==> !Less(s[j].name, s[i].name)
  }

  /** Strictly ascending by name, so in particular no name occurs twice. */
  predicate StrictlySortedByName(s: seq<TreeEntry>)
  {
    forall i, j :: 0 <= i < j < |s| ==> Less(s[i].name, s[j].name)
  }

  lemma NotLessTransitive(a: Bytes, b: Bytes, c: Bytes)
    requires !Less(b, a) && !Less(c, b)
    ensures !Less(c, a)
  {
    if Less(c, a) {
      LessTotal(a, b);
      if a != b {
        assert Less(a, b);
        LessTransitive(c, a, b);
      }
    }
  }

  /** `e` placed before the first entry whose name is not smaller than its own. */
  function Insert(e: TreeEntry, s: seq<TreeEntry>): (r: seq<TreeEntry>)
    requires SortedByName(s)
    ensures SortedByName(r)
    ensures multiset(r) == multiset(s) + multiset{e}
    decreases |s|
  {
    if s == [] || !Less(s[0].name, e.name) then
      AboveHead(e, s);
      PrependSorted(e, s);
      [e] + s
    else
      var rest := Insert(e, s[1..]);
      assert s == [s[0]] + s[1..];
      LessAsymmetric(s[0].name, e.name);
      TailAbove(s);
      AboveAll(s[0], e, rest, s[1..]);
      PrependSorted(s[0], rest);
      [s[0]] + rest
  }

  /** Putting in front an entry no other name is smaller than keeps the order. */
  lemma PrependSorted(x: TreeEntry, s: seq<TreeEntry>)
    requires SortedByName(s) && forall y <- s :: !Less(y.name, x.name)
    ensures SortedByName([x] + s)
  {
    var r := [x] + s;
    forall i, j | 0 <= i < j < |r|
      ensures !Less(r[j].name, r[i].name)
    {
      assert r[j] == s[j - 1];
      if i > 0 {
        assert r[i] == s[i - 1];
      }
    }
  }

  /** An entry not above the first of a sorted list is not above any of it. */
  lemma AboveHead(e: TreeEntry, s: seq<TreeEntry>)
    requires SortedByName(s) && (s == [] || !Less(s[0].name, e.name))
    ensures forall y <- s :: !Less(y.name, e.name)
  {
    forall y | y in s
      ensures !Less(y.name, e.name)
    {
      var j :| 0 <= j < |s| && s[j] == y;
      if j > 0 {
        NotLessTransitive(e.name, s[0].name, y.name);
      }
    }
  }

  /** In a sorted list no name after the first is smaller than the first. */
  lemma TailAbove(s: seq<TreeEntry>)
    requires SortedByName(s) && s != []
    ensures SortedByName(s[1..]) && forall y <- s[1..] :: !Less(y.name, s[0].name)
  {
    forall y | y in s[1..]
      ensures !Less(y.name, s[0].name)
    {
      var j :| 0 <= j < |s[1..]| && s[1..][j] == y;
      assert s[j + 1] == y;
    }
  }

  /** A bound on every element carries over to a permutation with one more bounded element. */
  lemma AboveAll(x: TreeEntry, e: TreeEntry, rest: seq<TreeEntry>, s: seq<TreeEntry>)
    requires forall y <- s :: !Less(y.name, x.name)
    requires !Less(e.name, x.name)
    requires multiset(rest) == multiset(s) + multiset{e}
    ensures forall y <- rest :: !Less(y.name, x.name)
  {
    forall y | y in rest
      ensures !Less(y.name, x.name)
    {
      assert y in multiset(rest);
      if y != e {
        assert y in multiset(s);
      }
    }
  }

  /** Insertion sort by name: the sorted permutation ParseData leaves behind. */
  function SortByName(s: seq<TreeEntry>): (r: seq<TreeEntry>)
    ensures SortedByName(r)
    ensures multiset(r) == multiset(s)
    decreases |s|
  {
    if s == [] then []
    else
      assert s == [s[0]] + s[1..];
      Insert(s[0], SortByName(s[1..]))
  }

  /** Entries already in strictly ascending name order are left where they are. */
  lemma {:induction false} SortStrictlySorted(s: seq<TreeEntry>)
    requires StrictlySortedByName(s)
    ensures SortByName(s) == s
    decreases |s|
  {
    if s != [] {
      assert StrictlySortedByName(s[1..]);
      SortStrictlySorted(s[1..]);
      if |s| > 1 {
        LessAsymmetric(s[0].name, s[1].name);
        assert s[1..][0] == s[1];
      }
      assert s == [s[0]] + s[1..];
    }
  }

  /** Sorting moves records around but keeps the payload length. */
  lemma {:induction false} SortKeepsSize(s: seq<TreeEntry>)
    ensures |Serialize(SortByName(s))| == |Serialize(s)|
    decreases |s|
  {
    if s != [] {
      SortKeepsSize(s[1..]);
      InsertKeepsSize(s[0], SortByName(s[1..]));
    }
  }

  lemma {:induction false} InsertKeepsSize(e: TreeEntry, s: seq<TreeEntry>)
    requires SortedByName(s)
    ensures |Serialize(Insert(e, s))| == |Record(e)| + |Serialize(s)|
    decreases |s|
  {
    if s == [] || !Less(s[0].name, e.name) {
      assert Insert(e, s)[1..] == s;
    } else {
      InsertKeepsSize(e, s[1..]);
      assert Insert(e, s)[1..] == Insert(e, s[1..]);
    }
  }

  /** Everything in the sorted list was in the list before. */
  lemma SortedMembers(s: seq<TreeEntry>)
    ensures forall x :: x in SortByName(s) ==> x in s
  {
    forall x | x in SortByName(s)
      ensures x in s
    {
      assert x in multiset(SortByName(s));
    }
  }
}
