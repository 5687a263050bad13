/**
 * An abstract filesystem for Checkout: a map from paths to nodes, with the
 * two calls the checkout makes, os.Mkdir and ioutil.WriteFile. A path is a
 * sequence of name segments below the checkout's starting point; the
 * starting point itself, the empty path, is taken to be an existing
 * directory.
 */
module FileSystem {
  import opened Wrappers
  import opened ByteStrings

  type Path = seq<Bytes>

  datatype Node = Dir | File(data: Bytes, perm: int)

  type Nodes = map<Path, Node>

  /** filepath.Join of a directory and an entry name; an empty name adds nothing. */
  function Join(dir: Path, name: Bytes): (p: Path)
    ensures name != [] ==> |p| == |dir| + 1 && p[..|dir|] == dir && p[|dir|] == name
    ensures name == [] ==> p == dir
  {
    if name == [] then dir else dir + [name]
  }

  /** `prefix` is `p` or a directory above it. */
  predicate Under(prefix: Path, p: Path)
  {
    |prefix| <= |p| && p[..|prefix|] == prefix
  }

  predicate Exists(nodes: Nodes, p: Path)
  {
    p == [] || p in nodes
  }

  predicate IsDir(nodes: Nodes, p: Path)
  {
    p == [] || (p in nodes && nodes[p].Dir?)
  }

  /** `after` is `before` with `p` set to `n`, and every other path left as it was. */
  predicate SetOnly(before: Nodes, after: Nodes, p: Path, n: Node)
  {
    && p in after && after[p] == n
    && after.Keys == before.Keys + {p}
    && forall q :: q in before && q != p ==> after[q] == before[q]
  }

  /** os.Mkdir: fails when the path exists or its parent is not a directory. */
  function MkdirResult(nodes: Nodes, p: Path): (r: Option<Nodes>)
    ensures r.Some? <==> p != [] && !Exists(nodes, p) && IsDir(nodes, p[..|p| - 1])
    ensures r.Some? ==> SetOnly(nodes, r.value, p, Dir)
  {
    if p == [] || p in nodes || !IsDir(nodes, p[..|p| - 1]) then None
    else Some(nodes[p := Dir])
  }

  /**
   * ioutil.WriteFile: fails when the parent is not a directory or the path is
   * a directory. A new file gets `perm`; an existing one is truncated and
   * rewritten and keeps the permission it had.
   */
  function WriteFileResult(nodes: Nodes, p: Path, data: Bytes, perm: int): (r: Option<Nodes>)
    ensures r.Some? <==> p != [] && IsDir(nodes, p[..|p| - 1]) && !IsDir(nodes, p)
    ensures r.Some? && p !in nodes ==> SetOnly(nodes, r.value, p, File(data, perm))
    ensures r.Some? && p in nodes ==> SetOnly(nodes, r.value, p, File(data, nodes[p].perm))
  {
    if p == [] || !IsDir(nodes, p[..|p| - 1]) || IsDir(nodes, p) then None
    else
      var keep := if p in nodes then nodes[p].perm else perm;
      Some(nodes[p := File(data, keep)])
  }

  /** The disk the checkout writes to. */
  class Disk {
    var nodes: Nodes

    constructor (initial: Nodes)
      ensures nodes == initial
    {
      nodes := initial;
    }

    method Mkdir(p: Path) returns (ok: bool)
      modifies this
      ensures ok <==> MkdirResult(old(nodes), p).Some?
      ensures nodes == if ok then MkdirResult(old(nodes), p).value else old(nodes)
    {
      var r := MkdirResult(nodes, p);
      ok := r.Some?;
      if ok {
        nodes := r.value;
      }
    }

    method WriteFile(p: Path, data: Bytes, perm: int) returns (ok: bool)
      modifies this
      ensures ok <==> WriteFileResult(old(nodes), p, data, perm).Some?
      ensures nodes == if ok then WriteFileResult(old(nodes), p, data, perm).value else old(nodes)
    {
      var r := WriteFileResult(nodes, p, data, perm);
      ok := r.Some?;
      if ok {
        nodes := r.value;
      }
    }
  }
}
