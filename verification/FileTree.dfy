/** A file system as a tree of named entries, with the calls the firmware makes on it. */
module FileTree {
  import opened Bytes

  datatype Option<+T> = None | Some(value: T)

  datatype Node = File(content: seq<byte>) | Dir(entries: seq<Entry>)
  datatype Entry = Entry(name: string, node: Node)

  type Path = seq<string>

  const ENOENT := 2
  const EEXIST := 17
  const ENOTDIR := 20
  const ENAMETOOLONG := 36
  const ENOTEMPTY := 39

  /** Where the name first occurs; the number of entries when it does not. */
  function Find(entries: seq<Entry>, name: string): (i: nat)
    ensures i <= |entries|
    ensures i < |entries| ==> entries[i].name == name
  {
    if entries == [] || entries[0].name == name then 0 else 1 + Find(entries[1..], name)
  }

  function Lookup(node: Node, path: Path): Option<Node>
    decreases |path|
  {
    if path == [] then Some(node)
    else if node.File? then None
    else
      var i := Find(node.entries, path[0]);
      if i == |node.entries| then None else Lookup(node.entries[i].node, path[1..])
  }

  /** The tree with the node at an existing path replaced. */
  function Put(node: Node, path: Path, other: Node): Node
    requires Lookup(node, path).Some?
    decreases |path|
  {
    if path == [] then other
    else
      var i := Find(node.entries, path[0]);
      var e := node.entries[i];
      Dir(node.entries[i := Entry(e.name, Put(e.node, path[1..], other))])
  }

  /** The tree without the node at an existing path. */
  function Remove(node: Node, path: Path): Node
    requires path != [] && Lookup(node, path).Some?
    decreases |path|
  {
    var i := Find(node.entries, path[0]);
    if |path| == 1 then Dir(node.entries[..i] + node.entries[i + 1..])
    else
      var e := node.entries[i];
      Dir(node.entries[i := Entry(e.name, Remove(e.node, path[1..]))])
  }

  lemma {:induction false} FindKept(entries: seq<Entry>, name: string, node: Node)
    requires Find(entries, name) < |entries|
    ensures Find(entries[Find(entries, name) := Entry(name, node)], name) == Find(entries, name)
    decreases |entries|
  {
    var i := Find(entries, name);
    if i > 0 {
      FindKept(entries[1..], name, node);
      assert entries[i := Entry(name, node)][1..] == entries[1..][i - 1 := Entry(name, node)];
    }
  }

  lemma {:induction false} LookupPut(node: Node, path: Path, other: Node)
    requires Lookup(node, path).Some?
    ensures Lookup(Put(node, path, other), path) == Some(other)
    decreases |path|
  {
    if path != [] {
      var i := Find(node.entries, path[0]);
      var e := node.entries[i];
      LookupPut(e.node, path[1..], other);
      FindKept(node.entries, path[0], Put(e.node, path[1..], other));
    }
  }

  lemma {:induction false} PutTwice(node: Node, path: Path, a: Node, b: Node)
    requires Lookup(node, path).Some?
    ensures Lookup(Put(node, path, a), path).Some?
    ensures Put(Put(node, path, a), path, b) == Put(node, path, b)
    decreases |path|
  {
    LookupPut(node, path, a);
    if path != [] {
      var i := Find(node.entries, path[0]);
      var e := node.entries[i];
      PutTwice(e.node, path[1..], a, b);
      FindKept(node.entries, path[0], Put(e.node, path[1..], a));
    }
  }

  lemma {:induction false} PutSame(node: Node, path: Path)
    requires Lookup(node, path).Some?
    ensures Put(node, path, Lookup(node, path).value) == node
    decreases |path|
  {
    if path != [] {
      var i := Find(node.entries, path[0]);
      PutSame(node.entries[i].node, path[1..]);
    }
  }

  lemma FirstEntryHere(first: Entry, rest: seq<Entry>)
    ensures Lookup(Dir([first] + rest), [first.name]) == Some(first.node)
    ensures Remove(Dir([first] + rest), [first.name]) == Dir(rest)
    ensures forall n :: Put(Dir([first] + rest), [first.name], n) == Dir([Entry(first.name, n)] + rest)
  {
    assert [first.name][1..] == [];
    assert ([first] + rest)[..0] + ([first] + rest)[1..] == rest;
    forall n ensures Put(Dir([first] + rest), [first.name], n) == Dir([Entry(first.name, n)] + rest) {
      assert ([first] + rest)[0 := Entry(first.name, n)] == [Entry(first.name, n)] + rest;
    }
  }

  /** The first entry of a directory, reached through its own path. */
  lemma {:induction false} FirstEntry(node: Node, path: Path, first: Entry, rest: seq<Entry>)
    requires Lookup(node, path) == Some(Dir([first] + rest))
    ensures Lookup(node, path + [first.name]) == Some(first.node)
    ensures Remove(node, path + [first.name]) == Put(node, path, Dir(rest))
    ensures forall n :: Put(node, path + [first.name], n) == Put(node, path, Dir([Entry(first.name, n)] + rest))
    decreases |path|
  {
    var full := path + [first.name];
    if path == [] {
      FirstEntryHere(first, rest);
      assert full == [first.name];
    } else {
      assert full[1..] == path[1..] + [first.name] && full[0] == path[0];
      FirstEntry(node.entries[Find(node.entries, path[0])].node, path[1..], first, rest);
    }
  }

  /** The mounted file system. */
  class FileSystem {
    var root: Node

    constructor (root: Node)
      ensures this.root == root
    {
      this.root := root;
    }

    /** The entries a directory has when it is opened. */
    method OpenDir(path: Path) returns (result: int, entries: seq<Entry>)
      ensures result == match Lookup(root, path)
                        case None => -ENOENT
                        case Some(File(_)) => -ENOTDIR
                        case Some(Dir(_)) => 0
      ensures result == 0 ==> Lookup(root, path) == Some(Dir(entries))
    {
      match Lookup(root, path) {
        case None => return -ENOENT, [];
        case Some(File(_)) => return -ENOTDIR, [];
        case Some(Dir(es)) => return 0, es;
      }
    }

    /** Remove a file or an empty directory. */
    method Unlink(path: Path) returns (result: int)
      requires path != []
      modifies this
      ensures result == match Lookup(old(root), path)
                        case None => -ENOENT
                        case Some(File(_)) => 0
                        case Some(Dir(es)) => if es == [] then 0 else -ENOTEMPTY
      ensures root == if result == 0 then Remove(old(root), path) else old(root)
    {
      var found := Lookup(root, path);
      if found.None? {
        return -ENOENT;
      }
      if found.value.Dir? && found.value.entries != [] {
        return -ENOTEMPTY;
      }
      root := Remove(root, path);
      result := 0;
    }
  
    /** Create an empty directory in the mounted root. */
    method Mkdir(name: string) returns (result: int)
      requires root.Dir?
      modifies this
      ensures result == if Find(old(root).entries, name) < |old(root).entries| then -EEXIST else 0
      ensures root == if result == 0 then Dir(old(root).entries + [Entry(name, Dir([]))]) else old(root)
    {
      if Find(root.entries, name) < |root.entries| {
        return -EEXIST;
      }
      root := Dir(root.entries + [Entry(name, Dir([]))]);
      result := 0;
    }
  }
}
