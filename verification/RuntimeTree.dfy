// The walk over a runtime tree with an explicit stack: it visits every directory and file once, parents
// before children and names in order, and refuses a tree that holds anything else.
module RuntimeTree {
  import opened Sequences
  import opened Wrappers
  import opened Paths

  datatype Node = File | Directory(entries: seq<Entry>) | Link | Special

  // A directory lists its entries in name order.
  datatype Entry = Entry(name: string, node: Node)

  datatype Kind = IsFile | IsDirectory

  datatype Visit = Visit(path: string, kind: Kind)

  datatype WalkError = SymbolicLink(path: string) | Unsupported(path: string)

  // A node with the path it stands at.
  datatype Placed = Placed(path: string, node: Node)

  function Children(path: string, entries: seq<Entry>): (r: seq<Placed>)
    ensures |r| == |entries|
  {
    if entries == [] then []
    else [Placed(path + SEPARATOR + entries[0].name, entries[0].node)] + Children(path, entries[1..])
  }

  // ---------- what a tree holds ----------

  predicate Supported(node: Node) {
    node.File? || (node.Directory? && forall i :: 0 <= i < |node.entries| ==> Supported(node.entries[i].node))
  }

  // The tree in order: a directory, then each of its entries in full.
  function Listing(path: string, node: Node): seq<Visit>
    decreases node, 0
  {
    match node
    case File => [Visit(path, IsFile)]
    case Directory(entries) => [Visit(path, IsDirectory)] + ListingOf(node, path, entries)
    case _ => []
  }

  ghost predicate Within(parent: Node, entries: seq<Entry>) {
    forall i :: 0 <= i < |entries| ==> entries[i].node < parent
  }

  function ListingOf(parent: Node, path: string, entries: seq<Entry>): seq<Visit>
    requires Within(parent, entries)
    decreases parent, 0, |entries|
  {
    if entries == [] then []
    else Listing(path + SEPARATOR + entries[0].name, entries[0].node) + ListingOf(parent, path, entries[1..])
  }

  // ---------- the walk ----------

  function Size(node: Node): nat
    decreases node, 0
  {
    if node.Directory? then 1 + SizeOf(node, node.entries) else 1
  }

  function SizeOf(parent: Node, entries: seq<Entry>): nat
    requires Within(parent, entries)
    decreases parent, 0, |entries|
  {
    if entries == [] then 0 else Size(entries[0].node) + SizeOf(parent, entries[1..])
  }

  // The stack holds the next node at its end.
  function StackListing(stack: seq<Placed>): seq<Visit> {
    if stack == [] then []
    else
      var top := stack[|stack| - 1];
      Listing(top.path, top.node) + StackListing(stack[..|stack| - 1])
  }

  function StackSize(stack: seq<Placed>): nat {
    if stack == [] then 0 else Size(stack[|stack| - 1].node) + StackSize(stack[..|stack| - 1])
  }

  predicate StackSupported(stack: seq<Placed>) {
    forall i :: 0 <= i < |stack| ==> Supported(stack[i].node)
  }

  function Reversed<T>(s: seq<T>): (r: seq<T>)
    ensures |r| == |s| && forall i :: 0 <= i < |s| ==> r[i] == s[|s| - 1 - i]
  {
    if s == [] then [] else Reversed(s[1..]) + [s[0]]
  }

  // Pushing the children of a directory in reverse puts its listing in front.
  lemma {:induction false} PushChildren(stack: seq<Placed>, parent: Node, path: string, entries: seq<Entry>)
    requires Within(parent, entries)
    ensures var pushed := stack + Reversed(Children(path, entries));
      StackListing(pushed) == ListingOf(parent, path, entries) + StackListing(stack)
      && StackSize(pushed) == SizeOf(parent, entries) + StackSize(stack)
    decreases |entries|
  {
    var children := Children(path, entries);
    var pushed := stack + Reversed(children);
    if entries == [] {
      assert pushed == stack;
    } else {
      var below := stack + Reversed(Children(path, entries[1..]));
      assert children[1..] == Children(path, entries[1..]);
      assert pushed == below + [children[0]];
      assert pushed[..|pushed| - 1] == below;
      PushChildren(stack, parent, path, entries[1..]);
      Regroup(Listing(children[0].path, children[0].node), ListingOf(parent, path, entries[1..]), StackListing(stack));
    }
  }

  lemma {:induction false} ChildrenNodes(path: string, entries: seq<Entry>)
    ensures forall i :: 0 <= i < |entries| ==> Children(path, entries)[i].node == entries[i].node
  {
    if entries != [] {
      ChildrenNodes(path, entries[1..]);
    }
  }

  lemma PushSupported(stack: seq<Placed>, path: string, entries: seq<Entry>)
    ensures StackSupported(stack + Reversed(Children(path, entries))) <==>
      StackSupported(stack) && Supported(Directory(entries))
  {
    var children := Children(path, entries);
    var pushed := stack + Reversed(children);
    ChildrenNodes(path, entries);
    if StackSupported(pushed) {
      forall i | 0 <= i < |stack| ensures Supported(stack[i].node) {
        assert pushed[i] == stack[i];
      }
      forall i | 0 <= i < |entries| ensures Supported(entries[i].node) {
        assert pushed[|stack| + (|entries| - 1 - i)] == children[i];
      }
    }
  }

  // `walkRuntimeTree`: either the whole listing, or an error for a node that is neither file nor directory.
  method WalkRuntimeTree(rootPath: string, root: Node) returns (r: Result<seq<Visit>, WalkError>)
    ensures r.Ok? <==> Supported(root)
    ensures r.Ok? ==> r.value == Listing(rootPath, root)
  {
    var stack := [Placed(rootPath, root)];
    var visited := [];
    assert StackListing(stack) == Listing(rootPath, root) + StackListing([]);
    while stack != []
      invariant StackSupported(stack) <==> Supported(root)
      invariant visited + StackListing(stack) == Listing(rootPath, root)
      decreases StackSize(stack)
    {
      var current := stack[|stack| - 1];
      ghost var before := stack;
      stack := stack[..|stack| - 1];
      assert before == stack + [current];
      match current.node
      case Link =>
        assert !Supported(current.node);
        return Error(SymbolicLink(current.path));
      case Special =>
        assert !Supported(current.node);
        return Error(Unsupported(current.path));
      case File =>
        visited := visited + [Visit(current.path, IsFile)];
        Regroup(visited[..|visited| - 1], [Visit(current.path, IsFile)], StackListing(stack));
      case Directory(entries) =>
        ghost var earlier := visited;
        ghost var rest := stack;
        visited := visited + [Visit(current.path, IsDirectory)];
        PushChildren(stack, current.node, current.path, entries);
        PushSupported(stack, current.path, entries);
        stack := stack + Reversed(Children(current.path, entries));
        PushedDirectory(earlier, current, rest);
    }
    return Ok(visited);
  }

  lemma PushedDirectory(visited: seq<Visit>, current: Placed, rest: seq<Placed>)
    requires current.node.Directory?
    ensures var entries := current.node.entries;
      (visited + [Visit(current.path, IsDirectory)]) +
        (ListingOf(current.node, current.path, entries) + StackListing(rest))
      == visited + (Listing(current.path, current.node) + StackListing(rest))
  {
    var entries := current.node.entries;
    Regroup([Visit(current.path, IsDirectory)], ListingOf(current.node, current.path, entries), StackListing(rest));
    Regroup(
      visited, [Visit(current.path, IsDirectory)], ListingOf(current.node, current.path, entries) + StackListing(rest));
  }

  // ---------- every node once ----------

  // The node that a list of names leads to.
  function At(node: Node, names: seq<string>): Option<Node>
    decreases |names|
  {
    if names == [] then Some(node)
    else if !node.Directory? then None
    else
      var child := Find(node.entries, names[0]);
      if child.None? then None else At(child.value, names[1..])
  }

  function Find(entries: seq<Entry>, name: string): Option<Node> {
    if entries == [] then None
    else if entries[0].name == name then Some(entries[0].node)
    else Find(entries[1..], name)
  }

  function PathTo(path: string, names: seq<string>): string
    decreases |names|
  {
    if names == [] then path else PathTo(path + SEPARATOR + names[0], names[1..])
  }

  // Every file or directory reached by names is in the listing under its path.
  lemma {:induction false} ListingIsComplete(path: string, node: Node, names: seq<string>)
    requires Supported(node) && At(node, names).Some?
    ensures var kind := if At(node, names).value.File? then IsFile else IsDirectory;
      Visit(PathTo(path, names), kind) in Listing(path, node)
    decreases |names|
  {
    if names != [] {
      var name := names[0];
      var child := Find(node.entries, name).value;
      FindInEntries(node.entries, name);
      var k :| 0 <= k < |node.entries| && node.entries[k] == Entry(name, child);
      ListingIsComplete(path + SEPARATOR + name, child, names[1..]);
      ListingHasEntry(node, path, node.entries, k);
    } else {
      assert Supported(node);
    }
  }

  lemma {:induction false} FindInEntries(entries: seq<Entry>, name: string)
    requires Find(entries, name).Some?
    ensures exists k :: 0 <= k < |entries| && entries[k] == Entry(name, Find(entries, name).value)
  {
    if entries[0].name == name {
      assert entries[0] == Entry(name, entries[0].node);
    } else {
      FindInEntries(entries[1..], name);
      var k :| 0 <= k < |entries[1..]| && entries[1..][k] == Entry(name, Find(entries, name).value);
      assert entries[k + 1] == entries[1..][k];
    }
  }

  lemma {:induction false} ListingHasEntry(parent: Node, path: string, entries: seq<Entry>, k: nat)
    requires Within(parent, entries) && k < |entries|
    ensures forall v :: v in Listing(path + SEPARATOR + entries[k].name, entries[k].node) ==>
      v in ListingOf(parent, path, entries)
    decreases |entries|
  {
    if k > 0 {
      ListingHasEntry(parent, path, entries[1..], k - 1);
    }
  }

  // Names in a directory are distinct, at every depth.
  predicate DistinctNames(node: Node) {
    node.Directory? ==>
      && (forall i, j :: 0 <= i < j < |node.entries| ==> node.entries[i].name != node.entries[j].name)
      && (forall i :: 0 <= i < |node.entries| ==> DistinctNames(node.entries[i].node))
  }

  // These names lead to a node of this kind at this path.
  ghost predicate LeadsTo(node: Node, path: string, names: seq<string>, v: Visit) {
    && At(node, names).Some? && v.path == PathTo(path, names)
    && (if v.kind == IsFile then At(node, names).value.File? else At(node, names).value.Directory?)
  }

  lemma {:induction false} FindFirst(entries: seq<Entry>, k: nat)
    requires k < |entries| && forall i, j :: 0 <= i < j < |entries| ==> entries[i].name != entries[j].name
    ensures Find(entries, entries[k].name) == Some(entries[k].node)
  {
    if k > 0 {
      var tail := entries[1..];
      assert entries[0].name != entries[k].name && tail[k - 1] == entries[k];
      assert forall i, j :: 0 <= i < j < |tail| ==> tail[i] == entries[i + 1] && tail[j] == entries[j + 1];
      FindFirst(tail, k - 1);
    }
  }

  lemma {:induction false} EntryOfListing(parent: Node, path: string, entries: seq<Entry>, v: Visit) returns (k: nat)
    requires Within(parent, entries) && v in ListingOf(parent, path, entries)
    ensures k < |entries| && v in Listing(path + SEPARATOR + entries[k].name, entries[k].node)
    decreases |entries|
  {
    if v in Listing(path + SEPARATOR + entries[0].name, entries[0].node) {
      k := 0;
    } else {
      var j := EntryOfListing(parent, path, entries[1..], v);
      k := j + 1;
      assert entries[k] == entries[1..][j];
    }
  }

  // Nothing else is listed.
  lemma {:induction false} ListingIsSound(path: string, node: Node, v: Visit) returns (names: seq<string>)
    requires DistinctNames(node) && v in Listing(path, node)
    ensures LeadsTo(node, path, names, v)
    decreases node
  {
    names := [];
    if node.Directory? && v != Visit(path, IsDirectory) {
      var k := EntryOfListing(node, path, node.entries, v);
      var entry := node.entries[k];
      var rest := ListingIsSound(path + SEPARATOR + entry.name, entry.node, v);
      FindFirst(node.entries, k);
      names := [entry.name] + rest;
      assert names[1..] == rest;
    }
  }

  // And every node once: there are as many visits as files and directories.
  lemma {:induction false} ListingIsCounted(path: string, node: Node)
    requires Supported(node)
    ensures |Listing(path, node)| == Size(node)
    decreases node, 1
  {
    if node.Directory? {
      EntriesAreCounted(node, path, node.entries);
    }
  }

  lemma {:induction false} EntriesAreCounted(parent: Node, path: string, entries: seq<Entry>)
    requires Within(parent, entries) && forall i :: 0 <= i < |entries| ==> Supported(entries[i].node)
    ensures |ListingOf(parent, path, entries)| == SizeOf(parent, entries)
    decreases parent, 0, |entries|
  {
    if entries != [] {
      ListingIsCounted(path + SEPARATOR + entries[0].name, entries[0].node);
      EntriesAreCounted(parent, path, entries[1..]);
    }
  }
}
