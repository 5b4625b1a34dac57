/**
 * The text `write-tree` stores: a pre-order walk of the working directory
 * that pushes one line per directory (`040000 <prefix><name>`) and one per
 * regular file (`100644 blob <sha> <prefix><name>`, with the SHA-1 of the
 * file's raw content), descends into each directory with the prefix extended
 * by `<name>/`, and finally joins the lines with "\n" and appends one more
 * "\n". The working directory is an in-memory tree whose entries come in the
 * order a directory listing returns them.
 */
module TreeText {
  import opened Objects

  /** A directory entry: a subdirectory, a regular file, or anything else
      (which the walk skips). */
  datatype Node =
    | Directory(name: string, children: seq<Node>)
    | File(name: string, content: Bytes)
    | Special(name: string)

  /** The line of a directory: its mode, then its path. */
  function DirLine(prefix: string, name: string): (r: string)
    ensures |r| == 7 + |prefix| + |name|
    ensures "040000 " + prefix <= r && r[7 + |prefix|..] == name
  {
    "040000 " + prefix + name
  }

  /** The line of a regular file: its mode, the word `blob`, the digest of its
      raw content, then its path. */
  function FileLine(sha: string, prefix: string, name: string): (r: string)
    ensures |r| == 13 + |sha| + |prefix| + |name|
    ensures "100644 blob " + sha + " " + prefix <= r && r[13 + |sha| + |prefix|..] == name
  {
    "100644 blob " + sha + " " + prefix + name
  }

  /** The lines the walk pushes for the entries `nodes` of a directory whose
      path prefix is `prefix`. */
  function Lines(nodes: seq<Node>, prefix: string, sha1: Bytes -> string): (r: seq<string>)
    ensures |nodes| == 1 ==> r == NodeLines(nodes[0], prefix, sha1)
    decreases nodes
  {
    if nodes == [] then []
    else Lines(nodes[..|nodes| - 1], prefix, sha1) + NodeLines(nodes[|nodes| - 1], prefix, sha1)
  }

  /** The lines the walk pushes for one entry: a directory's own line comes
      before the lines of its descendants, a file has one line, anything
      else has none. */
  function NodeLines(n: Node, prefix: string, sha1: Bytes -> string): (r: seq<string>)
    ensures r == [] <==> n.Special?
    ensures n.Directory? ==> r[0] == DirLine(prefix, n.name)
    ensures n.File? ==> |r| == 1
    decreases n
  {
    match n
    case Directory(name, children) =>
      [DirLine(prefix, name)] + Lines(children, prefix + name + "/", sha1)
    case File(name, content) => [FileLine(sha1(content), prefix, name)]
    case Special(_) => []
  }

  /** The array of lines that the walk shares between its recursive calls. */
  class EntryList {
    var lines: seq<string>

    constructor ()
      ensures lines == []
    {
      lines := [];
    }

    method Push(line: string)
      modifies this
      ensures lines == old(lines) + [line]
    {
      lines := lines + [line];
    }
  }

  /** `traverseDirectory(directory, entries, prefix)`. */
  method Traverse(entries: EntryList, nodes: seq<Node>, prefix: string, sha1: Bytes -> string)
    modifies entries
    ensures entries.lines == old(entries.lines) + Lines(nodes, prefix, sha1)
    decreases nodes
  {
    for i := 0 to |nodes|
      invariant entries.lines == old(entries.lines) + Lines(nodes[..i], prefix, sha1)
    {
      assert nodes[..i + 1][..i] == nodes[..i];
      match nodes[i]
      case Directory(name, children) =>
        entries.Push(DirLine(prefix, name));
        Traverse(entries, children, prefix + name + "/", sha1);
      case File(name, content) =>
        var sha := sha1(content);
        entries.Push(FileLine(sha, prefix, name));
      case Special(_) =>
    }
    assert nodes[..|nodes|] == nodes;
  }

  /** The lines of two consecutive runs of entries are the lines of the first
      followed by those of the second. */
  lemma {:induction false} LinesAppend(a: seq<Node>, b: seq<Node>, prefix: string, sha1: Bytes -> string)
    ensures Lines(a + b, prefix, sha1) == Lines(a, prefix, sha1) + Lines(b, prefix, sha1)
    decreases |b|
  {
    if b == [] {
      assert a + b == a;
    } else {
      var b' := b[..|b| - 1];
      assert (a + b)[..|a + b| - 1] == a + b';
      LinesAppend(a, b', prefix, sha1);
    }
  }

  /** A directory's line comes first in the block of its lines, immediately
      followed by the lines of everything below it, which carry the prefix
      extended by the directory's name and a slash. */
  lemma DirectoryBlock(nodes: seq<Node>, i: nat, prefix: string, sha1: Bytes -> string)
    requires i < |nodes| && nodes[i].Directory?
    ensures Lines(nodes, prefix, sha1) ==
      Lines(nodes[..i], prefix, sha1) +
      [DirLine(prefix, nodes[i].name)] +
      Lines(nodes[i].children, prefix + nodes[i].name + "/", sha1) +
      Lines(nodes[i + 1..], prefix, sha1)
  {
    var n := nodes[i];
    assert nodes == nodes[..i] + [n] + nodes[i + 1..];
    LinesAppend(nodes[..i] + [n], nodes[i + 1..], prefix, sha1);
    LinesAppend(nodes[..i], [n], prefix, sha1);
    assert Lines([n], prefix, sha1) == NodeLines(n, prefix, sha1);
    assert NodeLines(n, prefix, sha1) ==
      [DirLine(prefix, n.name)] + Lines(n.children, prefix + n.name + "/", sha1);
  }

  /** The walk pushes nothing exactly when every entry is neither a
      directory nor a regular file. */
  lemma {:induction false} NoLinesOnlySpecial(nodes: seq<Node>, prefix: string, sha1: Bytes -> string)
    ensures Lines(nodes, prefix, sha1) == [] <==> forall i :: 0 <= i < |nodes| ==> nodes[i].Special?
    decreases |nodes|
  {
    if nodes != [] {
      var init := nodes[..|nodes| - 1];
      NoLinesOnlySpecial(init, prefix, sha1);
      assert forall i :: 0 <= i < |init| ==> init[i] == nodes[i];
    }
  }

  /** The raw contents of every regular file in the entries, at any depth. */
  ghost function Blobs(nodes: seq<Node>): set<Bytes>
    decreases nodes
  {
    if nodes == [] then {}
    else Blobs(nodes[..|nodes| - 1]) + NodeBlobs(nodes[|nodes| - 1])
  }

  ghost function NodeBlobs(n: Node): set<Bytes>
    decreases n
  {
    match n
    case Directory(_, children) => Blobs(children)
    case File(_, content) => {content}
    case Special(_) => {}
  }

  /** A line is a directory line under `prefix`, or a file line under
      `prefix` that embeds the SHA-1 of the raw content of one of `blobs`. */
  ghost predicate LineUnder(l: string, prefix: string, blobs: set<Bytes>, sha1: Bytes -> string) {
    "040000 " + prefix <= l ||
    exists c :: c in blobs && "100644 blob " + sha1(c) + " " + prefix <= l
  }

  lemma LineUnderWeaken(l: string, p: string, q: string, small: set<Bytes>, big: set<Bytes>, sha1: Bytes -> string)
    requires LineUnder(l, p + q, small, sha1) && small <= big
    ensures LineUnder(l, p, big, sha1)
  {
  }

  /** Every line of the walk starts with its kind and carries the prefix of
      the directory it was pushed from; a file line embeds the SHA-1 of the
      raw content of a file in the tree. */
  lemma {:induction false} LinesUnder(nodes: seq<Node>, prefix: string, sha1: Bytes -> string)
    ensures forall l :: l in Lines(nodes, prefix, sha1) ==> LineUnder(l, prefix, Blobs(nodes), sha1)
    decreases nodes
  {
    if nodes != [] {
      var init, last := nodes[..|nodes| - 1], nodes[|nodes| - 1];
      LinesUnder(init, prefix, sha1);
      NodeLinesUnder(last, prefix, sha1);
      forall l | l in Lines(nodes, prefix, sha1)
        ensures LineUnder(l, prefix, Blobs(nodes), sha1)
      {
        if l in Lines(init, prefix, sha1) {
          assert prefix + [] == prefix;
          LineUnderWeaken(l, prefix, [], Blobs(init), Blobs(nodes), sha1);
        } else {
          assert prefix + [] == prefix;
          LineUnderWeaken(l, prefix, [], NodeBlobs(last), Blobs(nodes), sha1);
        }
      }
    }
  }

  lemma {:induction false} NodeLinesUnder(n: Node, prefix: string, sha1: Bytes -> string)
    ensures forall l :: l in NodeLines(n, prefix, sha1) ==> LineUnder(l, prefix, NodeBlobs(n), sha1)
    decreases n
  {
    match n
    case Directory(name, children) =>
      var sub := prefix + name + "/";
      LinesUnder(children, sub, sha1);
      forall l | l in NodeLines(n, prefix, sha1)
        ensures LineUnder(l, prefix, NodeBlobs(n), sha1)
      {
        if l == DirLine(prefix, name) {
          assert "040000 " + prefix <= l;
        } else {
          assert sub == prefix + (name + "/");
          LineUnderWeaken(l, prefix, name + "/", Blobs(children), NodeBlobs(n), sha1);
        }
      }
    case File(name, content) =>
      var l := FileLine(sha1(content), prefix, name);
      assert "100644 blob " + sha1(content) + " " + prefix <= l;
      assert content in NodeBlobs(n);
    case Special(_) =>
  }

  /** `Array.prototype.join("\n")`: the lines with "\n" between neighbours;
      no lines join to the empty string. */
  function Join(lines: seq<string>): (r: string)
    ensures lines == [] ==> r == []
    ensures lines != [] ==> lines[0] <= r
    ensures |lines| > 1 ==> lines[0] + "\n" <= r
  {
    if lines == [] then []
    else if |lines| == 1 then lines[0]
    else lines[0] + "\n" + Join(lines[1..])
  }

  /** The stored tree text: the joined lines and one final "\n". */
  function TreeText(lines: seq<string>): (r: string)
    ensures |r| > 0 && r[|r| - 1] == '\n'
    ensures lines != [] ==> lines[0] <= r
  {
    Join(lines) + "\n"
  }

  /** Each line followed by its own "\n". */
  function Terminated(lines: seq<string>): string {
    if lines == [] then [] else lines[0] + "\n" + Terminated(lines[1..])
  }

  /** The tree text is every line terminated by "\n", except that a walk
      with no lines still stores a single "\n". */
  lemma {:induction false} TreeTextTerminated(lines: seq<string>)
    ensures TreeText(lines) == if lines == [] then "\n" else Terminated(lines)
  {
    if |lines| == 1 {
      assert Terminated(lines[1..]) == [];
    } else if |lines| > 1 {
      TreeTextTerminated(lines[1..]);
      calc {
        TreeText(lines);
        lines[0] + "\n" + Join(lines[1..]) + "\n";
        lines[0] + "\n" + TreeText(lines[1..]);
        lines[0] + "\n" + Terminated(lines[1..]);
      }
    }
  }
}
