/**
 * The repository directory `.git` and the five commands that act on it:
 * `init`, `cat-file`, `hash-object -w`, `ls-tree --name-only` and
 * `write-tree`. The object files under `.git/objects` are the `objects` map.
 * Output is returned, never written: `hash-object`, `ls-tree`, `write-tree`
 * and re-running `init` return their output lines, `cat-file` returns the
 * payload string, and a fresh `init` (the constructor) returns nothing.
 */
module Git {
  import opened JsText
  import opened Objects
  import ObjectContent
  import TreeParse
  import Listing
  import TreeText

  const HeadText: string := "ref: refs/heads/master\n"
  const InitMessage: string := "Initialized git directory"

  class GitDirectory {
    var objects: Store
    var refs: set<string>
    var head: string

    /** `init` in a fresh working directory: empty `objects` and `refs`
        directories and a HEAD naming the master branch. */
    constructor ()
      ensures objects == map[] && refs == {} && head == HeadText
    {
      objects := map[];
      refs := {};
      head := HeadText;
    }

    /** `init` where `.git` already exists: creating the directories
        recursively keeps what they hold, and HEAD is written again. */
    method CreateGitDirectory() returns (out: seq<string>)
      modifies this
      ensures objects == old(objects) && refs == old(refs)
      ensures head == HeadText
      ensures out == [InitMessage]
    {
      head := HeadText;
      out := [InitMessage];
    }

    /** `cat-file <hash>`: the payload of the inflated object file. */
    function CatFile(hash: string, prims: Primitives): (r: Result<string>)
      reads this
      ensures r == Err(ObjectNotFound(PathOf(hash))) <==> PathOf(hash) !in objects
      ensures r.Ok? ==> NUL !in r.value
      ensures PathOf(hash) in objects && prims.inflate(objects[PathOf(hash)]).None? ==>
        r == Err(CorruptObject(PathOf(hash)))
      ensures PathOf(hash) in objects && prims.inflate(objects[PathOf(hash)]).Some? ==>
        (r.Ok? <==> NUL in prims.decode(prims.inflate(objects[PathOf(hash)]).value)) &&
        (r.Err? ==> r == Err(NoPayload))
      ensures r.Ok? ==> exists raw :: prims.inflate(objects[PathOf(hash)]) == Some(raw)
                                      && ObjectContent.Payload(prims.decode(raw)) == Some(r.value)
    {
      var path := PathOf(hash);
      if path !in objects then Err(ObjectNotFound(path))
      else
        match prims.inflate(objects[path])
        case None => Err(CorruptObject(path))
        case Some(raw) =>
          match ObjectContent.Payload(prims.decode(raw))
          case None => Err(NoPayload)
          case Some(p) => Ok(p)
    }

    /** `hash-object -w <file>` for a file whose content is `content`: the
        deflated content is stored under its own SHA-1 unless an object with
        that digest exists, and the digest is printed only on a fresh write.
        Any other option fails and touches nothing. */
    method HashObject(option: string, content: Bytes, prims: Primitives) returns (r: Result<seq<string>>)
      modifies this
      ensures refs == old(refs) && head == old(head)
      ensures option != "-w" ==> r == Err(UnknownOption(option)) && objects == old(objects)
      ensures option == "-w" ==>
        var sha := BlobKey(prims, content);
        var put := Put(old(objects), sha, prims.deflate(content));
        objects == put.0 && r == Ok(put.1)
    {
      if option != "-w" {
        return Err(UnknownOption(option));
      }
      var compressed := prims.deflate(content);
      var sha := prims.sha1(compressed);
      var path := PathOf(sha);
      var out: seq<string> := [];
      if path !in objects {
        objects := objects[path := compressed];
        out := [sha];
      }
      return Ok(out);
    }

    /** `ls-tree --name-only <sha>`: the object file is read as text without
        inflating it, scanned for names, and the names are printed in
        ascending order. Any other option fails. */
    method ListTree(option: string, treeSha: string, prims: Primitives) returns (r: Result<seq<string>>)
      ensures option != "--name-only" ==> r == Err(UnknownOption(option))
      ensures option == "--name-only" && PathOf(treeSha) !in objects ==>
        r == Err(ObjectNotFound(PathOf(treeSha)))
      ensures option == "--name-only" && PathOf(treeSha) in objects ==>
        match TreeParse.ParseFrom(prims.decode(objects[PathOf(treeSha)]), 0)
        case Err(e) => r == Err(e)
        case Ok(names) => r.Ok? && Listing.Sorted(r.value) && multiset(r.value) == multiset(names)
    {
      if option != "--name-only" {
        return Err(UnknownOption(option));
      }
      var path := PathOf(treeSha);
      if path !in objects {
        return Err(ObjectNotFound(path));
      }
      var parsed := TreeParse.ParseTree(prims.decode(objects[path]));
      match parsed
      case Err(e) =>
        return Err(e);
      case Ok(entries) =>
        var sorted := Listing.SortedNames(entries);
        return Ok(sorted);
    }

    /** `write-tree` over the working directory `root`: the tree text of the
        walk is deflated and stored under the SHA-1 of the deflated bytes
        unless an object with that digest exists; the digest is printed only
        on a fresh write. */
    method WriteTree(root: seq<TreeText.Node>, prims: Primitives) returns (out: seq<string>)
      modifies this
      ensures refs == old(refs) && head == old(head)
      ensures
        var text := TreeText.TreeText(TreeText.Lines(root, "", prims.sha1));
        var compressed := prims.deflate(prims.encode(text));
        var put := Put(old(objects), prims.sha1(compressed), compressed);
        objects == put.0 && out == put.1
    {
      var entries := new TreeText.EntryList();
      TreeText.Traverse(entries, root, "", prims.sha1);
      assert entries.lines == TreeText.Lines(root, "", prims.sha1);
      var text := TreeText.Join(entries.lines) + "\n";
      var compressed := prims.deflate(prims.encode(text));
      var sha := prims.sha1(compressed);
      var path := PathOf(sha);
      out := [];
      if path !in objects {
        objects := objects[path := compressed];
        out := [sha];
      }
    }
  }
}
