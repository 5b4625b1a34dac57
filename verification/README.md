# A toy loose-object store, modelled in Dafny

This project models the core of a small command-line program that imitates
Git's loose-object database. The program keeps a `.git` directory whose
`objects` subdirectory holds one zlib-compressed file per object. The file for
an object lives at `objects/<first two hex digits>/<remaining hex digits>` of a
SHA-1 digest. It offers five commands:

- `init` creates `.git`, `.git/objects` and `.git/refs`, and writes `HEAD`.
- `cat-file <hash>` inflates an object file and writes the text between its
  first NUL and the next NUL (or the end).
- `hash-object -w <file>` deflates the file's bytes and stores them under the
  SHA-1 of the *deflated* bytes. There is no type header. Nothing is written
  if that object file already exists, and the digest is printed only on a
  fresh write.
- `ls-tree --name-only <hash>` reads an object file as text and scans it for
  `mode SP name NUL` records. It prints the names sorted.
- `write-tree` walks the working directory in pre-order. It builds one line
  per directory (`040000 <path>`) and one per file
  (`100644 blob <sha1 of raw content> <path>`). It joins the lines with `"\n"`,
  adds a final `"\n"`, and stores the result the same way `hash-object`
  stores a file.

The filesystem is modelled as values. The object files are a map from
`ObjectPath(dir, file)` to bytes. The working directory is a tree of `Node`
values whose entries come in directory-listing order. SHA-1, deflate,
inflate and the utf-8 conversions are library calls with no visible logic.
They are the fields of a `Primitives` value and are passed in, so nothing is
assumed about them beyond being functions. In particular, no
deflate/inflate round trip is assumed. Output is returned, never written.
`hash-object`, `ls-tree`, `write-tree` and re-running `init` return their
output lines. `cat-file` returns the payload string. Fresh `init` (the
constructor) returns nothing. A thrown exception becomes an `Err` of
`Result`.

Modules, one per concern:

- `JsText`: `indexOf` and `slice` with JavaScript's handling of negative and
  out-of-range positions.
- `Objects`: bytes, digests, object paths, the store and the put-if-absent
  write.
- `ObjectContent`: the cat-file payload split.
- `TreeParse`: the `parseTree` cursor loop and its properties.
- `Listing`: the in-place sort of the `ls-tree` names and the string order it
  uses.
- `TreeText`: the `write-tree` walk, its lines and the joined tree text.
- `Git`: the `.git` directory as a class whose methods are the commands.

Where the program and real Git's loose-object format differ, the model
follows the program. Stored blobs carry no `blob N\0` header. The
digest is computed over the compressed bytes. The tree scanner does not skip
binary digest bytes after a name. `write-tree` stores a newline-separated
text, not binary tree entries. Objects are written directly, with no
temp-file-then-rename step. There is no commit object.

## Model

| member | source | states |
|---|---|---|
| JsText.IndexOf | src/index.js:84-85 | The result is -1 exactly when the character does not occur at or after the start position, where a negative start counts as 0. Otherwise it is the first such occurrence. |
| JsText.Slice | src/index.js:86-87 | For in-range indices it is the substring between them. A negative end counts from the end of the string, so `slice(s, a, -1)` is `s[a..|s|-1]`. Indices that are out of order give the empty string. |
| Objects.PathOf | src/index.js:51 | The object directory followed by the file name is the whole digest. The directory has at most 2 characters. For a 40-character hex digest the two parts have 2 and 38 characters. |
| Objects.PathOfInjective | src/index.js:101 | Two digests with the same object path are equal, so distinct digests never share an object file. |
| Objects.Put | src/index.js:52-56 | The store gains exactly the digest's path. Every existing object keeps its bytes. The new path holds the data only if it was absent. The digest is printed exactly when the path was absent. |
| Objects.PutPresent | src/index.js:102-106 | If the object path already exists, the store is unchanged and nothing is printed. |
| Objects.PutIdempotent | src/index.js:49-56 | A second store of the same digest leaves the store exactly as the first store left it, and prints nothing. |
| Objects.BlobKey | src/index.js:49-50 | The key is the SHA-1 of the deflated content with no header, so identical content always gives the same key. If SHA-1 yields 40 hex digits, the object path splits 2/38. |
| ObjectContent.Payload | src/index.js:39 | There is no payload exactly when the text has no NUL. Otherwise the payload is NUL-free and shorter than the text. |
| ObjectContent.PayloadOf | src/index.js:39 | For a text `h NUL p rest`, where `h` and `p` are NUL-free and `rest` is empty or starts with NUL, the payload is exactly `p`. |
| ObjectContent.BlobPayload | src/index.js:39 | For a text `"blob N\0P"` with a NUL-free `P`, cat-file writes exactly `P`. |
| TreeParse.SpaceIndex | src/index.js:84 | The space search from the cursor returns -1 or the index of a space at or after the cursor. |
| TreeParse.NullIndex | src/index.js:85 | The NUL search, started at the space's index, returns -1 or the index of a NUL strictly after that index. |
| TreeParse.EntryName | src/index.js:87 | Whenever a NUL is found, the name is exactly the text strictly between the found space (or the start of the text, when no space was found) and that NUL. |
| TreeParse.NextPos | src/index.js:89 | The new cursor is never negative. When it is positive it lies within the text, just past a NUL. |
| TreeParse.ParseFrom | src/index.js:83-90 | The only error is `NoProgress`. A successful scan returns no names exactly when the cursor is at or past the end of the text, and otherwise at most one name per remaining character. |
| TreeParse.ParseTree | src/index.js:80-92 | The cursor loop returns exactly `ParseFrom(t, 0)`: the names in scan order, or the position where the cursor stops advancing. |
| TreeParse.StepOverRecord | src/index.js:84-89 | On a record `mode SP name NUL` with no space in the mode and no NUL in the name, one iteration reads exactly that name. It leaves the cursor just past the record's NUL. |
| TreeParse.ParseWellFormedAfter | src/index.js:80-92 | Scanning well-formed records that follow any text yields their names in input order, one per record. |
| TreeParse.ParseTreeWellFormed | src/index.js:80-92 | parseTree on a concatenation of well-formed records returns their names in order. |
| TreeParse.EntryNameNulFree | src/index.js:84-87 | The name read by an iteration that advances the cursor holds no NUL. |
| TreeParse.ParsedNamesNulFree | src/index.js:85-88 | No returned name contains a NUL. |
| TreeParse.OneNamePerStep | src/index.js:83-89 | A scan that succeeds from inside the text advances the cursor and returns exactly one more name than the scan from the new cursor. |
| TreeParse.ParsedCount | src/index.js:83-89 | The scan returns no more names than there are NULs in the scanned text. |
| TreeParse.StepAdvances | src/index.js:84-89 | If a space lies at or after the cursor with a NUL after it, the cursor strictly increases to one past a NUL. |
| TreeParse.NoNulNoProgress | src/index.js:83-89 | If no NUL lies at or after the cursor, the iteration cannot advance and the scan reports `NoProgress`. |
| TreeParse.ParseWithoutSpace | src/index.js:84-87 | With no space at all, the space search returns -1 and the NUL search restarts at 0. A text whose only NUL is its last character therefore still yields one name. |
| TreeParse.StuckTarget | src/index.js:84-89 | A step that does not advance sends the cursor to 0, to the first step's target, or to a position whose next step goes to the first step's target. |
| TreeParse.StuckIsStuck | src/index.js:83-90 | When the scan reports `NoProgress(p)`, `p` lies at or after the starting cursor and inside the text, and the iteration at `p` does not move the cursor forward. |
| TreeParse.StuckScanNeverEnds | src/index.js:83-90 | Whenever the model reports `NoProgress(p)`, the JavaScript loop returns to `p` after a positive number of iterations with the loop condition true throughout, so it never ends. |
| Listing.Below | src/index.js:74 | A prefix sorts no later than any string that extends it. If a non-empty string sorts no later than another, the other is non-empty and its first character is not smaller. |
| Listing.BelowTotal | src/index.js:74 | Any two strings are comparable in the default sort order. |
| Listing.BelowTransitive | src/index.js:74 | The default sort order is transitive. |
| Listing.BelowAntisymmetric | src/index.js:74 | Two strings that sort no later than each other are equal. |
| Listing.SortInPlace | src/index.js:74 | After the in-place sort the array is in ascending order and is a permutation of its old contents. |
| Listing.SortedNames | src/index.js:73-77 | The printed names are in ascending order and are a permutation of the names the scanner returned. |
| Listing.SortedUnique | src/index.js:74-77 | Two ascending orderings of the same names are identical, so the listing does not depend on how the sort works. |
| TreeText.DirLine | src/index.js:115 | A directory's line is `040000 `, then the prefix, then the directory's name, and nothing else. |
| TreeText.FileLine | src/index.js:121 | A file's line is `100644 blob `, the digest, a space, the prefix, then the file's name, and nothing else. |
| TreeText.EntryList.constructor | src/index.js:95 | The shared entry list starts empty. |
| TreeText.EntryList.Push | src/index.js:115 | Pushing appends exactly one line at the end and keeps every earlier line. |
| TreeText.NodeLines | src/index.js:114-122 | An entry pushes nothing exactly when it is neither a directory nor a regular file. A directory's own line comes first, before its descendants' lines. A regular file pushes exactly one line. |
| TreeText.Lines | src/index.js:110-123 | For a directory with one entry, the lines are exactly that entry's lines. |
| TreeText.NoLinesOnlySpecial | src/index.js:111-123 | The walk of a directory pushes no line exactly when none of its entries is a directory or a regular file. |
| TreeText.Traverse | src/index.js:109-124 | The walk appends exactly the pre-order lines of the given entries to the shared entry list. |
| TreeText.LinesAppend | src/index.js:111 | The lines of two consecutive runs of entries are the first run's lines followed by the second run's lines. |
| TreeText.DirectoryBlock | src/index.js:114-116 | The walk's lines are, in order: the lines of the entries before the directory, the directory's own line, every line of its descendants (built with the prefix extended by `<dir>/`), and then the lines of the entries after it. |
| TreeText.LinesUnder | src/index.js:109-124 | Every line begins `040000 <prefix>`, or begins `100644 blob <sha1 of the raw content of a file in the tree> <prefix>`. |
| TreeText.NodeLinesUnder | src/index.js:114-121 | The same shape for the lines of one entry, at any depth. |
| TreeText.Join | src/index.js:98 | Joining no lines gives the empty string. Otherwise the text starts with the first line, and when there are two or more lines, that first line is followed by `"\n"`. |
| TreeText.TreeText | src/index.js:98 | The stored tree text is never empty and ends with `"\n"`. When there are lines it starts with the first one. |
| TreeText.TreeTextTerminated | src/index.js:98 | The tree text is every line followed by `"\n"`, except that an empty walk stores the single text `"\n"`. |
| Git.GitDirectory.constructor | src/index.js:27-33 | In a fresh working directory the objects and refs directories are empty and HEAD is `"ref: refs/heads/master\n"`. |
| Git.GitDirectory.CreateGitDirectory | src/index.js:27-33 | Re-running init keeps every object and ref, rewrites HEAD and prints the init message. |
| Git.GitDirectory.CatFile | src/index.js:35-41 | A missing object file gives `ObjectNotFound`, and only a missing file does. An object that fails to inflate gives `CorruptObject`. Otherwise the result is `Ok` exactly when the inflated text has a NUL, and that payload is NUL-free and is `Payload` of the text. A NUL-free text gives `NoPayload`. |
| Git.GitDirectory.HashObject | src/index.js:43-57 | Any option other than `-w` fails and leaves the store untouched. Otherwise the store and output are those of put-if-absent of the deflated content under its SHA-1. |
| Git.GitDirectory.ListTree | src/index.js:66-78 | Any option other than `--name-only` fails. A missing object file fails. Otherwise the output is a sorted permutation of what parseTree returns, or parseTree's error. |
| Git.GitDirectory.WriteTree | src/index.js:94-107 | The store and output are those of put-if-absent of the deflated tree text of the walk, under the SHA-1 of the deflated bytes. |

## Left out

- Filesystem and process glue are not modelled: `fs`, `path.join`,
  `__dirname`, `process.cwd` and argv dispatch. Console and stdout writes are
  modelled only as returned values. File contents that a command reads from outside `.git` are
  parameters. Missing command-line arguments are not modelled.
- Path normalisation by `path.join` is not modelled. Object paths are the
  raw `(hash.slice(0, 2), hash.slice(2))` pair.
- SHA-1, zlib deflate/inflate and utf-8 encoding/decoding are parameters with
  no assumed properties. Reading the raw, still-compressed object file as
  utf-8 in `ls-tree` is `decode` applied to the stored bytes.
- The unconditional raw write of each file's content at src/index.js:120 is
  not modelled. That write happens without creating the prefix directory.
  The model's store holds only the put-if-absent writes.
- Git.GitDirectory.WriteTree: describes only runs in which every raw file
  write at src/index.js:120 succeeds. When `.git/objects/<xx>` for a file's
  digest does not exist, `writeFileSync` throws ENOENT. `write-tree` then
  aborts before the tree object is stored or its digest printed, which is
  the likely outcome in a fresh repository. Directory existence is not part
  of the model.
- The unused `mode` slice at src/index.js:86 has no effect and is not modelled.
- The `.git` directory's own creation and failures of `mkdirSync` or
  `writeFileSync` are not modelled.
- Listing.Below: compares Dafny characters (Unicode scalar values).
  JavaScript's default sort compares UTF-16 code units, and the two orders
  differ for characters outside the Basic Multilingual Plane.
- TreeParse.ParseTree: where the JavaScript loop never terminates, the model
  returns `Err(NoProgress(pos))` at the first position where the cursor does
  not advance. `StuckScanNeverEnds` proves that the real loop cycles there.
  The entries the endless loop would keep pushing are not modelled.
