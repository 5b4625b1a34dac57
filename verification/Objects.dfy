/**
 * The loose-object store: objects are files under `.git/objects`, addressed
 * by splitting a hexadecimal SHA-1 digest into a two-character directory and
 * the remaining characters as the file name. The filesystem is a map from
 * such paths to file contents; SHA-1, zlib and utf-8 conversion are opaque
 * functions handed in as a `Primitives` value.
 */
module Objects {
  import opened JsText

  newtype byte = x: int | 0 <= x < 256

  type Bytes = seq<byte>

  /** The library calls the store relies on and whose internals it never
      sees: `crypto` SHA-1 as a hex string, zlib `deflateSync` and
      `inflateSync` (which may throw on corrupt input), and the utf-8
      conversions between strings and buffers. */
  datatype Primitives = Primitives(
    sha1: Bytes -> string,
    deflate: Bytes -> Bytes,
    inflate: Bytes -> Option<Bytes>,
    encode: string -> Bytes,
    decode: Bytes -> string)

  datatype Option<T> = None | Some(value: T)

  /** The ways a command fails instead of finishing normally. */
  datatype Error =
    | UnknownOption(option: string)   // the command's option flag is not the expected one
    | ObjectNotFound(path: ObjectPath) // reading an object file that does not exist
    | CorruptObject(path: ObjectPath)  // inflating an object file fails
    | NoPayload                        // cat-file on a text without a NUL: nothing to write
    | NoProgress(pos: int)             // the tree scanner's cursor stops advancing and the loop never ends

  datatype Result<T> = Ok(value: T) | Err(error: Error)

  predicate IsHexDigit(c: char) {
    '0' <= c <= '9' || 'a' <= c <= 'f'
  }

  /** A SHA-1 digest as `digest("hex")` prints it: 40 lower-case hex digits. */
  predicate IsHexDigest(h: string) {
    |h| == 40 && forall i :: 0 <= i < |h| ==> IsHexDigit(h[i])
  }

  /** The SHA-1 primitive behaves as `crypto` documents it. */
  ghost predicate WellBehaved(prims: Primitives) {
    forall b :: IsHexDigest(prims.sha1(b))
  }

  /** An object file: `.git/objects/<dir>/<file>`. */
  datatype ObjectPath = ObjectPath(dir: string, file: string)

  type Store = map<ObjectPath, Bytes>

  /** `hash.slice(0, 2)` and `hash.slice(2)`. */
  function PathOf(hash: string): (p: ObjectPath)
    ensures p.dir + p.file == hash
    ensures |p.dir| == if |hash| < 2 then |hash| else 2
    ensures IsHexDigest(hash) ==> |p.dir| == 2 && |p.file| == 38
  {
    ObjectPath(Slice(hash, 0, 2), Slice(hash, 2, |hash|))
  }

  /** Distinct digests never share an object file. */
  lemma PathOfInjective(a: string, b: string)
    requires PathOf(a) == PathOf(b)
    ensures a == b
  {
  }

  /** The write step shared by hash-object and write-tree: the object file for
      `sha` is written with `data` only when it does not exist yet, and the
      digest is printed only on that fresh write. Returns the new store and
      the printed lines. */
  function Put(objects: Store, sha: string, data: Bytes): (r: (Store, seq<string>))
    ensures r.0.Keys == objects.Keys + {PathOf(sha)}
    ensures forall p :: p in objects ==> r.0[p] == objects[p]
    ensures PathOf(sha) !in objects ==> r.0[PathOf(sha)] == data
    ensures r.1 == if PathOf(sha) in objects then [] else [sha]
  {
    var path := PathOf(sha);
    if path in objects then (objects, [])
    else (objects[path := data], [sha])
  }

  /** Storing under a digest that is already present changes nothing and
      prints nothing. */
  lemma PutPresent(objects: Store, sha: string, data: Bytes)
    requires PathOf(sha) in objects
    ensures Put(objects, sha, data) == (objects, [])
  {
  }

  /** A second store of the same digest, whatever bytes it carries, leaves the
      store as the first left it and prints nothing. */
  lemma PutIdempotent(objects: Store, sha: string, data: Bytes, again: Bytes)
    ensures Put(Put(objects, sha, data).0, sha, again) == (Put(objects, sha, data).0, [])
  {
  }

  /** hash-object's key: SHA-1 of the deflated file content, with no header. */
  function BlobKey(prims: Primitives, content: Bytes): (sha: string)
    ensures WellBehaved(prims) ==> |PathOf(sha).dir| == 2 && |PathOf(sha).file| == 38
  {
    prims.sha1(prims.deflate(content))
  }
}
