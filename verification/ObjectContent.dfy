/**
 * The payload that `cat-file` writes: the inflated object is read as text,
 * split at every NUL, and the second piece is written, that is, the text
 * between the first NUL and the next NUL or the end. A text without a NUL
 * has no second piece, and writing `undefined` throws.
 */
module ObjectContent {
  import opened JsText
  import opened Objects

  function Payload(text: string): (r: Option<string>)
    ensures r.None? <==> NUL !in text
    ensures r.Some? ==> NUL !in r.value && |r.value| < |text|
  {
    var first := IndexOf(text, NUL, 0);
    if first == -1 then None
    else
      var next := IndexOf(text, NUL, first + 1);
      if next == -1 then Some(text[first + 1..]) else Some(text[first + 1..next])
  }

  /** A text `h NUL p rest`, where `h` and `p` hold no NUL and `rest` is empty
      or starts with a NUL, has payload exactly `p`. */
  lemma PayloadOf(h: string, p: string, rest: string)
    requires NUL !in h && NUL !in p
    requires rest == [] || rest[0] == NUL
    ensures Payload(h + [NUL] + p + rest) == Some(p)
  {
    var text := h + [NUL] + p + rest;
    assert text[|h|] == NUL;
    assert forall i :: 0 <= i < |h| ==> text[i] == h[i];
    assert IndexOf(text, NUL, 0) == |h|;
    assert forall i :: |h| < i < |h| + 1 + |p| ==> text[i] == p[i - |h| - 1];
    if rest == [] {
      assert text[|h| + 1..] == p;
    } else {
      assert text[|h| + 1 + |p|] == NUL;
      assert text[|h| + 1..|h| + 1 + |p|] == p;
    }
  }

  /** For an object text `blob N NUL P` with a NUL-free payload `P`, cat-file
      writes exactly `P`. */
  lemma BlobPayload(size: string, p: string)
    requires NUL !in size && NUL !in p
    ensures Payload("blob " + size + [NUL] + p) == Some(p)
  {
  }
}
