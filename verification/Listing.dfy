/**
 * The output step of `ls-tree --name-only`: the names the scanner returned
 * are sorted in place with JavaScript's default `Array.prototype.sort`, which
 * orders strings by comparing them character by character, and printed one
 * per line.
 */
module Listing {

  /** `a` sorts no later than `b`: `a` is a prefix of `b`, or at the first
      position where they differ `a` holds the smaller character. */
  predicate Below(a: string, b: string): (r: bool)
    ensures a <= b ==> r
    ensures r && a != [] ==> b != [] && a[0] <= b[0]
  {
    if a == [] then true
    else if b == [] then false
    else if a[0] != b[0] then a[0] < b[0]
    else Below(a[1..], b[1..])
  }

  lemma {:induction false} BelowTotal(a: string, b: string)
    ensures Below(a, b) || Below(b, a)
  {
    if a != [] && b != [] && a[0] == b[0] {
      BelowTotal(a[1..], b[1..]);
    }
  }

  lemma {:induction false} BelowTransitive(a: string, b: string, c: string)
    requires Below(a, b) && Below(b, c)
    ensures Below(a, c)
  {
    if a != [] && b != [] && c != [] && a[0] == b[0] == c[0] {
      BelowTransitive(a[1..], b[1..], c[1..]);
    }
  }

  lemma {:induction false} BelowAntisymmetric(a: string, b: string)
    requires Below(a, b) && Below(b, a)
    ensures a == b
  {
    if a != [] && b != [] {
      BelowAntisymmetric(a[1..], b[1..]);
      assert a == [a[0]] + a[1..] && b == [b[0]] + b[1..];
    }
  }

  predicate Sorted(s: seq<string>) {
    forall k, l :: 0 <= k < l < |s| ==> Below(s[k], s[l])
  }

  /** The sort, done in place: each element is moved left past the larger
      ones before it. */
  method SortInPlace(a: array<string>)
    modifies a
    ensures Sorted(a[..])
    ensures multiset(a[..]) == multiset(old(a[..]))
  {
    var i := 0;
    while i < a.Length
      invariant 0 <= i <= a.Length
      invariant forall k, l :: 0 <= k < l < i ==> Below(a[k], a[l])
      invariant multiset(a[..]) == multiset(old(a[..]))
    {
      var j := i;
      while j > 0 && !Below(a[j - 1], a[j])
        invariant 0 <= j <= i
        invariant forall k, l :: 0 <= k < l <= i && l != j ==> Below(a[k], a[l])
        invariant multiset(a[..]) == multiset(old(a[..]))
      {
        BelowTotal(a[j - 1], a[j]);
        a[j - 1], a[j] := a[j], a[j - 1];
        j := j - 1;
      }
      forall k | 0 <= k < j - 1 {
        BelowTransitive(a[k], a[j - 1], a[j]);
      }
      i := i + 1;
    }
  }

  /** `entries.sort()` followed by printing each entry: the printed names
      are the scanned names in ascending order. */
  method SortedNames(entries: seq<string>) returns (out: seq<string>)
    ensures Sorted(out)
    ensures multiset(out) == multiset(entries)
  {
    var a := new string[|entries|](i requires 0 <= i < |entries| => entries[i]);
    assert a[..] == entries;
    SortInPlace(a);
    out := a[..];
  }

  /** The first element of an ascending sequence sorts no later than any
      of its elements. */
  lemma SortedFirstIsLeast(s: seq<string>, x: string)
    requires Sorted(s) && x in s
    ensures Below(s[0], x)
  {
    var i :| 0 <= i < |s| && s[i] == x;
    if i == 0 {
      BelowTotal(x, x);
    }
  }

  lemma SortedTail(s: seq<string>)
    requires Sorted(s) && s != []
    ensures Sorted(s[1..])
  {
  }

  lemma SameTailNames(s: seq<string>, t: seq<string>)
    requires s != [] && t != [] && s[0] == t[0] && multiset(s) == multiset(t)
    ensures multiset(s[1..]) == multiset(t[1..])
  {
    assert s == [s[0]] + s[1..] && t == [t[0]] + t[1..];
    assert multiset(s[1..]) == multiset(s) - multiset{s[0]};
    assert multiset(t[1..]) == multiset(t) - multiset{t[0]};
  }

  /** Two ascending orderings of the same names are the same sequence, so
      the printed listing does not depend on how the sort works. */
  lemma {:induction false} SortedUnique(s: seq<string>, t: seq<string>)
    requires Sorted(s) && Sorted(t)
    requires multiset(s) == multiset(t)
    ensures s == t
  {
    if s == [] || t == [] {
      assert |s| == |multiset(s)| == |multiset(t)| == |t|;
    } else {
      assert s == [s[0]] + s[1..] && t == [t[0]] + t[1..];
      assert s[0] in multiset(t) && t[0] in multiset(s);
      SortedFirstIsLeast(t, s[0]);
      SortedFirstIsLeast(s, t[0]);
      BelowAntisymmetric(s[0], t[0]);
      SameTailNames(s, t);
      SortedTail(s);
      SortedTail(t);
      SortedUnique(s[1..], t[1..]);
    }
  }
}
