/**
 * `parseTree`: the cursor loop behind `ls-tree --name-only`. From the cursor
 * it finds the next space, then the next NUL at or after that space, takes
 * the text between them as an entry name and moves the cursor to just past
 * the NUL. Nothing else of the entry is read; in particular no digest bytes
 * are skipped.
 *
 * When `indexOf` finds no space or no NUL it yields -1, and the JavaScript
 * loop keeps running with a cursor that does not move forward. The cursor's
 * next value depends on its current value alone, so from then on the loop
 * revisits positions forever. The model reports that situation as
 * `Err(NoProgress(pos))` at the first step whose new cursor is not beyond
 * the old one.
 */
module TreeParse {
  import opened JsText
  import opened Objects

  /** The space found from the cursor (`indexOf(" ", pos)`). */
  function SpaceIndex(t: string, pos: int): (r: int)
    ensures r == -1 || (0 <= r < |t| && pos <= r && t[r] == ' ')
  {
    IndexOf(t, ' ', pos)
  }

  /** The NUL found from that space (`indexOf("\0", spaceIndex)`). */
  function NullIndex(t: string, pos: int): (r: int)
    ensures r == -1 || (SpaceIndex(t, pos) < r < |t| && t[r] == NUL)
  {
    IndexOf(t, NUL, SpaceIndex(t, pos))
  }

  /** The name pushed by one iteration. */
  function EntryName(t: string, pos: int): (r: string)
    ensures NullIndex(t, pos) >= 0 ==> r == t[SpaceIndex(t, pos) + 1..NullIndex(t, pos)]
  {
    Slice(t, SpaceIndex(t, pos) + 1, NullIndex(t, pos))
  }

  /** The cursor after one iteration. */
  function NextPos(t: string, pos: int): (r: int)
    ensures r >= 0
    ensures r > 0 ==> r <= |t| && t[r - 1] == NUL
  {
    NullIndex(t, pos) + 1
  }

  /** The names the loop collects from cursor `pos` on, or the position at
      which it stops making progress. */
  function ParseFrom(t: string, pos: nat): (r: Result<seq<string>>)
    ensures r.Err? ==> r.error.NoProgress?
    ensures r.Ok? ==> (r.value == [] <==> pos >= |t|) && (pos < |t| ==> |r.value| <= |t| - pos)
    decreases |t| - pos
  {
    if pos >= |t| then Ok([])
    else if NextPos(t, pos) <= pos then Err(NoProgress(pos))
    else
      match ParseFrom(t, NextPos(t, pos))
      case Ok(rest) => Ok([EntryName(t, pos)] + rest)
      case Err(e) => Err(e)
  }

  /** `names` followed by the outcome of the rest of the scan. */
  function Extend(names: seq<string>, rest: Result<seq<string>>): Result<seq<string>> {
    match rest
    case Ok(more) => Ok(names + more)
    case Err(e) => Err(e)
  }

  /** The loop of `parseTree`, pushing each name into `entries`. */
  method ParseTree(t: string) returns (r: Result<seq<string>>)
    ensures r == ParseFrom(t, 0)
  {
    var entries: seq<string> := [];
    var pos: nat := 0;
    ExtendNothing(ParseFrom(t, 0));
    while pos < |t|
      invariant ParseFrom(t, 0) == Extend(entries, ParseFrom(t, pos))
      decreases |t| - pos
    {
      var spaceIndex := SpaceIndex(t, pos);
      var nullIndex := NullIndex(t, pos);
      var next := nullIndex + 1;
      var name := EntryName(t, pos);
      if next <= pos {
        StuckStep(t, pos, entries);
        return Err(NoProgress(pos));
      }
      AdvanceStep(t, pos, entries);
      entries := entries + [name];
      pos := next;
    }
    ScanDone(t, pos, entries);
    return Ok(entries);
  }

  lemma ExtendNothing(rest: Result<seq<string>>)
    ensures Extend([], rest) == rest
  {
    if rest.Ok? {
      assert [] + rest.value == rest.value;
    }
  }

  /** An iteration that advances contributes its name ahead of the rest of
      the scan. */
  lemma AdvanceStep(t: string, pos: nat, names: seq<string>)
    requires pos < |t| && NextPos(t, pos) > pos
    ensures Extend(names, ParseFrom(t, pos)) ==
      Extend(names + [EntryName(t, pos)], ParseFrom(t, NextPos(t, pos)))
  {
    StepUnfold(t, pos);
    ExtendTwice(names, EntryName(t, pos), ParseFrom(t, NextPos(t, pos)));
  }

  lemma StepUnfold(t: string, pos: nat)
    requires pos < |t| && NextPos(t, pos) > pos
    ensures ParseFrom(t, pos) == Extend([EntryName(t, pos)], ParseFrom(t, NextPos(t, pos)))
  {
  }

  lemma ExtendTwice(names: seq<string>, name: string, rest: Result<seq<string>>)
    ensures Extend(names + [name], rest) == Extend(names, Extend([name], rest))
  {
    match rest
    case Ok(more) =>
      assert (names + [name]) + more == names + ([name] + more);
    case Err(_) =>
  }

  /** An iteration that does not advance ends the scan with `NoProgress`. */
  lemma StuckStep(t: string, pos: nat, names: seq<string>)
    requires pos < |t| && NextPos(t, pos) <= pos
    ensures Extend(names, ParseFrom(t, pos)) == Err(NoProgress(pos))
  {
  }

  lemma ScanDone(t: string, pos: nat, names: seq<string>)
    requires pos >= |t|
    ensures Extend(names, ParseFrom(t, pos)) == Ok(names)
  {
    assert names + [] == names;
  }

  /** One tree entry as the scanner expects it: `mode SP name NUL`. */
  datatype Record = Record(mode: string, name: string)

  function EncodeRecord(r: Record): string {
    r.mode + " " + r.name + [NUL]
  }

  function Encode(rs: seq<Record>): string {
    if rs == [] then [] else EncodeRecord(rs[0]) + Encode(rs[1..])
  }

  /** The mode holds no space and the name no NUL; the name may hold spaces. */
  predicate WellFormed(rs: seq<Record>) {
    forall i :: 0 <= i < |rs| ==> ' ' !in rs[i].mode && NUL !in rs[i].name
  }

  function Names(rs: seq<Record>): (names: seq<string>)
    ensures |names| == |rs|
    ensures forall i :: 0 <= i < |rs| ==> names[i] == rs[i].name
  {
    if rs == [] then [] else [rs[0].name] + Names(rs[1..])
  }

  /** One iteration over a well-formed record that starts at the cursor
      reads exactly that record's name and leaves the cursor just past it. */
  lemma StepOverRecord(p: string, r: Record, q: string)
    requires ' ' !in r.mode && NUL !in r.name
    ensures var t := p + EncodeRecord(r) + q;
      EntryName(t, |p|) == r.name && NextPos(t, |p|) == |p| + |EncodeRecord(r)|
  {
    var t := p + EncodeRecord(r) + q;
    var sp := |p| + |r.mode|;
    var nu := sp + 1 + |r.name|;
    assert t[sp] == ' ';
    assert forall i :: |p| <= i < sp ==> t[i] == r.mode[i - |p|];
    assert SpaceIndex(t, |p|) == sp;
    assert t[nu] == NUL;
    assert forall i :: sp < i < nu ==> t[i] == r.name[i - sp - 1];
    assert NullIndex(t, |p|) == nu;
    assert t[sp + 1..nu] == r.name by {
      forall k | 0 <= k < |r.name|
        ensures t[sp + 1..nu][k] == r.name[k]
      {
        assert t[sp + 1 + k] == r.name[k];
      }
    }
  }

  /** Scanning well-formed records that follow any text `p`, starting right
      after `p`, yields their names in order, one per record. */
  lemma {:induction false} ParseWellFormedAfter(p: string, rs: seq<Record>)
    requires WellFormed(rs)
    ensures ParseFrom(p + Encode(rs), |p|) == Ok(Names(rs))
    decreases |rs|
  {
    if rs == [] {
      assert p + Encode(rs) == p;
    } else {
      var rec := EncodeRecord(rs[0]);
      var t := p + Encode(rs);
      assert t == p + rec + Encode(rs[1..]);
      StepOverRecord(p, rs[0], Encode(rs[1..]));
      assert WellFormed(rs[1..]) by {
        forall i | 0 <= i < |rs[1..]|
          ensures ' ' !in rs[1..][i].mode && NUL !in rs[1..][i].name
        {
          assert rs[1..][i] == rs[i + 1];
        }
      }
      ParseWellFormedAfter(p + rec, rs[1..]);
      assert (p + rec) + Encode(rs[1..]) == t;
      assert |p + rec| == |p| + |rec|;
      assert ParseFrom(t, |p + rec|) == Ok(Names(rs[1..]));
      assert NextPos(t, |p|) == |p + rec|;
      assert |p| < |t|;
      assert ParseFrom(t, |p|) == Ok([rs[0].name] + Names(rs[1..]));
      assert Names(rs) == [rs[0].name] + Names(rs[1..]);
    }
  }

  /** parseTree on a concatenation of well-formed records returns the list
      of their names in input order. */
  lemma ParseTreeWellFormed(rs: seq<Record>)
    requires WellFormed(rs)
    ensures ParseFrom(Encode(rs), 0) == Ok(Names(rs))
  {
    ParseWellFormedAfter([], rs);
    assert [] + Encode(rs) == Encode(rs);
  }

  /** A name read by an iteration that advances holds no NUL. */
  lemma EntryNameNulFree(t: string, pos: nat)
    requires pos < |t| && NextPos(t, pos) > pos
    ensures NUL !in EntryName(t, pos)
  {
  }

  /** Every name the scan returns is NUL-free. */
  lemma {:induction false} ParsedNamesNulFree(t: string, pos: nat)
    requires pos <= |t|
    requires ParseFrom(t, pos).Ok?
    ensures forall n :: n in ParseFrom(t, pos).value ==> NUL !in n
    decreases |t| - pos
  {
    if pos < |t| {
      var next := NextPos(t, pos);
      assert ParseFrom(t, next).Ok?;
      assert ParseFrom(t, pos).value == [EntryName(t, pos)] + ParseFrom(t, next).value;
      EntryNameNulFree(t, pos);
      ParsedNamesNulFree(t, next);
    }
  }

  /** There are no more names than NUL characters in the scanned text. */
  lemma {:induction false} ParsedCount(t: string, pos: nat)
    requires pos <= |t|
    requires ParseFrom(t, pos).Ok?
    ensures |ParseFrom(t, pos).value| <= multiset(t[pos..])[NUL]
    decreases |t| - pos
  {
    if pos < |t| {
      var next := NextPos(t, pos);
      OneNamePerStep(t, pos);
      ghost var here, there := |ParseFrom(t, pos).value|, |ParseFrom(t, next).value|;
      assert here == 1 + there;
      ParsedCount(t, next);
      assert t[pos..][next - pos..] == t[next..];
      SplitCount(t[pos..], next - pos, next - 1 - pos);
    }
  }

  /** A successful scan from inside the text advances once and returns one
      more name than the scan from the new cursor. */
  lemma OneNamePerStep(t: string, pos: nat)
    requires pos < |t| && ParseFrom(t, pos).Ok?
    ensures NextPos(t, pos) > pos && ParseFrom(t, NextPos(t, pos)).Ok?
    ensures |ParseFrom(t, pos).value| == 1 + |ParseFrom(t, NextPos(t, pos)).value|
  {
  }

  /** Cutting a text after a NUL leaves at least one NUL on the left. */
  lemma SplitCount(s: string, cut: nat, at: nat)
    requires at < cut <= |s| && s[at] == NUL
    ensures multiset(s)[NUL] >= 1 + multiset(s[cut..])[NUL]
  {
    assert s == s[..cut] + s[cut..];
    assert s[..cut][at] == NUL;
    assert NUL in multiset(s[..cut]);
  }

  /** If a space lies at or after the cursor and a NUL somewhere after that
      space, the iteration moves the cursor strictly forward, to just past a
      NUL. */
  lemma StepAdvances(t: string, pos: nat, space: nat, nul: nat)
    requires pos <= space < nul < |t|
    requires t[space] == ' ' && t[nul] == NUL
    ensures pos < NextPos(t, pos) <= nul + 1
    ensures t[NextPos(t, pos) - 1] == NUL
  {
  }

  /** If no NUL lies at or after the cursor, the iteration cannot move the
      cursor forward: the scan never finishes. */
  lemma NoNulNoProgress(t: string, pos: nat)
    requires pos < |t|
    requires NUL !in t[pos..]
    ensures ParseFrom(t, pos) == Err(NoProgress(pos))
  {
  }

  /** With no space anywhere, `indexOf(" ", 0)` is -1 and the NUL search
      restarts at 0: a text whose only NUL is its last character still
      yields one name, everything before that NUL. */
  lemma ParseWithoutSpace(t: string)
    requires ' ' !in t && |t| > 0 && t[|t| - 1] == NUL && NUL !in t[..|t| - 1]
    ensures ParseFrom(t, 0) == Ok([t[..|t| - 1]])
  {
    assert forall i :: 0 <= i < |t| - 1 ==> t[..|t| - 1][i] == t[i];
    assert SpaceIndex(t, 0) == -1;
    assert NullIndex(t, 0) == |t| - 1;
    assert EntryName(t, 0) == t[0..|t| - 1];
    assert NextPos(t, 0) == |t|;
    assert ParseFrom(t, |t|) == Ok([]);
    assert ParseFrom(t, 0) == Ok([EntryName(t, 0)] + []);
    assert [EntryName(t, 0)] + [] == [t[..|t| - 1]];
  }

  /** The cursor after `k` iterations started at `pos`. */
  function Iterate(t: string, pos: nat, k: nat): nat
    decreases k
  {
    if k == 0 then pos else Iterate(t, NextPos(t, pos), k - 1)
  }

  /** `k` iterations take the cursor from `from` to `to`, and the loop
      condition holds before each of them. */
  ghost predicate RunsTo(t: string, from: nat, to: nat, k: nat) {
    Iterate(t, from, k) == to && forall j :: 0 <= j < k ==> Iterate(t, from, j) < |t|
  }

  /** Where a stuck iteration sends the cursor: back to 0, to where the
      first iteration from 0 goes, or to a position whose next iteration goes
      where the first iteration from 0 goes. */
  lemma StuckTarget(t: string, pos: nat)
    requires pos < |t| && NextPos(t, pos) <= pos
    ensures var q := NextPos(t, pos);
      q == 0 || q == NextPos(t, 0) || NextPos(t, q) == NextPos(t, 0)
  {
  }

  /** The loop visits `stuck`, the first position from which it makes no
      progress, after finitely many iterations from `pos`, all of them with
      the cursor inside the text. */
  lemma {:induction false} ReachesStuck(t: string, pos: nat, stuck: nat)
    requires ParseFrom(t, pos) == Err(NoProgress(stuck))
    ensures exists k: nat :: RunsTo(t, pos, stuck, k)
    decreases |t| - pos
  {
    if NextPos(t, pos) <= pos {
      assert RunsTo(t, pos, stuck, 0);
    } else {
      var next: nat := NextPos(t, pos);
      ReachesStuck(t, next, stuck);
      var k: nat :| RunsTo(t, next, stuck, k);
      assert Iterate(t, pos, k + 1) == stuck;
      forall j | 0 <= j < k + 1 ensures Iterate(t, pos, j) < |t| {
        if j > 0 {
          assert Iterate(t, pos, j) == Iterate(t, next, j - 1);
        }
      }
      assert RunsTo(t, pos, stuck, k + 1);
    }
  }

  /** When the model reports `NoProgress(stuck)`, the JavaScript loop runs
      forever: from `stuck` the cursor comes back to `stuck` after a positive
      number of iterations, never leaving the text on the way. */
  lemma StuckScanNeverEnds(t: string, stuck: nat)
    requires ParseFrom(t, 0) == Err(NoProgress(stuck))
    ensures exists k: nat :: 0 < k && RunsTo(t, stuck, stuck, k)
  {
    ReachesStuck(t, 0, stuck);
    assert stuck < |t| && NextPos(t, stuck) <= stuck by {
      StuckIsStuck(t, 0, stuck);
    }
    var q := NextPos(t, stuck);
    StuckTarget(t, stuck);
    if q == stuck {
      assert RunsTo(t, stuck, stuck, 1);
    } else if q == 0 {
      var k: nat :| RunsTo(t, 0, stuck, k);
      ShiftedRun(t, stuck, 0, k, 1);
    } else {
      // stuck > 0, so the first iteration from 0 made progress
      var first: nat := NextPos(t, 0);
      assert ParseFrom(t, first) == Err(NoProgress(stuck));
      ReachesStuck(t, first, stuck);
      var k: nat :| RunsTo(t, first, stuck, k);
      if q == first {
        ShiftedRun(t, stuck, first, k, 1);
      } else {
        assert Iterate(t, stuck, 2) == Iterate(t, first, 0);
        ShiftedRun(t, stuck, first, k, 2);
      }
    }
  }

  /** The error names a position inside the text from which the iteration
      does not advance. */
  lemma {:induction false} StuckIsStuck(t: string, pos: nat, stuck: nat)
    requires ParseFrom(t, pos) == Err(NoProgress(stuck))
    ensures pos <= stuck < |t| && NextPos(t, stuck) <= stuck
    decreases |t| - pos
  {
    if NextPos(t, pos) > pos {
      StuckIsStuck(t, NextPos(t, pos), stuck);
    }
  }

  /** If `m` iterations take `from` to `to`, and `k` iterations from `to`
      stay inside the text and end at `from`, then `from` returns to itself
      after `m + k` iterations inside the text. */
  lemma {:induction false} ShiftedRun(t: string, from: nat, to: nat, k: nat, m: nat)
    requires from < |t|
    requires Iterate(t, from, m) == to
    requires forall j :: 0 < j < m ==> Iterate(t, from, j) < |t|
    requires Iterate(t, to, k) == from
    requires forall j :: 0 <= j < k ==> Iterate(t, to, j) < |t|
    ensures RunsTo(t, from, from, m + k)
  {
    IterateAdd(t, from, m, k);
    forall j | m <= j < m + k ensures Iterate(t, from, j) < |t| {
      IterateAdd(t, from, m, j - m);
    }
  }

  lemma IterateOnce(t: string, pos: nat, k: nat)
    requires k > 0
    ensures Iterate(t, pos, k) == Iterate(t, NextPos(t, pos), k - 1)
  {
  }

  lemma {:induction false} IterateAdd(t: string, pos: nat, m: nat, k: nat)
    ensures Iterate(t, pos, m + k) == Iterate(t, Iterate(t, pos, m), k)
    decreases m
  {
    if m > 0 {
      var next := NextPos(t, pos);
      var n: nat := m - 1;
      IterateOnce(t, pos, n + 1 + k);
      IterateOnce(t, pos, n + 1);
      IterateAdd(t, next, n, k);
      assert m + k == n + 1 + k;
    } else {
      assert Iterate(t, pos, m) == pos && m + k == k;
    }
  }
}
