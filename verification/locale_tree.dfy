/** One locale's translation table and the dotted-path lookup over it
    (`getNested`). */
module LocaleTree {
  import opened Wrappers
  import opened Strings

  /** A translation table: leaves are strings, inner nodes map keys to
      sub-tables. */
  datatype LocaleData = Leaf(text: string) | Node(entries: map<string, LocaleData>)

  /** Whether JavaScript treats a looked-up value as true: every object and
      every non-empty string. `undefined` and the empty string are false. */
  predicate Truthy(v: Option<LocaleData>) {
    v.Some? && (v.value.Node? || v.value.text != "")
  }

  /** One step of the lookup, `o ? o[p] : undefined`. Only an inner node has
      children; a missing key reads as `undefined`. */
  function Step(o: Option<LocaleData>, seg: string): Option<LocaleData> {
    if o.Some? && o.value.Node? && seg in o.value.entries then Some(o.value.entries[seg]) else None
  }

  /** The left fold of `Step` over a list of segments, starting from `o`. */
  function Walk(o: Option<LocaleData>, segs: seq<string>): Option<LocaleData>
    decreases |segs|
  {
    if |segs| == 0 then o else Walk(Step(o, segs[0]), segs[1..])
  }

  const PathSeparator: char := '.'

  /** The segments of a dotted key, `path.split('.')`. */
  function Segments(path: string): seq<string> {
    Split(path, [PathSeparator])
  }

  /** `getNested(obj, path)`: walk the segments of `path` from the root.
      Every key has at least one segment, so whatever is found lies below
      the root: a leaf root answers nothing. */
  function GetNested(d: LocaleData, path: string): (r: Option<LocaleData>)
    ensures r.Some? ==> d.Node?
  {
    var segs := Segments(path);
    WalkFromNone(segs[1..]);
    Walk(Some(d), segs)
  }

  /** A chain of single-entry nodes that places `v` at the path `segs`. */
  function Nest(segs: seq<string>, v: LocaleData): LocaleData {
    if |segs| == 0 then v else Node(map[segs[0] := Nest(segs[1..], v)])
  }

  /** Once a step has failed, the rest of the walk stays failed. */
  lemma {:induction false} WalkFromNone(segs: seq<string>)
    ensures Walk(None, segs) == None
  {
    if |segs| > 0 {
      WalkFromNone(segs[1..]);
    }
  }

  /** Walking a concatenated path is walking its halves one after another. */
  lemma {:induction false} WalkAppend(o: Option<LocaleData>, a: seq<string>, b: seq<string>)
    ensures Walk(o, a + b) == Walk(Walk(o, a), b)
    decreases |a|
  {
    if |a| == 0 {
      assert a + b == b;
    } else {
      assert (a + b)[0] == a[0];
      assert (a + b)[1..] == a[1..] + b;
      WalkAppend(Step(o, a[0]), a[1..], b);
    }
  }

  /** A segment missing at any depth makes the whole lookup fail, whatever
      follows it. */
  lemma WalkStopsAtMissing(d: LocaleData, segs: seq<string>, i: nat)
    requires i < |segs|
    requires Step(Walk(Some(d), segs[..i]), segs[i]) == None
    ensures Walk(Some(d), segs) == None
  {
    var tail := segs[i..];
    assert segs[..i] + tail == segs;
    WalkAppend(Some(d), segs[..i], tail);
    assert tail[0] == segs[i] && tail[1..] == segs[i + 1..];
    WalkFromNone(segs[i + 1..]);
  }

  /** Looking up the path a tree was built for finds the value placed there. */
  lemma {:induction false} WalkNest(segs: seq<string>, v: LocaleData)
    ensures Walk(Some(Nest(segs, v)), segs) == Some(v)
  {
    if |segs| > 0 {
      WalkNest(segs[1..], v);
    }
  }

  /** A dotted key is the join of its segments: looking it up walks exactly
      those segments, provided none of them contains a dot. */
  lemma GetNestedJoin(d: LocaleData, segs: seq<string>)
    requires |segs| >= 1
    requires forall k :: 0 <= k < |segs| ==> !HasChar(segs[k], PathSeparator)
    ensures GetNested(d, Join(segs, [PathSeparator])) == Walk(Some(d), segs)
  {
    SplitJoin(segs, PathSeparator);
  }

  /** A key without a dot addresses a direct child of the root. */
  lemma GetNestedSingle(d: LocaleData, key: string)
    requires !HasChar(key, PathSeparator)
    ensures GetNested(d, key) ==
      (if d.Node? && key in d.entries then Some(d.entries[key]) else None)
  {
    SplitNoSep(key, PathSeparator);
    assert Walk(Some(d), [key]) == Walk(Step(Some(d), key), []);
  }

  /** `getNested(d, head + "." + rest)` looks `rest` up inside the child found
      at `head`, and fails when there is none. */
  lemma GetNestedDot(d: LocaleData, head: string, rest: string)
    requires !HasChar(head, PathSeparator)
    ensures GetNested(d, head + [PathSeparator] + rest) ==
      (if d.Node? && head in d.entries then GetNested(d.entries[head], rest) else None)
  {
    SplitAtFirstSep(head, PathSeparator, rest);
    var segs := [head] + Segments(rest);
    WalkAppend(Some(d), [head], Segments(rest));
    if !(d.Node? && head in d.entries) {
      WalkFromNone(Segments(rest));
    }
  }

  /** A nested table built for a dotted key answers that key. */
  lemma GetNestedNest(segs: seq<string>, v: LocaleData)
    requires |segs| >= 1
    requires forall k :: 0 <= k < |segs| ==> !HasChar(segs[k], PathSeparator)
    ensures GetNested(Nest(segs, v), Join(segs, [PathSeparator])) == Some(v)
  {
    GetNestedJoin(Nest(segs, v), segs);
    WalkNest(segs, v);
  }
}
