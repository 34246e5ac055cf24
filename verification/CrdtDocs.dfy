/** The replicated text document: its ops, how one op changes it, and its parent links. */
module CrdtDocs {
  import opened Wrappers

  /** A Lamport sequence number (`stamp`) and the actor that drew it. */
  datatype OpId = OpId(stamp: nat, actor: nat)

  /** The `(seq, actor)` order, read from its large end: siblings are visited newest first. */
  predicate Newer(a: OpId, b: OpId) {
    b.stamp < a.stamp || (b.stamp == a.stamp && b.actor < a.actor)
  }

  datatype TextOp =
    | Insert(id: OpId, after: Option<OpId>, ch: char)
    | Delete(id: OpId, target: OpId)

  datatype Entry = Entry(parent: Option<OpId>, ch: char, deletedBy: Option<OpId>)

  /** Every character ever inserted, tombstones included. */
  type Doc = map<OpId, Entry>

  /** The smaller of a standing tombstone and a new delete id. */
  function Tombstone(existing: Option<OpId>, id: OpId): OpId {
    if existing.Some? && !Newer(existing.value, id) then existing.value else id
  }

  /** One op applied: idempotent inserts, smallest-id tombstones, errors for unknown references. */
  function Applied(d: Doc, op: TextOp): Result<Doc> {
    match op
    case Insert(id, after, ch) =>
      if id in d then Ok(d)
      else if after.Some? && after.value !in d then Err
      else Ok(d[id := Entry(after, ch, None)])
    case Delete(id, target) =>
      if target !in d then Err
      else Ok(d[target := d[target].(deletedBy := Some(Tombstone(d[target].deletedBy, id)))])
  }

  /** Ops applied one after another, stopping at the first error. */
  function Run(d: Doc, ops: seq<TextOp>): Result<Doc> {
    if ops == [] then Ok(d)
    else
      var r := Run(d, ops[..|ops| - 1]);
      if r.Err? then Err else Applied(r.value, ops[|ops| - 1])
  }

  lemma RunSnoc(d: Doc, ops: seq<TextOp>, op: TextOp)
    ensures Run(d, ops + [op]) == (if Run(d, ops).Err? then Err else Applied(Run(d, ops).value, op))
  {
    assert (ops + [op])[..|ops|] == ops;
  }

  // ----- growth -----

  /** `e` holds every character of `d`, each still typed after the same character. */
  ghost predicate Grows(d: Doc, e: Doc) {
    forall id :: id in d ==> id in e && e[id].parent == d[id].parent && e[id].ch == d[id].ch
  }

  lemma {:induction false} RunGrows(d: Doc, ops: seq<TextOp>)
    requires Run(d, ops).Ok?
    ensures Grows(d, Run(d, ops).value)
  {
    if ops != [] {
      RunGrows(d, ops[..|ops| - 1]);
    }
  }

  // ----- parent links -----

  /** `p` names a character by the characters from a document start down to it. */
  ghost predicate RootPath(d: Doc, p: seq<OpId>) {
    && p != []
    && var n := |p| - 1;
    && p[n] in d
    && if n == 0 then d[p[n]].parent == None
       else d[p[n]].parent == Some(p[n - 1]) && RootPath(d, p[..n])
  }

  ghost predicate HasPath(d: Doc, id: OpId) {
    exists p :: RootPath(d, p) && p[|p| - 1] == id
  }

  /** Following parents from any character ends at a document start: no dangling parent, no cycle. */
  ghost predicate Forest(d: Doc) {
    forall id :: id in d ==> HasPath(d, id)
  }

  ghost function Path(d: Doc, id: OpId): (p: seq<OpId>)
    requires HasPath(d, id)
    ensures RootPath(d, p) && p[|p| - 1] == id
  {
    var p :| RootPath(d, p) && p[|p| - 1] == id;
    p
  }

  lemma {:induction false} PathUnique(d: Doc, p: seq<OpId>, q: seq<OpId>)
    requires RootPath(d, p) && RootPath(d, q) && p[|p| - 1] == q[|q| - 1]
    ensures p == q
  {
    var m, n := |p| - 1, |q| - 1;
    if m > 0 && n > 0 {
      PathUnique(d, p[..m], q[..n]);
      assert p == p[..m] + [p[m]] && q == q[..n] + [q[n]];
    }
  }

  lemma {:induction false} RootPathPrefix(d: Doc, p: seq<OpId>, i: int)
    requires RootPath(d, p) && 0 <= i < |p|
    ensures RootPath(d, p[..i + 1])
  {
    var n := |p| - 1;
    if i < n {
      RootPathPrefix(d, p[..n], i);
      assert p[..n][..i + 1] == p[..i + 1];
    } else {
      assert p[..i + 1] == p;
    }
  }

  /** Every prefix of a character's path is the path of the character it ends at. */
  lemma PathPrefix(d: Doc, id: OpId, i: int)
    requires HasPath(d, id) && 0 <= i < |Path(d, id)|
    ensures HasPath(d, Path(d, id)[i]) && Path(d, id)[i] in d
    ensures Path(d, Path(d, id)[i]) == Path(d, id)[..i + 1]
    ensures d[Path(d, id)[i]].parent == if i == 0 then None else Some(Path(d, id)[i - 1])
  {
    var p := Path(d, id)[..i + 1];
    RootPathPrefix(d, Path(d, id), i);
    assert p[|p| - 1] == Path(d, id)[i];
    PathUnique(d, p, Path(d, p[|p| - 1]));
  }

  lemma PathOfChild(d: Doc, id: OpId)
    requires HasPath(d, id)
    ensures id in d
    ensures d[id].parent == None ==> Path(d, id) == [id]
    ensures d[id].parent.Some? ==>
              && HasPath(d, d[id].parent.value)
              && Path(d, id) == Path(d, d[id].parent.value) + [id]
  {
    var p := Path(d, id);
    var n := |p| - 1;
    if n > 0 {
      PathPrefix(d, id, n - 1);
      assert p == p[..n] + [p[n]];
    }
  }

  lemma {:induction false} RootPathKept(d: Doc, e: Doc, p: seq<OpId>)
    requires Grows(d, e) && RootPath(d, p)
    ensures RootPath(e, p)
  {
    if |p| > 1 {
      RootPathKept(d, e, p[..|p| - 1]);
    }
  }

  /** Growth keeps every path. */
  lemma PathKept(d: Doc, e: Doc, id: OpId)
    requires Grows(d, e) && HasPath(d, id)
    ensures HasPath(e, id) && Path(e, id) == Path(d, id)
  {
    RootPathKept(d, e, Path(d, id));
    PathUnique(e, Path(d, id), Path(e, id));
  }

  /** A character whose parent has a path has one too. */
  lemma PathExtends(d: Doc, parent: OpId, id: OpId)
    requires HasPath(d, parent) && id in d && d[id].parent == Some(parent)
    ensures HasPath(d, id) && Path(d, id) == Path(d, parent) + [id]
  {
    var p := Path(d, parent) + [id];
    assert p[..|p| - 1] == Path(d, parent);
    assert RootPath(d, p) && p[|p| - 1] == id;
    PathUnique(d, p, Path(d, id));
  }

  /** Any op, well-ordered or not, leaves a forest a forest. */
  lemma AppliedForest(d: Doc, op: TextOp)
    requires Forest(d) && Applied(d, op).Ok?
    ensures Forest(Applied(d, op).value)
  {
    var e := Applied(d, op).value;
    assert Grows(d, e);
    forall id | id in e ensures HasPath(e, id) {
      if id in d {
        PathKept(d, e, id);
      } else if op.after.None? {
        assert RootPath(e, [id]);
      } else {
        PathKept(d, e, op.after.value);
        PathExtends(e, op.after.value, id);
      }
    }
  }

  /** Every document reachable through `apply` is a forest. */
  lemma {:induction false} ReachableForest(d: Doc, ops: seq<TextOp>)
    requires Forest(d) && Run(d, ops).Ok?
    ensures Forest(Run(d, ops).value)
  {
    if ops != [] {
      ReachableForest(d, ops[..|ops| - 1]);
      AppliedForest(Run(d, ops[..|ops| - 1]).value, ops[|ops| - 1]);
    }
  }

  /** A path names distinct characters, so it is no longer than the document has characters. */
  lemma PathDistinct(d: Doc, id: OpId, i: int, j: int)
    requires HasPath(d, id) && 0 <= i < j < |Path(d, id)|
    ensures Path(d, id)[i] != Path(d, id)[j]
  {
    PathPrefix(d, id, i);
    PathPrefix(d, id, j);
  }

  lemma PathBound(d: Doc, id: OpId)
    requires HasPath(d, id)
    ensures 1 <= |Path(d, id)| <= |d|
  {
    var p := Path(d, id);
    forall i | 0 <= i < |p| ensures p[i] in d {
      PathPrefix(d, id, i);
    }
    forall i, j | 0 <= i < j < |p| ensures p[i] != p[j] {
      PathDistinct(d, id, i, j);
    }
    DistinctBound(p, d.Keys);
    assert |d.Keys| == |d|;
  }

  lemma {:induction false} DistinctBound(p: seq<OpId>, s: set<OpId>)
    requires forall i, j :: 0 <= i < j < |p| ==> p[i] != p[j]
    requires forall i :: 0 <= i < |p| ==> p[i] in s
    ensures |p| <= |s|
  {
    if p != [] {
      DistinctBound(p[1..], s - {p[0]});
    }
  }
}
