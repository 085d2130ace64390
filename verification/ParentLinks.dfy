/** Flat records that name their parent: the forest they form below a root, walked depth first. A path from the
    top is unique when ids are, which is why the walk ends although other records may form cycles, and why
    it meets every record below the root exactly once. Both `from_spans` and the exporter walk this way. */
module ParentLinks {
  import opened Basics

  datatype Link<K> = Link(id: Option<K>, parent: Option<K>)

  /** No id names two records. */
  ghost predicate Distinct<K>(ls: seq<Link<K>>) {
    forall i, j :: 0 <= i < j < |ls| && ls[i].id.Some? ==> ls[i].id != ls[j].id
  }

  ghost predicate ChildOf<K>(ls: seq<Link<K>>, c: K, p: K) {
    Link(Some(c), Some(p)) in ls
  }

  /** A downward path: each id names a record whose parent is the id before it. */
  ghost predicate Chain<K>(ls: seq<Link<K>>, path: seq<K>) {
    path != [] && forall i :: 0 < i < |path| ==> ChildOf(ls, path[i], path[i - 1])
  }

  /** Nothing lies above `r`: no record of that id has a parent. */
  ghost predicate Top<K(!new)>(ls: seq<Link<K>>, r: K) {
    forall p :: !ChildOf(ls, r, p)
  }

  function Last<K>(path: seq<K>): K
    requires path != []
  {
    path[|path| - 1]
  }

  /** A downward path that starts with nothing above it. */
  ghost predicate FromTop<K(!new)>(ls: seq<Link<K>>, path: seq<K>) {
    Chain(ls, path) && Top(ls, path[0])
  }

  /** `y` is `r` or below it. */
  ghost predicate Reaches<K(!new)>(ls: seq<Link<K>>, r: K, y: K) {
    exists q :: Chain(ls, q) && q[0] == r && Last(q) == y
  }

  lemma UniqueParent<K>(ls: seq<Link<K>>, c: K, p: K, q: K)
    requires Distinct(ls) && ChildOf(ls, c, p) && ChildOf(ls, c, q)
    ensures p == q
  {
    var i :| 0 <= i < |ls| && ls[i] == Link(Some(c), Some(p));
    var j :| 0 <= j < |ls| && ls[j] == Link(Some(c), Some(q));
  }

  lemma ChainPrefix<K>(ls: seq<Link<K>>, path: seq<K>, n: nat)
    requires Chain(ls, path) && 0 < n <= |path|
    ensures Chain(ls, path[..n])
  {
  }

  lemma ChainExtend<K>(ls: seq<Link<K>>, path: seq<K>, c: K)
    requires Chain(ls, path) && ChildOf(ls, c, Last(path))
    ensures Chain(ls, path + [c])
  {
  }

  /** There is only one path from the top to an id. */
  lemma {:induction false} PathUnique<K(!new)>(ls: seq<Link<K>>, a: seq<K>, b: seq<K>)
    requires Distinct(ls) && FromTop(ls, a) && FromTop(ls, b) && Last(a) == Last(b)
    ensures a == b
    decreases |a|
  {
    var n, m := |a|, |b|;
    assert n > 1 ==> ChildOf(ls, Last(a), a[n - 2]);
    assert m > 1 ==> ChildOf(ls, Last(b), b[m - 2]);
    if n > 1 {
      assert m > 1;
      UniqueParent(ls, a[n - 1], a[n - 2], b[m - 2]);
      PathUnique(ls, a[..n - 1], b[..m - 1]);
      assert a == a[..n - 1] + [Last(a)] && b == b[..m - 1] + [Last(b)];
    }
  }

  /** A path from the top never meets the same id twice, even if other records form cycles. */
  lemma PathNoDup<K(!new)>(ls: seq<Link<K>>, path: seq<K>)
    requires Distinct(ls) && FromTop(ls, path)
    ensures NoDup(path)
  {
    forall i, j | 0 <= i < j < |path|
      ensures path[i] != path[j]
    {
      if path[i] == path[j] {
        ChainPrefix(ls, path, i + 1);
        ChainPrefix(ls, path, j + 1);
        PathUnique(ls, path[..i + 1], path[..j + 1]);
      }
    }
  }

  function Ids<K>(ls: seq<Link<K>>): (s: set<K>)
    ensures forall l :: l in ls && l.id.Some? ==> l.id.value in s
    ensures forall k :: k in s ==> exists l :: l in ls && l.id == Some(k)
    ensures |s| <= |ls|
  {
    if ls == [] then {}
    else Ids(ls[1..]) + (if ls[0].id.Some? then {ls[0].id.value} else {})
  }

  /** So a path is no longer than the list of records, plus one for a top id with no record. */
  lemma PathBound<K(!new)>(ls: seq<Link<K>>, path: seq<K>)
    requires Distinct(ls) && FromTop(ls, path)
    ensures |path| <= |ls| + 1
  {
    PathNoDup(ls, path);
    forall i | 0 <= i < |path[1..]|
      ensures path[1..][i] in Ids(ls)
    {
      assert ChildOf(ls, path[i + 1], path[i]);
    }
    NoDupFits(path[1..], Ids(ls));
  }

  /** The ids below the end of `path`, depth first: the id itself, then the walks from its children
      in record order. It ends on every list with distinct ids, whatever cycles other records form. */
  function Subtree<K(!new, ==)>(ls: seq<Link<K>>, id: K, ghost path: seq<K>): seq<K>
    requires Distinct(ls) && FromTop(ls, path) && Last(path) == id
    decreases |ls| + 1 - |path|, |ls| + 1
  {
    PathBound(ls, path);
    [id] + SubtreeScan(ls, id, path, 0)
  }

  function SubtreeScan<K(!new, ==)>(ls: seq<Link<K>>, id: K, ghost path: seq<K>, i: nat): seq<K>
    requires Distinct(ls) && FromTop(ls, path) && Last(path) == id && i <= |ls|
    decreases |ls| + 1 - |path|, |ls| - i
  {
    if i == |ls| then []
    else if ls[i].parent == Some(id) && ls[i].id.Some? then
      assert ls[i] == Link(ls[i].id, Some(id));
      PathBound(ls, path + [ls[i].id.value]);
      Subtree(ls, ls[i].id.value, path + [ls[i].id.value]) + SubtreeScan(ls, id, path, i + 1)
    else SubtreeScan(ls, id, path, i + 1)
  }

  /** The child records from position `i` on through which the path `q` can continue `path`. */
  ghost predicate Through<K(!new)>(ls: seq<Link<K>>, path: seq<K>, i: nat, q: seq<K>) {
    && 0 < |path| < |q| && path <= q && Chain(ls, q)
    && exists j :: i <= j < |ls| && ls[j] == Link(Some(q[|path|]), Some(q[|path| - 1]))
  }

  lemma {:induction false} SubtreeSound<K(!new)>(ls: seq<Link<K>>, path: seq<K>, y: K) returns (q: seq<K>)
    requires Distinct(ls) && FromTop(ls, path) && y in Subtree(ls, Last(path), path)
    ensures Chain(ls, q) && path <= q && Last(q) == y
    decreases |ls| + 1 - |path|, |ls| + 1
  {
    PathBound(ls, path);
    if y == Last(path) {
      q := path;
    } else {
      q := ScanSound(ls, path, 0, y);
    }
  }

  lemma {:induction false} ScanSound<K(!new)>(ls: seq<Link<K>>, path: seq<K>, i: nat, y: K) returns (q: seq<K>)
    requires Distinct(ls) && FromTop(ls, path) && i <= |ls| && y in SubtreeScan(ls, Last(path), path, i)
    ensures Through(ls, path, i, q) && Last(q) == y
    decreases |ls| + 1 - |path|, |ls| - i
  {
    var id := Last(path);
    if ls[i].parent == Some(id) && ls[i].id.Some? {
      var c := ls[i].id.value;
      var longer := path + [c];
      assert ls[i] == Link(Some(c), Some(id));
      PathBound(ls, longer);
      if y in Subtree(ls, c, longer) {
        q := SubtreeSound(ls, longer, y);
      } else {
        q := ScanSound(ls, path, i + 1, y);
      }
    } else {
      q := ScanSound(ls, path, i + 1, y);
    }
  }

  lemma {:induction false} SubtreeComplete<K(!new)>(ls: seq<Link<K>>, path: seq<K>, q: seq<K>)
    requires Distinct(ls) && FromTop(ls, path) && Chain(ls, q) && path <= q
    ensures Last(q) in Subtree(ls, Last(path), path)
    decreases |ls| + 1 - |path|, |ls| + 1
  {
    PathBound(ls, path);
    if |path| < |q| {
      assert ChildOf(ls, q[|path|], q[|path| - 1]);
      ScanComplete(ls, path, 0, q);
    } else {
      assert path == q;
    }
  }

  lemma {:induction false} ScanComplete<K(!new)>(ls: seq<Link<K>>, path: seq<K>, i: nat, q: seq<K>)
    requires Distinct(ls) && FromTop(ls, path) && i <= |ls| && Through(ls, path, i, q)
    ensures Last(q) in SubtreeScan(ls, Last(path), path, i)
    decreases |ls| + 1 - |path|, |ls| - i
  {
    var id := Last(path);
    assert q[|path| - 1] == id;
    if ls[i].parent == Some(id) && ls[i].id.Some? {
      var c := ls[i].id.value;
      assert ls[i] == Link(Some(c), Some(id));
      PathBound(ls, path + [c]);
      if c == q[|path|] {
        assert path + [c] <= q;
        SubtreeComplete(ls, path + [c], q);
      } else {
        ScanComplete(ls, path, i + 1, q);
      }
    } else {
      ScanComplete(ls, path, i + 1, q);
    }
  }

  lemma {:induction false} SubtreeNoDup<K(!new)>(ls: seq<Link<K>>, path: seq<K>)
    requires Distinct(ls) && FromTop(ls, path)
    ensures NoDup(Subtree(ls, Last(path), path))
    decreases |ls| + 1 - |path|, |ls| + 1
  {
    PathBound(ls, path);
    var id := Last(path);
    ScanNoDup(ls, path, 0);
    if id in SubtreeScan(ls, id, path, 0) {
      var q := ScanSound(ls, path, 0, id);
      PathNoDup(ls, q);
    }
    NoDupConcat([id], SubtreeScan(ls, id, path, 0));
  }

  lemma {:induction false} ScanNoDup<K(!new)>(ls: seq<Link<K>>, path: seq<K>, i: nat)
    requires Distinct(ls) && FromTop(ls, path) && i <= |ls|
    ensures NoDup(SubtreeScan(ls, Last(path), path, i))
    decreases |ls| + 1 - |path|, |ls| - i
  {
    var id := Last(path);
    if i < |ls| {
      ScanNoDup(ls, path, i + 1);
      if ls[i].parent == Some(id) && ls[i].id.Some? {
        var c := ls[i].id.value;
        var longer := path + [c];
        assert ls[i] == Link(Some(c), Some(id));
        PathBound(ls, longer);
        SubtreeNoDup(ls, longer);
        forall y | y in Subtree(ls, c, longer)
          ensures y !in SubtreeScan(ls, id, path, i + 1)
        {
          if y in SubtreeScan(ls, id, path, i + 1) {
            var a := SubtreeSound(ls, longer, y);
            var b := ScanSound(ls, path, i + 1, y);
            PathUnique(ls, a, b);
          }
        }
        NoDupConcat(Subtree(ls, c, longer), SubtreeScan(ls, id, path, i + 1));
      }
    }
  }

  /** The walk from a top id yields exactly the ids that reach it, each once. */
  lemma SubtreeExact<K(!new)>(ls: seq<Link<K>>, r: K)
    requires Distinct(ls) && Top(ls, r)
    ensures NoDup(Subtree(ls, r, [r]))
    ensures forall y :: y in Subtree(ls, r, [r]) <==> Reaches(ls, r, y)
  {
    SubtreeNoDup(ls, [r]);
    forall y
      ensures y in Subtree(ls, r, [r]) <==> Reaches(ls, r, y)
    {
      if y in Subtree(ls, r, [r]) {
        var q := SubtreeSound(ls, [r], y);
      }
      if Reaches(ls, r, y) {
        var q :| Chain(ls, q) && q[0] == r && Last(q) == y;
        assert [r] <= q;
        SubtreeComplete(ls, [r], q);
      }
    }
  }

  /** Different top ids share nothing below them. */
  lemma TopsDisjoint<K(!new)>(ls: seq<Link<K>>, r: K, s: K, y: K)
    requires Distinct(ls) && Top(ls, r) && Top(ls, s) && Reaches(ls, r, y) && Reaches(ls, s, y)
    ensures r == s
  {
    var a :| Chain(ls, a) && a[0] == r && Last(a) == y;
    var b :| Chain(ls, b) && b[0] == s && Last(b) == y;
    PathUnique(ls, a, b);
  }
}
