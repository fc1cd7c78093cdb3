/** Whole runs of the lock manager: refinement of a map from files to locks, and who may
    delete a locked file. */
module LockRuns {
  import opened Text
  import opened PathNames
  import opened LockTable
  import opened LockProofs

  // ------------------------------------------------------- the abstract table

  /** A locked file: its mode, whether it is in use, and its locks' expiries by id. */
  datatype File = File(mode: ShareMode, busy: bool, locks: map<int, int>)

  type Files = map<string, File>

  function LockMap(ls: seq<Lock>): map<int, int> {
    if ls == [] then map[] else LockMap(ls[1..])[ls[0].id := ls[0].expires]
  }

  function FileOf(n: Node): File {
    File(n.mode, n.busy, LockMap(n.locks))
  }

  function Abs(fold: Fold, ns: seq<Node>): Files {
    if ns == [] then map[] else Abs(fold, ns[1..])[Key(fold, ns[0].path) := FileOf(ns[0])]
  }

  lemma {:induction false} LockMapMeaning(ls: seq<Lock>)
    ensures LockMap(ls).Keys == Ids(ls)
    ensures DistinctIds(ls) ==> forall k :: 0 <= k < |ls| ==> LockMap(ls)[ls[k].id] == ls[k].expires
  {
    if ls != [] {
      LockMapMeaning(ls[1..]);
      SplitAt(ls, 0);
      IdsConcat([ls[0]], ls[1..]);
      assert [ls[0]][0].id == ls[0].id && Ids([ls[0]]) == {ls[0].id};
      assert ls == [ls[0]] + ls[1..];
      if DistinctIds(ls) {
        forall k | 0 <= k < |ls|
          ensures LockMap(ls)[ls[k].id] == ls[k].expires
        {
          if k > 0 { assert ls[1..][k - 1] == ls[k]; }
        }
      }
    }
  }

  /** No two nodes have the same name. */
  ghost predicate DistinctNames(fold: Fold, ns: seq<Node>) {
    forall i, j :: 0 <= i < j < |ns| ==> Key(fold, ns[i].path) != Key(fold, ns[j].path)
  }

  /** Some node has the canonical name `k`. */
  ghost predicate Named(fold: Fold, ns: seq<Node>, k: string) {
    exists i :: 0 <= i < |ns| && Key(fold, ns[i].path) == k
  }

  ghost predicate Contains(fold: Fold, m: Files, n: Node) {
    Key(fold, n.path) in m && m[Key(fold, n.path)] == FileOf(n)
  }

  /** `m` has exactly the files of the list. */
  ghost predicate Represents(fold: Fold, ns: seq<Node>, m: Files) {
    && (forall i :: 0 <= i < |ns| ==> Contains(fold, m, ns[i]))
    && (forall k :: k in m ==> Named(fold, ns, k))
  }

  lemma {:induction false} AbsMeaning(fold: Fold, ns: seq<Node>)
    requires DistinctNames(fold, ns)
    ensures Represents(fold, ns, Abs(fold, ns))
  {
    hide FileOf, Key;
    if ns != [] {
      AbsMeaning(fold, ns[1..]);
      forall i | 0 <= i < |ns|
        ensures Contains(fold, Abs(fold, ns), ns[i])
      {
        if i > 0 {
          assert ns[1..][i - 1] == ns[i];
          assert Contains(fold, Abs(fold, ns[1..]), ns[i]);
        }
      }
      forall k | k in Abs(fold, ns)
        ensures Named(fold, ns, k)
      {
        if k == Key(fold, ns[0].path) {
          assert Named(fold, ns, k);
        } else {
          assert Named(fold, ns[1..], k);
          var i :| 0 <= i < |ns[1..]| && Key(fold, ns[1..][i].path) == k;
          assert ns[i + 1] == ns[1..][i];
        }
      }
    }
  }

  /** `m` is what a list of nodes with different names stands for. */
  lemma AbsIs(fold: Fold, ns: seq<Node>, m: Files)
    requires DistinctNames(fold, ns) && Represents(fold, ns, m)
    ensures Abs(fold, ns) == m
  {
    AbsMeaning(fold, ns);
    hide FileOf, Key, Abs, DistinctNames;
    var a := Abs(fold, ns);
    forall k | k in a || k in m
      ensures k in a && k in m && a[k] == m[k]
    {
      assert Named(fold, ns, k);
      var i :| 0 <= i < |ns| && Key(fold, ns[i].path) == k;
      assert Contains(fold, a, ns[i]) && Contains(fold, m, ns[i]);
    }
    assert a.Keys == m.Keys;
  }

  lemma InvNames(fold: Fold, t: Table)
    requires Inv(fold, t)
    ensures DistinctNames(fold, t.nodes)
  {
    assert forall i, j :: 0 <= i < j < |t.nodes| ==> Apart(fold, t.nodes[i], t.nodes[j]);
  }

  /** Looking a file up in the list is looking its canonical name up in the map. */
  lemma NodeAtIsLookup(fold: Fold, t: Table, path: Path)
    requires Inv(fold, t)
    ensures var i := NodeAt(fold, t.nodes, path);
            && (i < |t.nodes| <==> Key(fold, path) in Abs(fold, t.nodes))
            && (i < |t.nodes| ==> Abs(fold, t.nodes)[Key(fold, path)] == FileOf(t.nodes[i]))
  {
    InvNames(fold, t);
    AbsMeaning(fold, t.nodes);
    hide Abs, Key, FileOf;
    var i := NodeAt(fold, t.nodes, path);
    if i < |t.nodes| { assert Contains(fold, Abs(fold, t.nodes), t.nodes[i]); }
    if Key(fold, path) in Abs(fold, t.nodes) { assert Named(fold, t.nodes, Key(fold, path)); }
  }

  lemma AbsReplace(fold: Fold, ns: seq<Node>, i: nat, n: Node)
    requires DistinctNames(fold, ns) && i < |ns| && n.path == ns[i].path
    ensures Abs(fold, ns[i := n]) == Abs(fold, ns)[Key(fold, n.path) := FileOf(n)]
  {
    AbsMeaning(fold, ns);
    hide FileOf, Key, Abs;
    var ns' := ns[i := n];
    var m := Abs(fold, ns)[Key(fold, n.path) := FileOf(n)];
    forall j | 0 <= j < |ns'|
      ensures Contains(fold, m, ns'[j])
    {
      assert Contains(fold, Abs(fold, ns), ns[j]);
    }
    forall k | k in m
      ensures Named(fold, ns', k)
    {
      assert Contains(fold, Abs(fold, ns), ns[i]) && Named(fold, ns, k);
      var j :| 0 <= j < |ns| && Key(fold, ns[j].path) == k;
      assert ns'[j].path == ns[j].path;
    }
    AbsIs(fold, ns', m);
  }

  lemma WithoutElements<T>(s: seq<T>, i: nat)
    requires i < |s|
    ensures forall j :: 0 <= j < |s| - 1 ==> Without(s, i)[j] == s[if j < i then j else j + 1]
  {
  }

  lemma OtherName(fold: Fold, ns: seq<Node>, i: nat, j: nat)
    requires DistinctNames(fold, ns) && i < |ns| && j < |ns| && i != j
    ensures Key(fold, ns[i].path) != Key(fold, ns[j].path)
  {
  }

  lemma NamesWithout(fold: Fold, ns: seq<Node>, i: nat)
    requires DistinctNames(fold, ns) && i < |ns|
    ensures DistinctNames(fold, Without(ns, i))
  {
    WithoutElements(ns, i);
    hide Without;
    var ns' := Without(ns, i);
    forall j, k | 0 <= j < k < |ns'|
      ensures Key(fold, ns'[j].path) != Key(fold, ns'[k].path)
    {
      OtherName(fold, ns, if j < i then j else j + 1, if k < i then k else k + 1);
    }
  }

  lemma WithoutAt<T>(s: seq<T>, i: nat, j: nat)
    requires i < |s| && j < |s| - 1
    ensures Without(s, i)[j] == s[if j < i then j else j + 1]
  {
  }

  lemma NamedWithout(fold: Fold, ns: seq<Node>, i: nat, k: string)
    requires i < |ns| && Named(fold, ns, k) && k != Key(fold, ns[i].path)
    ensures Named(fold, Without(ns, i), k)
  {
    hide Without, Key;
    var j :| 0 <= j < |ns| && Key(fold, ns[j].path) == k;
    WithoutAt(ns, i, if j < i then j else j - 1);
  }

  lemma HoldsWithout(fold: Fold, ns: seq<Node>, i: nat, j: nat, m: Files)
    requires DistinctNames(fold, ns) && i < |ns| && j < |ns| - 1 && Represents(fold, ns, m)
    ensures Contains(fold, m - {Key(fold, ns[i].path)}, Without(ns, i)[j])
  {
    WithoutAt(ns, i, j);
    var from := if j < i then j else j + 1;
    OtherName(fold, ns, i, from);
    assert Contains(fold, m, ns[from]);
    hide Without, Key, DistinctNames, FileOf, Represents;
  }

  lemma AbsWithout(fold: Fold, ns: seq<Node>, i: nat)
    requires DistinctNames(fold, ns) && i < |ns|
    ensures Abs(fold, Without(ns, i)) == Abs(fold, ns) - {Key(fold, ns[i].path)}
  {
    AbsMeaning(fold, ns);
    NamesWithout(fold, ns, i);
    hide FileOf, Key, Abs, Without, DistinctNames, Contains, Named;
    var m := Abs(fold, ns) - {Key(fold, ns[i].path)};
    forall j | 0 <= j < |Without(ns, i)|
      ensures Contains(fold, m, Without(ns, i)[j])
    {
      HoldsWithout(fold, ns, i, j, Abs(fold, ns));
    }
    forall k | k in m
      ensures Named(fold, Without(ns, i), k)
    {
      NamedWithout(fold, ns, i, k);
    }
    AbsIs(fold, Without(ns, i), m);
  }

  // --------------------------------------------------------------- refinement

  /** The id occurs nowhere in the table. */
  ghost predicate Absent(m: Files, id: int) {
    forall k :: k in m ==> id !in m[k].locks
  }

  lemma NextIdAbsent(fold: Fold, t: Table)
    requires Inv(fold, t)
    ensures Absent(Abs(fold, t.nodes), t.nextId)
  {
    InvNames(fold, t);
    AbsMeaning(fold, t.nodes);
    hide Abs, Key, LockMap;
    forall k | k in Abs(fold, t.nodes)
      ensures t.nextId !in Abs(fold, t.nodes)[k].locks
    {
      assert Named(fold, t.nodes, k);
      var i :| 0 <= i < |t.nodes| && Key(fold, t.nodes[i].path) == k;
      assert NodeOk(t.nodes[i], t.nextId) && Contains(fold, Abs(fold, t.nodes), t.nodes[i]);
      LockMapMeaning(t.nodes[i].locks);
    }
  }

  /** LOCK adds exactly one entry, with a new id, or leaves the map unchanged; it is refused
      exactly when the file is locked and either side wants it exclusively, and else succeeds
      exactly when the file and the objects can be had. */
  lemma CreateRefines(fold: Fold, t: Table, path: Path, mode: ShareMode, expires: int, res: Resources)
    requires Inv(fold, t)
    ensures var (t', r) := CreateLock(fold, t, path, mode, expires, res);
            var m, m', k := Abs(fold, t.nodes), Abs(fold, t'.nodes), Key(fold, path);
            && (r.Refused? <==>
                  mode != DAV_LOCK_UNKNOWN && k in m && (m[k].mode == DAV_LOCK_EXCLUSIVE || mode == DAV_LOCK_EXCLUSIVE))
            && (r.Issued? <==>
                  && mode != DAV_LOCK_UNKNOWN && res.lockMade
                  && if k in m then m[k].mode != DAV_LOCK_EXCLUSIVE && mode != DAV_LOCK_EXCLUSIVE
                     else res.fileOpens && res.nodeMade)
            && (!r.Issued? ==> m' == m)
            && (r.Issued? ==>
                  && Absent(m, r.id)
                  && m' == m[k := if k in m then m[k].(locks := m[k].locks[r.id := expires])
                                  else File(mode, false, map[r.id := expires])])
  {
    NodeAtIsLookup(fold, t, path);
    NextIdAbsent(fold, t);
    InvNames(fold, t);
    var i := NodeAt(fold, t.nodes, path);
    var l := Lock(t.nextId, expires);
    if i < |t.nodes| {
      var n := t.nodes[i].(locks := [l] + t.nodes[i].locks);
      AbsReplace(fold, t.nodes, i, n);
      assert n.locks[1..] == t.nodes[i].locks;
      hide Abs, Key;
    } else {
      var n := Node(path, mode, false, [l]);
      assert ([n] + t.nodes)[1..] == t.nodes;
      assert [l][1..] == [] && LockMap([l]) == map[l.id := l.expires];
      hide Key;
    }
  }

  lemma NodeWithIdIs(fold: Fold, t: Table, id: int)
    requires Inv(fold, t)
    ensures var i := NodeWithId(t.nodes, id);
            && (i == |t.nodes| <==> Absent(Abs(fold, t.nodes), id))
            && (i < |t.nodes| ==>
                  var k := Key(fold, t.nodes[i].path);
                  && k in Abs(fold, t.nodes) && Abs(fold, t.nodes)[k] == FileOf(t.nodes[i])
                  && id in FileOf(t.nodes[i]).locks
                  && (forall k' :: k' in Abs(fold, t.nodes) && id in Abs(fold, t.nodes)[k'].locks ==> k' == k))
  {
    InvNames(fold, t);
    AbsMeaning(fold, t.nodes);
    hide Abs, Key, LockMap, DistinctNames;
    var m, i := Abs(fold, t.nodes), NodeWithId(t.nodes, id);
    forall j | 0 <= j < |t.nodes|
      ensures Contains(fold, m, t.nodes[j])
      ensures id in FileOf(t.nodes[j]).locks <==> HasId(t.nodes[j].locks, id)
      ensures HasId(t.nodes[j].locks, id) ==> j == i
    {
      LockMapMeaning(t.nodes[j].locks);
      HasIdMeaning(t.nodes[j].locks, id);
      if i < j {
        HasIdMeaning(t.nodes[i].locks, id);
        assert Apart(fold, t.nodes[i], t.nodes[j]);
        assert !(id in Ids(t.nodes[i].locks) && id in Ids(t.nodes[j].locks));
      }
    }
    forall k | k in m && id in m[k].locks
      ensures i < |t.nodes| && k == Key(fold, t.nodes[i].path)
    {
      assert Named(fold, t.nodes, k);
      var j :| 0 <= j < |t.nodes| && Key(fold, t.nodes[j].path) == k;
      assert Contains(fold, m, t.nodes[j]);
    }
  }

  lemma LockMapWithout(ls: seq<Lock>, i: nat)
    requires i < |ls| && DistinctIds(ls)
    ensures LockMap(Without(ls, i)) == LockMap(ls) - {ls[i].id}
  {
    IdsWithout(ls, i);
    LockMapMeaning(ls);
    LockMapMeaning(Without(ls, i));
    hide LockMap;
    var a, b := LockMap(Without(ls, i)), LockMap(ls);
    forall id | id in a
      ensures a[id] == b[id]
    {
      var k :| 0 <= k < |Without(ls, i)| && Without(ls, i)[k].id == id;
      var j := if k < i then k else k + 1;
      assert ls[j] == Without(ls, i)[k];
    }
  }

  /** UNLOCK removes exactly one lock, and the file with its last lock; it fails exactly when
      no file has the lock or the file is in use, and then changes nothing. */
  lemma DeleteRefines(fold: Fold, t: Table, id: int)
    requires Inv(fold, t)
    ensures var (t', ok) := DeleteLock(t, id);
            var m, m' := Abs(fold, t.nodes), Abs(fold, t'.nodes);
            if ok then
              exists k :: k in m && id in m[k].locks && !m[k].busy
                && m' == if m[k].locks.Keys == {id} then m - {k} else m[k := m[k].(locks := m[k].locks - {id})]
            else t' == t && (Absent(m, id) || exists k :: k in m && id in m[k].locks && m[k].busy)
  {
    NodeWithIdIs(fold, t, id);
    InvNames(fold, t);
    var i := NodeWithId(t.nodes, id);
    if i < |t.nodes| {
      var n := t.nodes[i];
      var at := LockAt(n.locks, id);
      assert NodeOk(n, t.nextId);
      LockMapMeaning(n.locks);
      LockMapMeaning(Without(n.locks, at));
      LockMapWithout(n.locks, at);
      IdsWithout(n.locks, at);
      AbsWithout(fold, t.nodes, i);
      AbsReplace(fold, t.nodes, i, n.(locks := Without(n.locks, at)));
      var ls := Without(n.locks, at);
      assert ls == [] <==> Ids(n.locks) == {id} by {
        if ls != [] { assert ls[0].id in Ids(ls); }
        assert n.locks[at].id in Ids(n.locks);
      }
      assert id in Abs(fold, t.nodes)[Key(fold, n.path)].locks;
      hide Abs, Key, LockMap, Ids, LockAt;
    }
  }

  lemma RemoveRefines(fold: Fold, t: Table, path: Path)
    requires Inv(fold, t)
    ensures Abs(fold, RemoveFile(fold, t, path).nodes) == Abs(fold, t.nodes) - {Key(fold, path)}
  {
    NodeAtIsLookup(fold, t, path);
    InvNames(fold, t);
    var i := NodeAt(fold, t.nodes, path);
    if i < |t.nodes| { AbsWithout(fold, t.nodes, i); }
  }

  /** A refresh changes the expiry of that file's lock and nothing else. */
  lemma RefreshRefines(fold: Fold, t: Table, path: Path, id: int, expires: int)
    requires Inv(fold, t)
    ensures var m, m', k := Abs(fold, t.nodes), Abs(fold, RefreshLock(fold, t, path, id, expires).nodes), Key(fold, path);
            m' == if k in m && id in m[k].locks then m[k := m[k].(locks := m[k].locks[id := expires])] else m
  {
    NodeAtIsLookup(fold, t, path);
    InvNames(fold, t);
    var i := NodeAt(fold, t.nodes, path);
    if i < |t.nodes| {
      var n := t.nodes[i];
      LockMapMeaning(n.locks);
      HasIdMeaning(n.locks, id);
      if HasId(n.locks, id) {
        assert NodeOk(n, t.nextId);
        var at := LockAt(n.locks, id);
        AbsReplace(fold, t.nodes, i, n.(locks := n.locks[at := Lock(id, expires)]));
        LockMapUpdate(n.locks, at, expires);
        hide Abs, Key, LockMap;
      }
    }
  }

  lemma LockMapUpdate(ls: seq<Lock>, i: nat, expires: int)
    requires i < |ls| && DistinctIds(ls)
    ensures LockMap(ls[i := Lock(ls[i].id, expires)]) == LockMap(ls)[ls[i].id := expires]
  {
    IdsUpdate(ls, i, expires);
    var ls' := ls[i := Lock(ls[i].id, expires)];
    LockMapMeaning(ls);
    LockMapMeaning(ls');
    hide LockMap;
    assert ls[i].id in Ids(ls);
    forall id | id in LockMap(ls')
      ensures LockMap(ls')[id] == LockMap(ls)[ls[i].id := expires][id]
    {
      var k :| 0 <= k < |ls'| && ls'[k].id == id;
      assert ls[k].id == id;
    }
  }

  /** What the sweep leaves of one file: everything if it is in use, else what has not expired. */
  function Kept(f: File, now: int): map<int, int> {
    if f.busy then f.locks else map id | id in f.locks && now <= f.locks[id] :: f.locks[id]
  }

  function SweptFiles(m: Files, now: int): Files {
    map k | k in m && Kept(m[k], now) != map[] :: m[k].(locks := Kept(m[k], now))
  }

  /** One lock of a list with different ids. */
  lemma LockMapAt(ls: seq<Lock>, k: nat)
    requires DistinctIds(ls) && k < |ls|
    ensures ls[k].id in LockMap(ls) && LockMap(ls)[ls[k].id] == ls[k].expires
  {
    LockMapMeaning(ls);
    assert ls[k].id in Ids(ls);
  }

  lemma LockMapOrigin(ls: seq<Lock>, id: int) returns (k: nat)
    requires id in LockMap(ls)
    ensures k < |ls| && ls[k].id == id
  {
    LockMapMeaning(ls);
    assert id in Ids(ls);
    k :| 0 <= k < |ls| && ls[k].id == id;
  }

  lemma UnexpiredMap(ls: seq<Lock>, now: int)
    requires DistinctIds(ls)
    ensures LockMap(Unexpired(ls, now)) == map id | id in LockMap(ls) && now <= LockMap(ls)[id] :: LockMap(ls)[id]
  {
    var us := Unexpired(ls, now);
    var from := UnexpiredFrom(ls, now);
    UnexpiredIds(ls, now);
    hide LockMap, Unexpired, Picks, DistinctIds;
    var a, b := LockMap(us), LockMap(ls);
    forall id | id in a
      ensures id in b && now <= b[id] && a[id] == b[id]
    {
      var k := LockMapOrigin(us, id);
      LockMapAt(us, k);
      PickInRange(from, |ls|, k);
      LockMapAt(ls, from[k]);
      assert from[k] in from;
    }
    forall id | id in b && now <= b[id]
      ensures id in a
    {
      var i := LockMapOrigin(ls, id);
      LockMapAt(ls, i);
      assert i in from;
      var k :| 0 <= k < |from| && from[k] == i;
      LockMapAt(us, k);
    }
  }

  lemma EmptyLockMap(ls: seq<Lock>)
    ensures LockMap(ls) == map[] <==> ls == []
  {
    if ls != [] { assert ls[0].id in LockMap(ls); }
  }

  lemma SweptNodeIs(n: Node, nextId: int, now: int)
    requires NodeOk(n, nextId)
    ensures FileOf(SweepNode(n, now)) == FileOf(n).(locks := Kept(FileOf(n), now))
    ensures SweepNode(n, now).locks == [] <==> Kept(FileOf(n), now) == map[]
  {
    hide LockMap, Unexpired;
    EmptyLockMap(n.locks);
    EmptyLockMap(Unexpired(n.locks, now));
    UnexpiredMap(n.locks, now);
  }

  lemma HoldsSwept(fold: Fold, m: Files, n: Node, nextId: int, now: int)
    requires Contains(fold, m, n) && NodeOk(n, nextId)
    ensures SweepNode(n, now).locks != [] ==> Contains(fold, SweptFiles(m, now), SweepNode(n, now))
    ensures SweepNode(n, now).locks == [] ==> Key(fold, n.path) !in SweptFiles(m, now)
    ensures SweepNode(n, now).path == n.path
  {
    SweptNodeIs(n, nextId, now);
    hide Key, LockMap, Kept;
  }

  /** `from` tells which nodes are in the swept list. */
  ghost predicate SweptPicks(ns: seq<Node>, now: int, from: seq<nat>) {
    && Picks(from, |ns|) && |from| == |SweepNodes(ns, now)|
    && (forall k :: 0 <= k < |from| ==> SweepNodes(ns, now)[k] == AllSwept(ns, now)[from[k]])
    && (forall i :: 0 <= i < |ns| ==> (i in from <==> AllSwept(ns, now)[i].locks != []))
  }

  /** The map after the sweep has the nodes of the swept list. */
  lemma SweptContains(fold: Fold, ns: seq<Node>, nextId: int, now: int, from: seq<nat>, j: nat, m: Files)
    requires SweptPicks(ns, now, from) && j < |from|
    requires forall i :: 0 <= i < |ns| ==> NodeOk(ns[i], nextId) && Contains(fold, m, ns[i])
    ensures Contains(fold, SweptFiles(m, now), SweepNodes(ns, now)[j])
  {
    hide Key, SweepNodes, SweepNode, SweptFiles, NodeOk, Contains, Picks;
    PickInRange(from, |ns|, j);
    var i := from[j];
    assert i in from && AllSwept(ns, now)[i] == SweepNode(ns[i], now);
    HoldsSwept(fold, m, ns[i], nextId, now);
  }

  /** A file that keeps a lock is in the swept list. */
  lemma SweptNamed(fold: Fold, ns: seq<Node>, nextId: int, now: int, from: seq<nat>, i: nat, m: Files)
    requires SweptPicks(ns, now, from) && i < |ns| && NodeOk(ns[i], nextId)
    requires Contains(fold, m, ns[i]) && Key(fold, ns[i].path) in SweptFiles(m, now)
    ensures Named(fold, SweepNodes(ns, now), Key(fold, ns[i].path))
  {
    hide Key, SweepNodes, SweepNode, SweptFiles, NodeOk, Contains;
    HoldsSwept(fold, m, ns[i], nextId, now);
    assert AllSwept(ns, now)[i] == SweepNode(ns[i], now);
    assert i in from;
    var j :| 0 <= j < |from| && from[j] == i;
    assert SweepNodes(ns, now)[j] == AllSwept(ns, now)[i];
  }

  /** The sweep removes exactly the expired locks of files not in use, and the files so emptied. */
  lemma SweepRefines(fold: Fold, t: Table, now: int)
    requires Inv(fold, t)
    ensures Abs(fold, Sweep(t, now).nodes) == SweptFiles(Abs(fold, t.nodes), now)
  {
    InvNames(fold, t);
    AbsMeaning(fold, t.nodes);
    SweepKeepsInv(fold, t, now);
    InvNames(fold, Sweep(t, now));
    var ns, ns' := t.nodes, SweepNodes(t.nodes, now);
    var from := SweptFrom(ns, now);
    assert SweptPicks(ns, now, from);
    var a, m := Abs(fold, ns), SweptFiles(Abs(fold, ns), now);
    hide Abs, Key, SweepNodes, DistinctNames, SweptFiles, Contains, NodeOk, SweptPicks;
    forall j | 0 <= j < |ns'|
      ensures Contains(fold, m, ns'[j])
    {
      SweptContains(fold, ns, t.nextId, now, from, j, a);
    }
    forall k | k in m
      ensures Named(fold, ns', k)
    {
      SweptFilesKeys(a, now, k);
      assert Named(fold, ns, k);
      var i :| 0 <= i < |ns| && Key(fold, ns[i].path) == k;
      SweptNamed(fold, ns, t.nextId, now, from, i, a);
    }
    AbsIs(fold, ns', m);
  }

  lemma SweptFilesKeys(m: Files, now: int, k: string)
    ensures k in SweptFiles(m, now) ==> k in m
  {
  }

  function WithBusy(m: Files, k: string, b: bool): Files {
    if k in m then m[k := m[k].(busy := b)] else m
  }

  lemma SetBusyRefines(fold: Fold, t: Table, path: Path, b: bool)
    requires Inv(fold, t)
    ensures Abs(fold, SetBusy(fold, t, path, b).nodes) == WithBusy(Abs(fold, t.nodes), Key(fold, path), b)
  {
    NodeAtIsLookup(fold, t, path);
    InvNames(fold, t);
    var i := NodeAt(fold, t.nodes, path);
    if i < |t.nodes| { AbsReplace(fold, t.nodes, i, t.nodes[i].(busy := b)); }
    hide Abs, Key, LockMap;
  }

  /** A MOVE or COPY with tokens may begin only if tokens were sent and allow it for both files; then
      each of them that is locked is marked busy, or idle if a file that is not locked cannot be
      opened. */
  lemma BeginCopyRefines(fold: Fold, t: Table, src: Path, dst: Path, ids: seq<int>, srcOpens: bool, dstOpens: bool)
    requires Inv(fold, t)
    ensures var (t', ok) := LockTable.BeginCopy(fold, t, src, dst, ids, srcOpens, dstOpens);
            var m, a, b := Abs(fold, t.nodes), Key(fold, src), Key(fold, dst);
            var may := ids != [] && CanPerform(fold, t, src, Some(dst), ids);
            && (ok <==> may && (a in m || srcOpens) && (b in m || dstOpens))
            && Abs(fold, t'.nodes) == if may then WithBusy(WithBusy(m, a, ok), b, ok) else m
  {
    NodeAtIsLookup(fold, t, src);
    NodeAtIsLookup(fold, t, dst);
    forall ok: bool
      ensures Abs(fold, SetBusy(fold, SetBusy(fold, t, src, ok), dst, ok).nodes)
           == WithBusy(WithBusy(Abs(fold, t.nodes), Key(fold, src), ok), Key(fold, dst), ok)
    {
      SetBusyRefines(fold, t, src, ok);
      SetBusyKeepsInv(fold, t, src, ok);
      SetBusyRefines(fold, SetBusy(fold, t, src, ok), dst, ok);
    }
    hide Abs, Key, SetBusy, WithBusy, CanPerform;
  }

  /** What the end of a MOVE or COPY of `a` to `b` leaves. */
  function EndedFiles(m: Files, a: string, b: string, srcLocked: bool, dstLocked: bool, moved: bool): Files {
    var m1 := if srcLocked then WithBusy(m, a, false) else m;
    var m2 := if dstLocked then WithBusy(m1, b, false) else m1;
    if srcLocked && moved then m2 - {a} else m2
  }

  /** Its end frees the files it had found locked, and a MOVE drops its source. */
  lemma EndCopyRefines(fold: Fold, t: Table, src: Path, dst: Path, srcLocked: bool, dstLocked: bool, moved: bool)
    requires Inv(fold, t)
    ensures Abs(fold, LockTable.EndCopy(fold, t, src, dst, srcLocked, dstLocked, moved).nodes)
         == EndedFiles(Abs(fold, t.nodes), Key(fold, src), Key(fold, dst), srcLocked, dstLocked, moved)
  {
    var t1 := if srcLocked then SetBusy(fold, t, src, false) else t;
    SetBusyRefines(fold, t, src, false);
    SetBusyKeepsInv(fold, t, src, false);
    var t2 := if dstLocked then SetBusy(fold, t1, dst, false) else t1;
    SetBusyRefines(fold, t1, dst, false);
    SetBusyKeepsInv(fold, t1, dst, false);
    RemoveRefines(fold, t2, src);
    hide Abs, Key, SetBusy, WithBusy, RemoveFile;
  }

  // --------------------------------------------------------------------- runs

  /** One critical section of the lock manager. */
  datatype Event =
    | LockRequest(path: Path, mode: ShareMode, expires: int, res: Resources)
    | Refresh(path: Path, id: int, expires: int)
    | Unlock(id: int)
    | Expire(now: int)
    | DeleteLocked(path: Path, ids: seq<int>)
    | BeginCopy(src: Path, dst: Path, ids: seq<int>, srcOpens: bool, dstOpens: bool)
    | EndCopy(src: Path, dst: Path, srcLocked: bool, dstLocked: bool, moved: bool)

  function Step(fold: Fold, t: Table, e: Event): Table {
    match e
    case LockRequest(path, mode, expires, res) => CreateLock(fold, t, path, mode, expires, res).0
    case Refresh(path, id, expires) => RefreshLock(fold, t, path, id, expires)
    case Unlock(id) => DeleteLock(t, id).0
    case Expire(now) => Sweep(t, now)
    case DeleteLocked(path, ids) => DeleteLockedFile(fold, t, path, ids).0
    case BeginCopy(src, dst, ids, a, b) => LockTable.BeginCopy(fold, t, src, dst, ids, a, b).0
    case EndCopy(src, dst, a, b, moved) => LockTable.EndCopy(fold, t, src, dst, a, b, moved)
  }

  function Run(fold: Fold, es: seq<Event>): Table {
    if es == [] then EMPTY else Step(fold, Run(fold, es[..|es| - 1]), es[|es| - 1])
  }

  lemma StepKeepsInv(fold: Fold, t: Table, e: Event)
    requires Inv(fold, t)
    ensures Inv(fold, Step(fold, t, e)) && t.nextId <= Step(fold, t, e).nextId
  {
    hide Inv, Key, NodeAt, NodeWithId, SweepNodes, CanPerform;
    match e
    case LockRequest(path, mode, expires, res) => CreateKeepsInv(fold, t, path, mode, expires, res);
    case Refresh(path, id, expires) => RefreshKeepsInv(fold, t, path, id, expires);
    case Unlock(id) => DeleteKeepsInv(fold, t, id);
    case Expire(now) => SweepKeepsInv(fold, t, now);
    case DeleteLocked(path, ids) => RemoveKeepsInv(fold, t, path);
    case BeginCopy(src, dst, ids, a, b) => BeginCopyKeepsInv(fold, t, src, dst, ids, a, b);
    case EndCopy(src, dst, a, b, moved) => EndCopyKeepsInv(fold, t, src, dst, a, b, moved);
  }

  /** Every reachable table satisfies the invariant. */
  lemma {:induction false} RunKeepsInv(fold: Fold, es: seq<Event>)
    ensures Inv(fold, Run(fold, es))
  {
    if es != [] {
      RunKeepsInv(fold, es[..|es| - 1]);
      StepKeepsInv(fold, Run(fold, es[..|es| - 1]), es[|es| - 1]);
    }
  }

  /** The lock `id` is currently held on the file with canonical name `k`. */
  ghost predicate Live(fold: Fold, t: Table, k: string, id: int) {
    k in Abs(fold, t.nodes) && id in Abs(fold, t.nodes)[k].locks
  }

  lemma LiveIsAssociated(fold: Fold, t: Table, path: Path, id: int)
    requires Inv(fold, t)
    ensures Live(fold, t, Key(fold, path), id) <==> IsFileAssociatedWithLockId(fold, t, path, id)
  {
    NodeAtIsLookup(fold, t, path);
    var i := NodeAt(fold, t.nodes, path);
    if i < |t.nodes| {
      LockMapMeaning(t.nodes[i].locks);
      HasIdMeaning(t.nodes[i].locks, id);
    }
  }

  /** Step `e` of table `t` issues `id` for the file `k`. */
  ghost predicate Issues(fold: Fold, t: Table, e: Event, k: string, id: int) {
    && e.LockRequest? && Key(fold, e.path) == k
    && CreateLock(fold, t, e.path, e.mode, e.expires, e.res).1 == Issued(id)
  }

  /** A lock is held after a step only if it was held before or the step issued it. */
  lemma LiveAfterStep(fold: Fold, t: Table, e: Event, k: string, id: int)
    requires Inv(fold, t) && Live(fold, Step(fold, t, e), k, id)
    ensures Live(fold, t, k, id) || Issues(fold, t, e, k, id)
  {
    hide Inv, Abs, Key, CreateLock, DeleteLock, Sweep, RefreshLock, RemoveFile, SetBusy, NodeAt;
    match e
    case LockRequest(path, mode, expires, res) => CreateRefines(fold, t, path, mode, expires, res);
    case Refresh(path, id', expires) => RefreshRefines(fold, t, path, id', expires);
    case Unlock(id') => DeleteRefines(fold, t, id');
    case Expire(now) => SweepRefines(fold, t, now);
    case DeleteLocked(path, ids) => RemoveRefines(fold, t, path);
    case BeginCopy(src, dst, ids, a, b) => BeginCopyRefines(fold, t, src, dst, ids, a, b);
    case EndCopy(src, dst, a, b, moved) => EndCopyRefines(fold, t, src, dst, a, b, moved);
  }

  /** `id` was issued for `k` by event `s` of the run and has been held ever since. */
  ghost predicate HeldSince(fold: Fold, es: seq<Event>, s: nat, k: string, id: int) {
    && s < |es| && Issues(fold, Run(fold, es[..s]), es[s], k, id)
    && forall j :: s < j <= |es| ==> Live(fold, Run(fold, es[..j]), k, id)
  }

  /** Every lock held at the end of a run was issued for that file in the run and not
      unlocked, swept or removed since. */
  lemma {:induction false} LiveHasOrigin(fold: Fold, es: seq<Event>, k: string, id: int) returns (s: nat)
    requires Live(fold, Run(fold, es), k, id)
    ensures HeldSince(fold, es, s, k, id)
  {
    hide Issues, Step, Inv, Abs;
    assert es != [] by { NothingLive(fold, k, id); }
    var n := |es| - 1;
    var pre := es[..n];
    RunKeepsInv(fold, pre);
    assert Run(fold, es) == Step(fold, Run(fold, pre), es[n]);
    LiveAfterStep(fold, Run(fold, pre), es[n], k, id);
    assert es[..|es|] == es;
    hide Run, Live;
    if Live(fold, Run(fold, pre), k, id) {
      s := LiveHasOrigin(fold, pre, k, id);
      assert pre[..s] == es[..s];
      forall j | s < j <= |es|
        ensures Live(fold, Run(fold, es[..j]), k, id)
      {
        if j <= n { assert pre[..j] == es[..j]; }
      }
    } else {
      s := n;
    }
  }

  lemma NothingLive(fold: Fold, k: string, id: int)
    ensures !Live(fold, Run(fold, []), k, id)
  {
  }

  /** Safety of DELETE on a locked file: the step removes a file's node only if the client
      presents an id issued for an equal name earlier in the run and held ever since. */
  lemma DeleteNeedsToken(fold: Fold, es: seq<Event>, path: Path, ids: seq<int>) returns (id: int, s: nat)
    requires Step(fold, Run(fold, es), DeleteLocked(path, ids)) != Run(fold, es)
    ensures id in ids && HeldSince(fold, es, s, Key(fold, path), id)
    ensures Abs(fold, Step(fold, Run(fold, es), DeleteLocked(path, ids)).nodes)
         == Abs(fold, Run(fold, es).nodes) - {Key(fold, path)}
  {
    var t := Run(fold, es);
    RunKeepsInv(fold, es);
    RemoveRefines(fold, t, path);
    var i := NodeAt(fold, t.nodes, path);
    var k :| 0 <= k < |ids| && HasId(t.nodes[i].locks, ids[k]);
    id := ids[k];
    LiveIsAssociated(fold, t, path, id);
    hide Run, Step, Abs;
    s := LiveHasOrigin(fold, es, Key(fold, path), id);
  }

  /** Some id presented is held on the file. */
  ghost predicate Presented(fold: Fold, t: Table, path: Path, ids: seq<int>) {
    exists k :: 0 <= k < |ids| && Live(fold, t, Key(fold, path), ids[k])
  }

  lemma PresentedIs(fold: Fold, t: Table, path: Path, ids: seq<int>)
    requires Inv(fold, t) && Key(fold, path) in Abs(fold, t.nodes)
    ensures var i := NodeAt(fold, t.nodes, path);
            i < |t.nodes| && (HasAnyId(t.nodes[i].locks, ids) <==> Presented(fold, t, path, ids))
  {
    NodeAtIsLookup(fold, t, path);
    var i := NodeAt(fold, t.nodes, path);
    forall k | 0 <= k < |ids|
      ensures Live(fold, t, Key(fold, path), ids[k]) <==> HasId(t.nodes[i].locks, ids[k])
    {
      LiveIsAssociated(fold, t, path, ids[k]);
    }
    hide Live, HasId, Abs, Key;
  }

  /** A locked operation may proceed exactly when no token is needed and none sent, or some
      file is locked and each locked file has a presented token held on it. */
  lemma MayProceed(fold: Fold, t: Table, file1: Path, file2: Option<Path>, ids: seq<int>)
    requires Inv(fold, t)
    ensures var m := Abs(fold, t.nodes);
            var a, b := Key(fold, file1) in m, file2.Some? && Key(fold, file2.value) in m;
            CanPerform(fold, t, file1, file2, ids) <==>
              if ids == [] then !a && !b
              else (a || b) && (a ==> Presented(fold, t, file1, ids)) && (b ==> Presented(fold, t, file2.value, ids))
  {
    NodeAtIsLookup(fold, t, file1);
    if Key(fold, file1) in Abs(fold, t.nodes) { PresentedIs(fold, t, file1, ids); }
    if file2.Some? {
      NodeAtIsLookup(fold, t, file2.value);
      if Key(fold, file2.value) in Abs(fold, t.nodes) { PresentedIs(fold, t, file2.value, ids); }
    }
    hide Abs, Key, HasAnyId, Presented, Inv;
  }

  /** The locked delete removes exactly that file, exactly when an id presented is held on it. */
  lemma DeleteLockedRefines(fold: Fold, t: Table, path: Path, ids: seq<int>)
    requires Inv(fold, t)
    ensures var (t', ok) := DeleteLockedFile(fold, t, path, ids);
            && (ok <==> Presented(fold, t, path, ids))
            && Abs(fold, t'.nodes) == if ok then Abs(fold, t.nodes) - {Key(fold, path)} else Abs(fold, t.nodes)
  {
    MayProceed(fold, t, path, None, ids);
    RemoveRefines(fold, t, path);
    hide Abs, Key, CanPerform, RemoveFile, Inv;
  }

  // ------------------------------------------------------------ MOVE and COPY

  /** The file with canonical name `k` is locked and in use. */
  ghost predicate Busy(fold: Fold, t: Table, k: string) {
    k in Abs(fold, t.nodes) && Abs(fold, t.nodes)[k].busy
  }

  /** The event takes the busy flag or the lock from the file `k`: a locked delete with a token of
      the file, a MOVE or COPY of it that its tokens allow and that fails to open its other file, or
      the end of one that had found it locked. */
  ghost predicate Frees(fold: Fold, t: Table, e: Event, k: string) {
    match e
    case DeleteLocked(path, ids) => Key(fold, path) == k && Presented(fold, t, path, ids)
    case BeginCopy(src, dst, ids, srcOpens, dstOpens) =>
      && (Key(fold, src) == k || Key(fold, dst) == k)
      && ids != [] && CanPerform(fold, t, src, Some(dst), ids)
      && !((Key(fold, src) in Abs(fold, t.nodes) || srcOpens) && (Key(fold, dst) in Abs(fold, t.nodes) || dstOpens))
    case EndCopy(src, dst, srcLocked, dstLocked, _) =>
      (srcLocked && Key(fold, src) == k) || (dstLocked && Key(fold, dst) == k)
    case _ => false
  }

  lemma BothMarked(m: Files, a: string, b: string, busy: bool, k: string)
    requires k in m
    ensures var m' := WithBusy(WithBusy(m, a, busy), b, busy);
            k in m' && m'[k] == if k == a || k == b then m[k].(busy := busy) else m[k]
  {
  }

  /** No file of the map is without a lock. */
  lemma SomeLock(fold: Fold, t: Table, k: string) returns (id: int)
    requires Inv(fold, t) && k in Abs(fold, t.nodes)
    ensures Live(fold, t, k, id)
  {
    InvNames(fold, t);
    AbsMeaning(fold, t.nodes);
    hide Abs, Key, LockMap, DistinctNames;
    assert Named(fold, t.nodes, k);
    var i :| 0 <= i < |t.nodes| && Key(fold, t.nodes[i].path) == k;
    assert Contains(fold, Abs(fold, t.nodes), t.nodes[i]) && NodeOk(t.nodes[i], t.nextId);
    LockMapAt(t.nodes[i].locks, 0);
    id := t.nodes[i].locks[0].id;
  }

  lemma BusyAfterBegin(fold: Fold, t: Table, e: Event, k: string)
    requires Inv(fold, t) && Busy(fold, t, k) && e.BeginCopy?
    ensures Busy(fold, Step(fold, t, e), k) <==> !Frees(fold, t, e, k)
    ensures forall id :: Live(fold, t, k, id) ==> Live(fold, Step(fold, t, e), k, id)
  {
    BeginCopyRefines(fold, t, e.src, e.dst, e.ids, e.srcOpens, e.dstOpens);
    hide Inv, Abs, Key, CanPerform, LockTable.BeginCopy, WithBusy;
    var m, a, b := Abs(fold, t.nodes), Key(fold, e.src), Key(fold, e.dst);
    BothMarked(m, a, b, true, k);
    BothMarked(m, a, b, false, k);
  }

  lemma EndedAt(m: Files, a: string, b: string, srcLocked: bool, dstLocked: bool, moved: bool, k: string)
    requires k in m
    ensures var m' := EndedFiles(m, a, b, srcLocked, dstLocked, moved);
            var freed := (srcLocked && a == k) || (dstLocked && b == k);
            && (k in m' <==> !(srcLocked && moved && a == k))
            && (k in m' ==> m'[k] == if freed then m[k].(busy := false) else m[k])
  {
  }

  lemma BusyAfterEnd(fold: Fold, t: Table, e: Event, k: string)
    requires Inv(fold, t) && Busy(fold, t, k) && e.EndCopy?
    ensures Busy(fold, Step(fold, t, e), k) <==> !Frees(fold, t, e, k)
    ensures !Frees(fold, t, e, k) ==> forall id :: Live(fold, t, k, id) ==> Live(fold, Step(fold, t, e), k, id)
  {
    EndCopyRefines(fold, t, e.src, e.dst, e.srcLocked, e.dstLocked, e.moved);
    hide Inv, Abs, Key, LockTable.EndCopy, EndedFiles;
    EndedAt(Abs(fold, t.nodes), Key(fold, e.src), Key(fold, e.dst), e.srcLocked, e.dstLocked, e.moved, k);
  }

  /** A busy file stays busy over an event exactly if the event does not free it, and then keeps
      all its locks. */
  lemma StepKeepsBusy(fold: Fold, t: Table, e: Event, k: string)
    requires Inv(fold, t) && Busy(fold, t, k)
    ensures Busy(fold, Step(fold, t, e), k) <==> !Frees(fold, t, e, k)
    ensures !Frees(fold, t, e, k) ==> forall id :: Live(fold, t, k, id) ==> Live(fold, Step(fold, t, e), k, id)
  {
    hide Inv, Abs, Key, CreateLock, DeleteLock, DeleteLockedFile, Sweep, RefreshLock, RemoveFile, NodeAt, Presented;
    hide LockTable.BeginCopy, LockTable.EndCopy;
    match e
    case LockRequest(path, mode, expires, res) => CreateRefines(fold, t, path, mode, expires, res);
    case Refresh(path, id, expires) => RefreshRefines(fold, t, path, id, expires);
    case Unlock(id) => DeleteRefines(fold, t, id);
    case Expire(now) =>
      SweepRefines(fold, t, now);
      var id := SomeLock(fold, t, k);
    case DeleteLocked(path, ids) => DeleteLockedRefines(fold, t, path, ids);
    case BeginCopy(_, _, _, _, _) => BusyAfterBegin(fold, t, e, k);
    case EndCopy(_, _, _, _, _) => BusyAfterEnd(fold, t, e, k);
  }

  /** None of the events `more`, which follow the run `es`, frees the file. */
  ghost predicate NoneFrees(fold: Fold, es: seq<Event>, more: seq<Event>, k: string) {
    forall j :: 0 <= j < |more| ==> !Frees(fold, Run(fold, es + more[..j]), more[j], k)
  }

  ghost predicate BusyThroughout(fold: Fold, es: seq<Event>, more: seq<Event>, k: string) {
    forall j :: 0 <= j <= |more| ==> Busy(fold, Run(fold, es + more[..j]), k)
  }

  ghost predicate LiveThroughout(fold: Fold, es: seq<Event>, more: seq<Event>, k: string, id: int) {
    forall j :: 0 <= j <= |more| ==> Live(fold, Run(fold, es + more[..j]), k, id)
  }

  /** From all events but the last one to all. */
  lemma ThroughoutStep(fold: Fold, es: seq<Event>, more: seq<Event>, k: string)
    requires more != []
    ensures var n := |more| - 1; var pre := more[..n];
            && (BusyThroughout(fold, es, more, k) <==>
                  BusyThroughout(fold, es, pre, k) && Busy(fold, Run(fold, es + more), k))
            && (NoneFrees(fold, es, more, k) <==>
                  NoneFrees(fold, es, pre, k) && !Frees(fold, Run(fold, es + pre), more[n], k))
    ensures var pre := more[..|more| - 1];
            forall id :: LiveThroughout(fold, es, more, k, id) <==>
              LiveThroughout(fold, es, pre, k, id) && Live(fold, Run(fold, es + more), k, id)
  {
    hide Run, Live, Busy, Frees;
    var n := |more| - 1;
    var pre := more[..n];
    assert forall j :: 0 <= j <= n ==> pre[..j] == more[..j];
    assert more[..n + 1] == more;
  }

  /** The same over runs. */
  lemma {:induction false} RunKeepsBusy(fold: Fold, es: seq<Event>, more: seq<Event>, k: string)
    requires Busy(fold, Run(fold, es), k)
    ensures BusyThroughout(fold, es, more, k) <==> NoneFrees(fold, es, more, k)
    ensures NoneFrees(fold, es, more, k) ==>
              forall id :: Live(fold, Run(fold, es), k, id) ==> LiveThroughout(fold, es, more, k, id)
    decreases |more|
  {
    hide Step, Inv, Run, Live, Busy, Frees;
    if more == [] {
      assert es + more[..0] == es;
    } else {
      var n := |more| - 1;
      var pre := more[..n];
      RunKeepsBusy(fold, es, pre, k);
      assert forall j :: 0 <= j <= n ==> pre[..j] == more[..j];
      assert pre[..n] == pre && more[..n + 1] == more && es + more == es + pre + [more[n]];
      RunAppend(fold, es + pre, more[n]);
      if BusyThroughout(fold, es, pre, k) {
        assert Busy(fold, Run(fold, es + pre[..n]), k);
        RunKeepsInv(fold, es + pre);
        StepKeepsBusy(fold, Run(fold, es + pre), more[n], k);
      }
      ThroughoutStep(fold, es, more, k);
    }
  }

  /** When a MOVE or COPY begins, an id presented is held on each of its files that is locked, and
      the file is busy from then on. */
  lemma PresentedAtBegin(fold: Fold, t: Table, e: Event, file: Path) returns (id: int)
    requires Inv(fold, t) && e.BeginCopy? && (file == e.src || file == e.dst) && Key(fold, file) in Abs(fold, t.nodes)
    requires LockTable.BeginCopy(fold, t, e.src, e.dst, e.ids, e.srcOpens, e.dstOpens).1
    ensures id in e.ids && Live(fold, t, Key(fold, file), id)
    ensures Busy(fold, Step(fold, t, e), Key(fold, file)) && Live(fold, Step(fold, t, e), Key(fold, file), id)
  {
    hide Key, Abs, Inv, CanPerform, LockTable.BeginCopy, WithBusy, Presented;
    BeginCopyRefines(fold, t, e.src, e.dst, e.ids, e.srcOpens, e.dstOpens);
    MayProceed(fold, t, e.src, Some(e.dst), e.ids);
    BothMarked(Abs(fold, t.nodes), Key(fold, e.src), Key(fold, e.dst), true, Key(fold, file));
    id := PresentedId(fold, t, file, e.ids);
  }

  lemma PresentedId(fold: Fold, t: Table, path: Path, ids: seq<int>) returns (id: int)
    requires Presented(fold, t, path, ids)
    ensures id in ids && Live(fold, t, Key(fold, path), id)
  {
    hide Live, Key;
    var n :| 0 <= n < |ids| && Live(fold, t, Key(fold, path), ids[n]);
    id := ids[n];
  }

  /** Safety of MOVE and COPY on locked files.  When one begins, the client has presented, for each
      of its files that is locked, an id issued for an equal name earlier in the run and held ever
      since.  That file is busy from then on exactly as long as no other event frees it, and as
      long as it is busy the id is held on it. */
  lemma CopyNeedsToken(fold: Fold, es: seq<Event>, e: Event, more: seq<Event>, file: Path) returns (id: int, s: nat)
    requires e.BeginCopy? && (file == e.src || file == e.dst)
    requires LockTable.BeginCopy(fold, Run(fold, es), e.src, e.dst, e.ids, e.srcOpens, e.dstOpens).1
    requires Key(fold, file) in Abs(fold, Run(fold, es).nodes)
    ensures id in e.ids && HeldSince(fold, es, s, Key(fold, file), id)
    ensures BusyThroughout(fold, es + [e], more, Key(fold, file)) <==> NoneFrees(fold, es + [e], more, Key(fold, file))
    ensures NoneFrees(fold, es + [e], more, Key(fold, file)) ==>
              HeldSince(fold, es + [e] + more, s, Key(fold, file), id)
  {
    hide Run, Abs, Key, LockTable.BeginCopy, Step, Busy, Live, Issues, Inv, NoneFrees, BusyThroughout, LiveThroughout;
    RunKeepsInv(fold, es);
    RunAppend(fold, es, e);
    id := PresentedAtBegin(fold, Run(fold, es), e, file);
    s := LiveHasOrigin(fold, es, Key(fold, file), id);
    RunKeepsBusy(fold, es + [e], more, Key(fold, file));
    if NoneFrees(fold, es + [e], more, Key(fold, file)) {
      HeldSinceExtends(fold, es, e, more, s, Key(fold, file), id);
    }
  }

  lemma HeldSinceExtends(fold: Fold, es: seq<Event>, e: Event, more: seq<Event>, s: nat, k: string, id: int)
    requires HeldSince(fold, es, s, k, id) && LiveThroughout(fold, es + [e], more, k, id)
    ensures HeldSince(fold, es + [e] + more, s, k, id)
  {
    hide Run, Live, Issues;
    var all := es + [e] + more;
    assert all[..s] == es[..s] && all[s] == es[s];
    forall j | s < j <= |all|
      ensures Live(fold, Run(fold, all[..j]), k, id)
    {
      if j <= |es| {
        assert all[..j] == es[..j];
      } else {
        assert all[..j] == es + [e] + more[..j - |es| - 1];
      }
    }
  }

  /** The table whose one file has the first lock. */
  function OneFile(p: Path, busy: bool): Table {
    Table([Node(p, DAV_LOCK_SHARED, busy, [Lock(DAV_INITIAL_LOCK_ID, 0)])], DAV_INITIAL_LOCK_ID + 1)
  }

  lemma OneFileIs(fold: Fold, p: Path, busy: bool)
    ensures Live(fold, OneFile(p, busy), Key(fold, p), DAV_INITIAL_LOCK_ID)
    ensures Busy(fold, OneFile(p, busy), Key(fold, p)) <==> busy
  {
    hide Key;
    var n := OneFile(p, busy).nodes[0];
    assert LockMap(n.locks) == LockMap(n.locks[1..])[DAV_INITIAL_LOCK_ID := 0];
    assert Abs(fold, [n]) == Abs(fold, [n][1..])[Key(fold, p) := FileOf(n)];
  }

  lemma OneFileBegins(fold: Fold, p: Path, q: Path, busy: bool)
    requires Key(fold, p) != Key(fold, q)
    ensures Step(fold, OneFile(p, busy), BeginCopy(p, q, [DAV_INITIAL_LOCK_ID], true, true)) == OneFile(p, true)
  {
    hide Key;
    var t := OneFile(p, busy);
    assert NodeAt(fold, t.nodes, p) == 0;
    assert NodeAt(fold, t.nodes, q) == 1;
    assert HasId(t.nodes[0].locks, [DAV_INITIAL_LOCK_ID][0]);
    assert SetBusy(fold, t, p, true) == OneFile(p, true);
  }

  lemma OneFileEnds(fold: Fold, p: Path, q: Path)
    ensures Step(fold, OneFile(p, true), EndCopy(p, q, true, false, false)) == OneFile(p, false)
    ensures Step(fold, OneFile(p, false), Unlock(DAV_INITIAL_LOCK_ID)).nodes == []
  {
    hide Key;
    assert NodeAt(fold, OneFile(p, true).nodes, p) == 0;
    assert LockAt(OneFile(p, false).nodes[0].locks, DAV_INITIAL_LOCK_ID) == 0;
    assert NodeWithId(OneFile(p, false).nodes, DAV_INITIAL_LOCK_ID) == 0;
  }

  /** So a file is not safe from a second user, because the busy flag has no count: when another COPY
      of it ends, an UNLOCK takes the file from the first, which is still under way. */
  lemma SecondUserFreesFile(fold: Fold, p: Path, q: Path, r: Path)
    requires Key(fold, p) != Key(fold, q) && Key(fold, p) != Key(fold, r)
    ensures var id := DAV_INITIAL_LOCK_ID;
            var es := [LockRequest(p, DAV_LOCK_SHARED, 0, Resources(true, true, true)), BeginCopy(p, q, [id], true, true)];
            var more := [BeginCopy(p, r, [id], true, true), EndCopy(p, r, true, false, false)];
            && Busy(fold, Run(fold, es), Key(fold, p)) && Live(fold, Run(fold, es + more), Key(fold, p), id)
            && Run(fold, es + more + [Unlock(id)]).nodes == []
  {
    var id := DAV_INITIAL_LOCK_ID;
    var lock, first := LockRequest(p, DAV_LOCK_SHARED, 0, Resources(true, true, true)), BeginCopy(p, q, [id], true, true);
    var second, end := BeginCopy(p, r, [id], true, true), EndCopy(p, r, true, false, false);
    assert Step(fold, EMPTY, lock) == OneFile(p, false) by { hide Key; }
    assert Run(fold, []) == EMPTY;
    hide Step, Run, Live, Busy, OneFile, Key;
    RunAppend(fold, [], lock);
    OneFileBegins(fold, p, q, false);
    RunAppend(fold, [lock], first);
    OneFileBegins(fold, p, r, true);
    RunAppend(fold, [lock, first], second);
    OneFileEnds(fold, p, r);
    RunAppend(fold, [lock, first, second], end);
    RunAppend(fold, [lock, first, second, end], Unlock(id));
    OneFileIs(fold, p, true);
    OneFileIs(fold, p, false);
    assert [] + [lock] == [lock] && [lock] + [first] == [lock, first];
    assert [lock, first, second] == [lock, first] + [second];
    assert [lock, first] + [second, end] == [lock, first, second] + [end];
  }

  lemma RunAppend(fold: Fold, es: seq<Event>, e: Event)
    ensures Run(fold, es + [e]) == Step(fold, Run(fold, es), e)
  {
    assert (es + [e])[..|es|] == es;
    hide Step;
  }

  /** An id once issued and gone is never held again. */
  lemma {:induction false} RetiredForGood(fold: Fold, es: seq<Event>, more: seq<Event>, id: int)
    requires id < Run(fold, es).nextId && Absent(Abs(fold, Run(fold, es).nodes), id)
    ensures id < Run(fold, es + more).nextId && Absent(Abs(fold, Run(fold, es + more).nodes), id)
    decreases |more|
  {
    hide Step, Abs, Absent, Inv, Run;
    if more == [] {
      assert es + more == es;
    } else {
      RunKeepsInv(fold, es);
      RunAppend(fold, es, more[0]);
      StepKeepsInv(fold, Run(fold, es), more[0]);
      StillAbsent(fold, Run(fold, es), more[0], id);
      assert es + more == (es + [more[0]]) + more[1..];
      RetiredForGood(fold, es + [more[0]], more[1..], id);
    }
  }

  lemma StillAbsent(fold: Fold, t: Table, e: Event, id: int)
    requires Inv(fold, t) && id < t.nextId && Absent(Abs(fold, t.nodes), id)
    ensures Absent(Abs(fold, Step(fold, t, e).nodes), id)
  {
    var m := Abs(fold, Step(fold, t, e).nodes);
    forall k | k in m
      ensures id !in m[k].locks
    {
      if Live(fold, Step(fold, t, e), k, id) {
        LiveAfterStep(fold, t, e, k, id);
        IssuedIsNext(fold, t, e, k, id);
      }
    }
  }

  lemma IssuedIsNext(fold: Fold, t: Table, e: Event, k: string, id: int)
    ensures Issues(fold, t, e, k, id) ==> id == t.nextId
  {
  }
}
