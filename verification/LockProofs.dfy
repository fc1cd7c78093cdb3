/** The lock table keeps its invariant and refines a map from files to their locks. */
module LockProofs {
  import opened PathNames
  import opened LockTable

  // ------------------------------------------------------------ list lemmas

  lemma HasIdMeaning(ls: seq<Lock>, id: int)
    ensures HasId(ls, id) <==> id in Ids(ls)
  {
  }

  lemma IdsConcat(a: seq<Lock>, b: seq<Lock>)
    ensures Ids(a + b) == Ids(a) + Ids(b)
  {
    forall id | id in Ids(a) + Ids(b)
      ensures id in Ids(a + b)
    {
      if id in Ids(a) {
        var k :| 0 <= k < |a| && a[k].id == id;
        assert (a + b)[k].id == id;
      } else {
        var k :| 0 <= k < |b| && b[k].id == id;
        assert (a + b)[|a| + k].id == id;
      }
    }
    forall id | id in Ids(a + b)
      ensures id in Ids(a) + Ids(b)
    {
      var k :| 0 <= k < |a + b| && (a + b)[k].id == id;
      if k < |a| { assert a[k].id == id; } else { assert b[k - |a|].id == id; }
    }
  }

  lemma SplitAt<T>(s: seq<T>, i: nat)
    requires i < |s|
    ensures s == s[..i] + [s[i]] + s[i + 1..]
  {
  }

  /** Taking one lock out of a list takes exactly its id out. */
  lemma IdsWithout(ls: seq<Lock>, i: nat)
    requires i < |ls| && DistinctIds(ls)
    ensures Ids(Without(ls, i)) == Ids(ls) - {ls[i].id} && DistinctIds(Without(ls, i))
  {
    SplitAt(ls, i);
    IdsConcat(ls[..i] + [ls[i]], ls[i + 1..]);
    IdsConcat(ls[..i], [ls[i]]);
    IdsConcat(ls[..i], ls[i + 1..]);
    assert Ids([ls[i]]) == {ls[i].id};
  }

  /** `from` picks elements of a list of length `n` in order. */
  ghost predicate Picks(from: seq<nat>, n: nat) {
    && (forall k :: 0 <= k < |from| ==> from[k] < n)
    && (forall j, k :: 0 <= j < k < |from| ==> from[j] < from[k])
  }

  /** Positions in a list, seen from the list with one more element in front. */
  function Shifted(from: seq<nat>): (r: seq<nat>)
    ensures |r| == |from| && forall k :: 0 <= k < |r| ==> r[k] == from[k] + 1
  {
    seq(|from|, k requires 0 <= k < |from| => from[k] + 1)
  }

  /** Positions picked from the rest of a list, and its head if `keep`. */
  function PickCons(keep: bool, rest: seq<nat>): seq<nat> {
    if keep then [0] + Shifted(rest) else Shifted(rest)
  }

  /** Where element `k` of the rest's picks ends up. */
  lemma PickConsTail(keep: bool, rest: seq<nat>, k: nat)
    requires k < |rest|
    ensures var at := if keep then k + 1 else k;
            at < |PickCons(keep, rest)| && PickCons(keep, rest)[at] == rest[k] + 1
  {
  }

  lemma PickConsHead(keep: bool, rest: seq<nat>)
    ensures |PickCons(keep, rest)| == (if keep then |rest| + 1 else |rest|)
    ensures keep ==> PickCons(keep, rest)[0] == 0
  {
  }

  lemma ShiftedMember(rest: seq<nat>, i: nat)
    ensures i in Shifted(rest) <==> i > 0 && i - 1 in rest
  {
    if i > 0 && i - 1 in rest {
      var k :| 0 <= k < |rest| && rest[k] == i - 1;
      assert Shifted(rest)[k] == i;
    }
  }

  lemma PickConsMember(keep: bool, rest: seq<nat>, i: nat)
    ensures i in PickCons(keep, rest) <==> if i == 0 then keep else i - 1 in rest
  {
    ShiftedMember(rest, i);
    hide Shifted;
    assert i in [0] + Shifted(rest) <==> i == 0 || i in Shifted(rest);
  }

  lemma PickConsPicks(keep: bool, rest: seq<nat>, n: nat)
    requires Picks(rest, n)
    ensures Picks(PickCons(keep, rest), n + 1)
  {
  }

  lemma PickConsMeaning(keep: bool, rest: seq<nat>, n: nat)
    requires Picks(rest, n)
    ensures Picks(PickCons(keep, rest), n + 1)
    ensures forall i: nat :: i in PickCons(keep, rest) <==> if i == 0 then keep else i - 1 in rest
  {
    PickConsPicks(keep, rest, n);
    hide PickCons, Picks;
    forall i: nat
      ensures i in PickCons(keep, rest) <==> if i == 0 then keep else i - 1 in rest
    {
      PickConsMember(keep, rest, i);
    }
  }

  lemma PickedConsElements<T>(s: seq<T>, keep: bool, rest: seq<nat>, picked: seq<T>)
    requires s != [] && Picks(rest, |s| - 1) && |picked| == |rest|
    requires forall k :: 0 <= k < |rest| ==> picked[k] == s[1..][rest[k]]
    ensures Picks(PickCons(keep, rest), |s|)
    ensures var all := if keep then [s[0]] + picked else picked;
            var from := PickCons(keep, rest);
            |all| == |from| && forall k :: 0 <= k < |from| ==> all[k] == s[from[k]]
  {
    PickConsPicks(keep, rest, |s| - 1);
    PickConsHead(keep, rest);
    var all := if keep then [s[0]] + picked else picked;
    var from := PickCons(keep, rest);
    hide PickCons, Picks;
    forall k | 0 <= k < |from|
      ensures from[k] < |s| && all[k] == s[from[k]]
    {
      if !keep || k > 0 {
        var j := if keep then k - 1 else k;
        PickInRange(rest, |s| - 1, j);
        PickConsTail(keep, rest, j);
        assert picked[j] == s[1..][rest[j]] == s[rest[j] + 1];
      }
    }
  }

  lemma PickInRange(from: seq<nat>, n: nat, k: nat)
    requires Picks(from, n) && k < |from|
    ensures from[k] < n
  {
  }

  /** The unexpired locks are exactly the locks not past their expiry, in list order. */
  lemma {:induction false} UnexpiredFrom(ls: seq<Lock>, now: int) returns (from: seq<nat>)
    ensures Picks(from, |ls|) && |from| == |Unexpired(ls, now)|
    ensures forall k :: 0 <= k < |from| ==> Unexpired(ls, now)[k] == ls[from[k]]
    ensures forall i :: 0 <= i < |ls| ==> (i in from <==> now <= ls[i].expires)
  {
    if ls == [] {
      from := [];
    } else {
      var rest := UnexpiredFrom(ls[1..], now);
      var keep := now <= ls[0].expires;
      PickConsMeaning(keep, rest, |ls| - 1);
      PickedConsElements(ls, keep, rest, Unexpired(ls[1..], now));
      from := PickCons(keep, rest);
      hide Picks, PickCons;
      assert forall i :: 0 < i < |ls| ==> ls[1..][i - 1] == ls[i];
    }
  }

  lemma UnexpiredIds(ls: seq<Lock>, now: int)
    requires DistinctIds(ls)
    ensures DistinctIds(Unexpired(ls, now)) && Ids(Unexpired(ls, now)) <= Ids(ls)
    ensures |Unexpired(ls, now)| <= |ls|
  {
    var us := Unexpired(ls, now);
    var from := UnexpiredFrom(ls, now);
    assert forall j, k :: 0 <= j < k < |us| ==> from[j] < from[k] && us[j].id != us[k].id;
    PicksBound(from, |ls|);
  }

  lemma {:induction false} PicksBound(from: seq<nat>, n: nat)
    requires Picks(from, n)
    ensures |from| <= n
  {
    if from != [] {
      PicksBound(from[..|from| - 1], from[|from| - 1]);
    }
  }

  // ------------------------------------------------------ keeping the invariant

  /** `n` may stand in for node `i`: same name, no foreign ids except ones not yet issued. */
  ghost predicate Replaces(t: Table, i: nat, n: Node, nextId: int)
    requires i < |t.nodes|
  {
    && n.path == t.nodes[i].path && t.nextId <= nextId && NodeOk(n, nextId)
    && forall id :: id in Ids(n.locks) ==> id in Ids(t.nodes[i].locks) || id >= t.nextId
  }

  lemma NodeOkLater(n: Node, a: int, b: int)
    requires NodeOk(n, a) && a <= b
    ensures NodeOk(n, b)
  {
  }

  lemma ReplaceKeepsInv(fold: Fold, t: Table, i: nat, n: Node, nextId: int)
    requires Inv(fold, t) && i < |t.nodes| && Replaces(t, i, n, nextId)
    ensures Inv(fold, Table(t.nodes[i := n], nextId))
  {
    var ns := t.nodes[i := n];
    forall j | 0 <= j < |ns|
      ensures NodeOk(ns[j], nextId)
    {
      if j != i { NodeOkLater(t.nodes[j], t.nextId, nextId); }
    }
    forall j, k | 0 <= j < k < |ns|
      ensures Apart(fold, ns[j], ns[k])
    {
      assert Apart(fold, t.nodes[j], t.nodes[k]);
      assert NodeOk(t.nodes[j], t.nextId) && NodeOk(t.nodes[k], t.nextId);
    }
  }

  lemma WithoutKeepsInv(fold: Fold, t: Table, i: nat)
    requires Inv(fold, t) && i < |t.nodes|
    ensures Inv(fold, t.(nodes := Without(t.nodes, i)))
  {
    hide NodeOk, Apart;
  }

  lemma PrependKeepsInv(fold: Fold, t: Table, n: Node, nextId: int)
    requires Inv(fold, t) && t.nextId <= nextId && NodeOk(n, nextId)
    requires forall k :: 0 <= k < |t.nodes| ==> Key(fold, t.nodes[k].path) != Key(fold, n.path)
    requires forall id :: id in Ids(n.locks) ==> id >= t.nextId
    ensures Inv(fold, Table([n] + t.nodes, nextId))
  {
    var ns := [n] + t.nodes;
    forall j | 0 <= j < |ns|
      ensures NodeOk(ns[j], nextId)
    {
      if j > 0 { NodeOkLater(t.nodes[j - 1], t.nextId, nextId); }
    }
    forall j, k | 0 <= j < k < |ns|
      ensures Apart(fold, ns[j], ns[k])
    {
      assert NodeOk(t.nodes[k - 1], t.nextId);
      if j > 0 { assert Apart(fold, t.nodes[j - 1], t.nodes[k - 1]); }
    }
  }

  lemma LaterKeepsInv(fold: Fold, t: Table)
    requires Inv(fold, t)
    ensures Inv(fold, t.(nextId := t.nextId + 1))
  {
    forall j | 0 <= j < |t.nodes|
      ensures NodeOk(t.nodes[j], t.nextId + 1)
    {
      NodeOkLater(t.nodes[j], t.nextId, t.nextId + 1);
    }
  }

  lemma CreateKeepsInv(fold: Fold, t: Table, path: Path, mode: ShareMode, expires: int, res: Resources)
    requires Inv(fold, t)
    ensures Inv(fold, CreateLock(fold, t, path, mode, expires, res).0)
  {
    LaterKeepsInv(fold, t);
    var i := NodeAt(fold, t.nodes, path);
    var l := Lock(t.nextId, expires);
    assert [l][0].id == t.nextId && Ids([l]) == {t.nextId};
    if i < |t.nodes| {
      var n := t.nodes[i];
      var n' := n.(locks := [l] + n.locks);
      IdsConcat([l], n.locks);
      assert NodeOk(n, t.nextId);
      if n.mode == DAV_LOCK_SHARED {
        assert DistinctIds(n'.locks) by { assert forall k :: 0 <= k < |n.locks| ==> n.locks[k].id in Ids(n.locks); }
        ReplaceKeepsInv(fold, t, i, n', t.nextId + 1);
      }
    } else if mode != DAV_LOCK_UNKNOWN {
      PrependKeepsInv(fold, t, Node(path, mode, false, [l]), t.nextId + 1);
    }
  }

  lemma DeleteKeepsInv(fold: Fold, t: Table, id: int)
    requires Inv(fold, t)
    ensures Inv(fold, DeleteLock(t, id).0)
  {
    var i := NodeWithId(t.nodes, id);
    if i < |t.nodes| {
      var n := t.nodes[i];
      var k := LockAt(n.locks, id);
      assert NodeOk(n, t.nextId);
      IdsWithout(n.locks, k);
      if |n.locks| == 1 {
        WithoutKeepsInv(fold, t, i);
      } else {
        ReplaceKeepsInv(fold, t, i, n.(locks := Without(n.locks, k)), t.nextId);
      }
    }
  }

  lemma IdsUpdate(ls: seq<Lock>, k: nat, expires: int)
    requires k < |ls|
    ensures Ids(ls[k := Lock(ls[k].id, expires)]) == Ids(ls)
    ensures DistinctIds(ls) ==> DistinctIds(ls[k := Lock(ls[k].id, expires)])
  {
    var ls' := ls[k := Lock(ls[k].id, expires)];
    forall id | id in Ids(ls) ensures id in Ids(ls') {
      var j :| 0 <= j < |ls| && ls[j].id == id;
      assert ls'[j].id == id;
    }
    assert forall j :: 0 <= j < |ls'| ==> ls'[j].id == ls[j].id;
  }

  lemma RefreshKeepsInv(fold: Fold, t: Table, path: Path, id: int, expires: int)
    requires Inv(fold, t)
    ensures Inv(fold, RefreshLock(fold, t, path, id, expires))
  {
    var i := NodeAt(fold, t.nodes, path);
    if i < |t.nodes| && HasId(t.nodes[i].locks, id) {
      var n := t.nodes[i];
      assert NodeOk(n, t.nextId);
      IdsUpdate(n.locks, LockAt(n.locks, id), expires);
      ReplaceKeepsInv(fold, t, i, n.(locks := n.locks[LockAt(n.locks, id) := Lock(id, expires)]), t.nextId);
    }
  }

  lemma SetBusyKeepsInv(fold: Fold, t: Table, path: Path, b: bool)
    requires Inv(fold, t)
    ensures Inv(fold, SetBusy(fold, t, path, b))
  {
    var i := NodeAt(fold, t.nodes, path);
    if i < |t.nodes| {
      assert NodeOk(t.nodes[i], t.nextId);
      ReplaceKeepsInv(fold, t, i, t.nodes[i].(busy := b), t.nextId);
    }
  }

  lemma SweptNodeOk(n: Node, nextId: int, now: int)
    requires NodeOk(n, nextId)
    ensures SweepNode(n, now).path == n.path && Ids(SweepNode(n, now).locks) <= Ids(n.locks)
    ensures SweepNode(n, now).locks != [] ==> NodeOk(SweepNode(n, now), nextId)
  {
    UnexpiredIds(n.locks, now);
  }

  function AllSwept(ns: seq<Node>, now: int): (r: seq<Node>)
    ensures |r| == |ns| && forall i :: 0 <= i < |ns| ==> r[i] == SweepNode(ns[i], now)
  {
    seq(|ns|, i requires 0 <= i < |ns| => SweepNode(ns[i], now))
  }

  lemma AllSweptTail(ns: seq<Node>, now: int)
    requires ns != []
    ensures AllSwept(ns, now)[1..] == AllSwept(ns[1..], now)
  {
  }

  /** The swept list is exactly the nodes with locks left, in list order. */
  lemma {:induction false} SweptFrom(ns: seq<Node>, now: int) returns (from: seq<nat>)
    ensures Picks(from, |ns|) && |from| == |SweepNodes(ns, now)|
    ensures forall k :: 0 <= k < |from| ==> SweepNodes(ns, now)[k] == AllSwept(ns, now)[from[k]]
    ensures forall i :: 0 <= i < |ns| ==> (i in from <==> AllSwept(ns, now)[i].locks != [])
  {
    if ns == [] {
      from := [];
    } else {
      hide PickCons, Picks;
      var rest := SweptFrom(ns[1..], now);
      var all := AllSwept(ns, now);
      AllSweptTail(ns, now);
      assert all[0] == SweepNode(ns[0], now);
      hide AllSwept, SweepNode;
      var keep := all[0].locks != [];
      PickConsMeaning(keep, rest, |ns| - 1);
      PickedConsElements(all, keep, rest, SweepNodes(ns[1..], now));
      from := PickCons(keep, rest);
      forall i | 0 <= i < |ns|
        ensures i in from <==> all[i].locks != []
      {
        if i > 0 { assert all[1..][i - 1] == all[i]; }
      }
    }
  }

  lemma SweepKeepsInv(fold: Fold, t: Table, now: int)
    requires Inv(fold, t)
    ensures Inv(fold, Sweep(t, now))
  {
    var ns := SweepNodes(t.nodes, now);
    var from := SweptFrom(t.nodes, now);
    forall k | 0 <= k < |ns|
      ensures NodeOk(ns[k], t.nextId)
    {
      assert from[k] in from && ns[k] == AllSwept(t.nodes, now)[from[k]];
      SweptNodeOk(t.nodes[from[k]], t.nextId, now);
    }
    forall j, k | 0 <= j < k < |ns|
      ensures Apart(fold, ns[j], ns[k])
    {
      assert from[j] < from[k];
      assert Apart(fold, t.nodes[from[j]], t.nodes[from[k]]);
      SweptNodeOk(t.nodes[from[j]], t.nextId, now);
      SweptNodeOk(t.nodes[from[k]], t.nextId, now);
    }
  }

  lemma RemoveKeepsInv(fold: Fold, t: Table, path: Path)
    requires Inv(fold, t)
    ensures Inv(fold, RemoveFile(fold, t, path))
  {
    var i := NodeAt(fold, t.nodes, path);
    if i < |t.nodes| { WithoutKeepsInv(fold, t, i); }
  }

  lemma BeginCopyKeepsInv(fold: Fold, t: Table, src: Path, dst: Path, ids: seq<int>, srcOpens: bool, dstOpens: bool)
    requires Inv(fold, t)
    ensures Inv(fold, BeginCopy(fold, t, src, dst, ids, srcOpens, dstOpens).0)
  {
    hide Inv, SetBusy, CanPerform;
    forall ok: bool
      ensures Inv(fold, SetBusy(fold, SetBusy(fold, t, src, ok), dst, ok))
    {
      SetBusyKeepsInv(fold, t, src, ok);
      SetBusyKeepsInv(fold, SetBusy(fold, t, src, ok), dst, ok);
    }
  }

  lemma EndCopyKeepsInv(fold: Fold, t: Table, src: Path, dst: Path, srcLocked: bool, dstLocked: bool, moved: bool)
    requires Inv(fold, t)
    ensures Inv(fold, EndCopy(fold, t, src, dst, srcLocked, dstLocked, moved))
  {
    hide Inv, SetBusy, RemoveFile;
    var t1 := if srcLocked then SetBusy(fold, t, src, false) else t;
    SetBusyKeepsInv(fold, t, src, false);
    var t2 := if dstLocked then SetBusy(fold, t1, dst, false) else t1;
    SetBusyKeepsInv(fold, t1, dst, false);
    RemoveKeepsInv(fold, t2, src);
  }
}
