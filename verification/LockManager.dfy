/** The lock manager's two-level linked lists, spliced in place
    (PRIVATE/SERVERS/HTTP/WEBDAV/davlock.h and davlock.cpp), proved against `LockTable`.
    Each public method is one critical section of the manager's lock. */
module LockManager {
  import opened Text
  import opened PathNames
  import opened LockTable

  /** FILETIME_TO_MILLISECONDS */
  const FILETIME_TO_MILLISECONDS := 10000

  /** When a lock made at `now` with a 32-bit number of seconds to live expires. */
  function ExpiresAt(now: int, seconds: int): int {
    now + (seconds * 1000 % 0x1_0000_0000) * FILETIME_TO_MILLISECONDS
  }

  /** The longest time to live, in seconds, whose milliseconds fit 32 bits. */
  const MAX_TIMEOUT := 0xFFFF_FFFF / 1000

  /** The expiry is that many seconds after `now` exactly up to the longest time; a longer one
      ends early. */
  lemma TimeoutIsExact(now: int, seconds: nat)
    ensures ExpiresAt(now, seconds) == now + seconds * 10_000_000 <==> seconds <= MAX_TIMEOUT
    ensures seconds > MAX_TIMEOUT ==> ExpiresAt(now, seconds) < now + seconds * 10_000_000
  {
  }

  /** Files are found by name, whatever their busy flags. */
  lemma SameNames(fold: Fold, ns: seq<Node>, i: nat, b: bool, path: Path)
    requires i < |ns|
    ensures NodeAt(fold, ns[i := ns[i].(busy := b)], path) == NodeAt(fold, ns, path)
  {
    hide Key;
    var ns' := ns[i := ns[i].(busy := b)];
    assert forall j :: 0 <= j < |ns| ==> ns'[j].path == ns[j].path;
    var k, k' := NodeAt(fold, ns, path), NodeAt(fold, ns', path);
    assert k < |ns| ==> Key(fold, ns'[k].path) == Key(fold, path);
    assert k' < |ns| ==> Key(fold, ns[k'].path) == Key(fold, path);
  }

  // ---------------------------------------------------------------- one lock

  class CWebDavLock {
    var m_pNext: CWebDavLock?
    var m_i64LockId: int
    var m_ftExpires: int
    var m_dwBaseTimeout: int

    constructor (iLockId: int, ftNow: int, dwBaseTimeout: int)
      ensures m_pNext == null && View() == Lock(iLockId, ExpiresAt(ftNow, dwBaseTimeout))
    {
      m_pNext := null;
      m_i64LockId := iLockId;
      m_ftExpires := ExpiresAt(ftNow, dwBaseTimeout);
      m_dwBaseTimeout := dwBaseTimeout;
    }

    function View(): Lock
      reads this
    {
      Lock(m_i64LockId, m_ftExpires)
    }

    predicate HasLockExpired(ftNow: int)
      reads this
    {
      ftNow > m_ftExpires
    }

    /** The lock counts as expired exactly when more than the seconds asked for have passed, for
        every time the server uses: clients' are cut to a day, and its own is a DWORD of
        milliseconds divided by 1000. */
    method SetTimeout(ftNow: int, dwSecondsToLive: int)
      modifies `m_ftExpires, `m_dwBaseTimeout
      ensures m_ftExpires == ExpiresAt(ftNow, dwSecondsToLive) && m_dwBaseTimeout == dwSecondsToLive
      ensures 0 <= dwSecondsToLive <= MAX_TIMEOUT ==>
                forall ft :: HasLockExpired(ft) <==> ft - ftNow > dwSecondsToLive * 10_000_000
    {
      m_ftExpires := ExpiresAt(ftNow, dwSecondsToLive);
      m_dwBaseTimeout := dwSecondsToLive;
    }
  }

  function LockOrNull(ls: seq<CWebDavLock>, i: nat): CWebDavLock? {
    if i < |ls| then ls[i] else null
  }

  ghost predicate Distinct<T>(s: seq<T>) {
    forall i, j :: 0 <= i < j < |s| ==> s[i] != s[j]
  }

  /** `head` is the first of the locks `ls`, linked in that order. */
  ghost predicate LockList(head: CWebDavLock?, ls: seq<CWebDavLock>)
    reads ls
  {
    && head == LockOrNull(ls, 0)
    && Distinct(ls)
    && forall i {:trigger ls[i].m_pNext} :: 0 <= i < |ls| ==> ls[i].m_pNext == LockOrNull(ls, i + 1)
  }

  /** The same for the front part of a list that goes on with `end`. */
  ghost predicate LockChain(head: CWebDavLock?, ls: seq<CWebDavLock>, end: CWebDavLock?)
    reads ls
  {
    && head == (if ls == [] then end else ls[0])
    && Distinct(ls)
    && forall i {:trigger ls[i].m_pNext} :: 0 <= i < |ls| ==>
         ls[i].m_pNext == if i + 1 < |ls| then ls[i + 1] else end
  }

  ghost function LockViews(ls: seq<CWebDavLock>): (r: seq<Lock>)
    reads ls
    ensures |r| == |ls| && forall i :: 0 <= i < |ls| ==> r[i] == ls[i].View()
  {
    seq(|ls|, i requires 0 <= i < |ls| reads ls => ls[i].View())
  }

  lemma ConsIsList(p: CWebDavLock, ls: seq<CWebDavLock>)
    requires LockList(p.m_pNext, ls) && p !in ls
    ensures LockList(p, [p] + ls)
  {
    var all := [p] + ls;
    forall i | 0 <= i < |all|
      ensures all[i].m_pNext == LockOrNull(all, i + 1)
    {
      if i > 0 { assert all[i] == ls[i - 1]; }
    }
  }

  lemma ConsViews(p: CWebDavLock, ls: seq<CWebDavLock>)
    ensures LockViews([p] + ls) == [p.View()] + LockViews(ls)
  {
  }

  /** The links of a list out of which element `k` has been spliced. */
  ghost predicate Spliced(head: CWebDavLock?, ls: seq<CWebDavLock>, k: nat)
    requires k < |ls|
    reads ls
  {
    && Distinct(ls)
    && head == (if k == 0 then LockOrNull(ls, 1) else ls[0])
    && forall i {:trigger ls[i].m_pNext} :: 0 <= i < |ls| && i != k ==>
         ls[i].m_pNext == if i == k - 1 then LockOrNull(ls, k + 1) else LockOrNull(ls, i + 1)
  }

  lemma SplicedIsList(head: CWebDavLock?, ls: seq<CWebDavLock>, k: nat)
    requires k < |ls| && Spliced(head, ls, k)
    ensures LockList(head, Without(ls, k))
  {
    var rest := Without(ls, k);
    DistinctWithout(ls, k);
    forall i | 0 <= i < |rest|
      ensures rest[i].m_pNext == LockOrNull(rest, i + 1)
    {
      if i < k { assert rest[i] == ls[i]; } else { assert rest[i] == ls[i + 1]; }
    }
  }

  lemma ChainIsList(head: CWebDavLock?, ls: seq<CWebDavLock>)
    requires LockChain(head, ls, null)
    ensures LockList(head, ls)
  {
  }

  lemma ChainExtends(head: CWebDavLock?, ls: seq<CWebDavLock>, p: CWebDavLock)
    requires LockChain(head, ls, p) && p !in ls
    ensures LockChain(head, ls + [p], p.m_pNext)
  {
    var all := ls + [p];
    forall i | 0 <= i < |all|
      ensures all[i].m_pNext == if i + 1 < |all| then all[i + 1] else p.m_pNext
    {
      if i < |ls| { assert all[i] == ls[i]; }
    }
  }

  lemma ViewsExtend(ls: seq<CWebDavLock>, p: CWebDavLock)
    ensures LockViews(ls + [p]) == LockViews(ls) + [p.View()]
  {
  }

  /** The links of the list from lock `i` on. */
  ghost predicate LockLinksFrom(ls: seq<CWebDavLock>, i: nat)
    reads ls
  {
    forall j {:trigger ls[j].m_pNext} :: i <= j < |ls| ==> ls[j].m_pNext == LockOrNull(ls, j + 1)
  }

  ghost predicate LocksLeft(ls: seq<CWebDavLock>, kept: seq<CWebDavLock>, i: nat) {
    forall j :: i <= j < |ls| ==> ls[j] !in kept
  }

  lemma LockLinkAt(ls: seq<CWebDavLock>, i: nat)
    requires LockLinksFrom(ls, i) && i < |ls|
    ensures ls[i].m_pNext == LockOrNull(ls, i + 1) && LockLinksFrom(ls, i + 1)
  {
  }

  lemma LocksLeftNext(ls: seq<CWebDavLock>, kept: seq<CWebDavLock>, i: nat)
    requires Distinct(ls) && LocksLeft(ls, kept, i) && i < |ls|
    ensures ls[i] !in kept && LocksLeft(ls, kept, i + 1) && LocksLeft(ls, kept + [ls[i]], i + 1)
  {
  }

  /** The sweep of a list, one lock at a time. */
  lemma UnexpiredStep(done: seq<Lock>, all: seq<Lock>, i: nat, now: int)
    requires i < |all|
    ensures (if now > all[i].expires then done else done + [all[i]]) + Unexpired(all[i + 1..], now) ==
              done + Unexpired(all[i..], now)
  {
    assert all[i..][1..] == all[i + 1..];
  }

  lemma UnexpiredDone(done: seq<Lock>, all: seq<Lock>, now: int)
    ensures done + Unexpired(all[|all|..], now) == done
  {
  }

  lemma DistinctWithout<T>(s: seq<T>, k: nat)
    requires k < |s| && Distinct(s)
    ensures Distinct(Without(s, k))
    ensures forall x :: x in Without(s, k) <==> x in s && x != s[k]
  {
    var r := Without(s, k);
    assert forall i :: 0 <= i < |r| ==> r[i] == s[if i < k then i else i + 1];
    forall x | x in s && x != s[k]
      ensures x in r
    {
      var i :| 0 <= i < |s| && s[i] == x;
      assert r[if i < k then i else i - 1] == x;
    }
  }

  lemma LockAtIs(ls: seq<Lock>, id: int, i: nat)
    requires i <= |ls| && (i < |ls| ==> ls[i].id == id)
    requires forall k :: 0 <= k < i ==> ls[k].id != id
    ensures LockAt(ls, id) == i
  {
  }

  // ------------------------------------------------------------- one file node

  class CWebDavFileNode {
    var m_pNext: CWebDavFileNode?
    var m_pLockList: CWebDavLock?
    var m_szFileName: Path
    var m_lockShareMode: ShareMode
    var m_fBusy: bool
    ghost var locks: seq<CWebDavLock>  // the list behind m_pLockList

    constructor (szFile: Path, lockShareMode: ShareMode)
      ensures Valid() && locks == [] && m_pNext == null
      ensures View() == Node(szFile, lockShareMode, false, [])
    {
      m_szFileName := szFile;
      m_lockShareMode := lockShareMode;
      m_fBusy := false;
      m_pNext := null;
      m_pLockList := null;
      locks := [];
    }

    ghost predicate Valid()
      reads this, locks
    {
      LockList(m_pLockList, locks)
    }

    ghost function View(): Node
      reads this, locks
    {
      Node(m_szFileName, m_lockShareMode, m_fBusy, LockViews(locks))
    }

    /** Finds a lock by its id. */
    method HasLockId(iLockId: int) returns (found: bool, pLock: CWebDavLock?)
      requires Valid()
      ensures var i := LockAt(View().locks, iLockId);
              found == HasId(View().locks, iLockId) && pLock == LockOrNull(locks, i)
    {
      pLock := m_pLockList;
      ghost var i := 0;
      while pLock != null
        invariant 0 <= i <= |locks| && pLock == LockOrNull(locks, i)
        invariant forall k :: 0 <= k < i ==> View().locks[k].id != iLockId
        decreases |locks| - i
      {
        if pLock.m_i64LockId == iLockId {
          LockAtIs(View().locks, iLockId, i);
          return true, pLock;
        }
        pLock := pLock.m_pNext;
        i := i + 1;
      }
      LockAtIs(View().locks, iLockId, i);
      found := false;
    }

    /** HasLockIdInArray */
    method HasLockIdInArray(ids: seq<int>) returns (found: bool)
      requires Valid()
      ensures found == HasAnyId(View().locks, ids)
    {
      var i := 0;
      while i < |ids|
        invariant 0 <= i <= |ids|
        invariant forall k :: 0 <= k < i ==> !HasId(View().locks, ids[k])
      {
        var has, _ := HasLockId(ids[i]);
        if has { return true; }
        i := i + 1;
      }
      found := false;
    }

    /** AddLock: a new lock at the front of the list. */
    method AddLock(iLockId: int, ftNow: int, dwBaseTimeout: int)
      requires Valid()
      modifies `m_pLockList, `locks
      ensures Valid() && |locks| == |old(locks)| + 1 && fresh(locks[0]) && locks == [locks[0]] + old(locks)
      ensures View() == old(View()).(locks := [Lock(iLockId, ExpiresAt(ftNow, dwBaseTimeout))] + old(View().locks))
    {
      var pLock := new CWebDavLock(iLockId, ftNow, dwBaseTimeout);
      pLock.m_pNext := m_pLockList;
      m_pLockList := pLock;
      ghost var was := locks;
      locks := [pLock] + was;
      ConsIsList(pLock, was);
      ConsViews(pLock, was);
    }

    /** DeleteLock: splices lock `k` of the list out, unless the file is in use. */
    method DeleteLock(pLockList: CWebDavLock, ghost k: nat) returns (ok: bool)
      requires Valid() && k < |locks| && locks[k] == pLockList
      modifies this, locks
      ensures m_pNext == old(m_pNext)
      ensures ok == !old(m_fBusy)
      ensures !ok ==> locks == old(locks) && Valid() && View() == old(View())
      ensures ok ==> locks == Without(old(locks), k) && Valid()
      ensures ok ==> View() == old(View()).(locks := Without(old(View().locks), k))
    {
      if m_fBusy { return false; }
      var pTrav, pFollow: CWebDavLock? := m_pLockList, null;
      ghost var i := 0;
      while pTrav != null && pTrav != pLockList
        invariant 0 <= i <= k
        invariant pTrav == LockOrNull(locks, i)
        invariant pFollow == if i == 0 then null else locks[i - 1]
        decreases k - i
      {
        pFollow := pTrav;
        pTrav := pTrav.m_pNext;
        i := i + 1;
      }
      assert i == k;
      SpliceOut(pTrav, pFollow, k);
      ok := true;
    }

    method SpliceOut(pTrav: CWebDavLock, pFollow: CWebDavLock?, ghost k: nat)
      requires Valid() && k < |locks| && locks[k] == pTrav && pFollow == if k == 0 then null else locks[k - 1]
      modifies `m_pLockList, `locks, locks`m_pNext
      ensures locks == Without(old(locks), k) && Valid()
      ensures LockViews(locks) == Without(old(LockViews(locks)), k)
    {
      if pFollow != null {
        pFollow.m_pNext := pTrav.m_pNext;
      } else {
        m_pLockList := pTrav.m_pNext;
      }
      ghost var was := locks;
      locks := Without(was, k);
      SplicedIsList(m_pLockList, was, k);
    }

    /** Makes the list behind `kept` go on with `pNext`. */
    method Relink(pFollow: CWebDavLock?, ghost pTrav: CWebDavLock, pNext: CWebDavLock?, ghost kept: seq<CWebDavLock>,
                  ghost was: seq<CWebDavLock>, ghost i: nat)
      requires LockChain(m_pLockList, kept, pTrav) && LockLinksFrom(was, i) && LocksLeft(was, kept, i)
      requires pFollow == if kept == [] then null else kept[|kept| - 1]
      modifies `m_pLockList, (if pFollow == null then {} else {pFollow})`m_pNext
      ensures LockChain(m_pLockList, kept, pNext) && LockViews(kept) == old(LockViews(kept))
      ensures LockLinksFrom(was, i) && LockViews(was) == old(LockViews(was))
    {
      if pFollow != null {
        pFollow.m_pNext := pNext;
      } else {
        m_pLockList := pNext;
      }
    }

    /** The sweep has kept `kept` of the first `i` locks of `was` and stands at `pTrav`. */
    ghost predicate Sweeping(was: seq<CWebDavLock>, views: seq<Lock>, kept: seq<CWebDavLock>, i: nat, ftNow: int,
                             pTrav: CWebDavLock?, pFollow: CWebDavLock?)
      reads this, was, kept
    {
      && i <= |was| == |views| && Distinct(was)
      && pTrav == LockOrNull(was, i)
      && pFollow == (if kept == [] then null else kept[|kept| - 1])
      && LockLinksFrom(was, i) && LocksLeft(was, kept, i)
      && (forall l :: l in kept ==> l in was)
      && LockChain(m_pLockList, kept, pTrav)
      && LockViews(was) == views
      && LockViews(kept) + Unexpired(views[i..], ftNow) == Unexpired(views, ftNow)
    }

    /** One lock of the sweep: spliced out if it has expired, else kept. */
    method SweepStep(ghost was: seq<CWebDavLock>, ghost views: seq<Lock>, ghost kept: seq<CWebDavLock>, ghost i: nat,
                     ftNow: int, pTrav: CWebDavLock, pFollow: CWebDavLock?)
      returns (pNext: CWebDavLock?, pFollow': CWebDavLock?, ghost kept': seq<CWebDavLock>)
      requires Sweeping(was, views, kept, i, ftNow, pTrav, pFollow)
      modifies `m_pLockList, was
      ensures i < |was| && Sweeping(was, views, kept', i + 1, ftNow, pNext, pFollow')
    {
      hide Unexpired, LockChain, LockViews, LockLinksFrom, LocksLeft;
      LockLinkAt(was, i);
      LocksLeftNext(was, kept, i);
      pNext, pFollow', kept' := pTrav.m_pNext, pFollow, kept;
      ViewAt(was, i);
      UnexpiredStep(LockViews(kept), views, i, ftNow);
      if pTrav.HasLockExpired(ftNow) {
        if pFollow != null { assert pFollow in kept && pFollow in was; }
        Relink(pFollow, pTrav, pNext, kept, was, i + 1);
      } else {
        ChainExtends(m_pLockList, kept, pTrav);
        ViewsExtend(kept, pTrav);
        kept' := kept + [pTrav];
        pFollow' := pTrav;
      }
    }

    /** RemoveTimedOutLocks: splices out every expired lock, unless the file is in use. */
    method RemoveTimedOutLocks(ftNow: int)
      requires Valid()
      modifies this, locks
      ensures Valid() && m_pNext == old(m_pNext) && View() == SweepNode(old(View()), ftNow)
      ensures forall l :: l in locks ==> l in old(locks)
    {
      if !m_fBusy {
        ghost var kept := SweepList(ftNow);
        locks := kept;
      }
    }

    method SweepList(ftNow: int) returns (ghost kept: seq<CWebDavLock>)
      requires Valid()
      modifies `m_pLockList, locks
      ensures LockList(m_pLockList, kept) && LockViews(kept) == Unexpired(old(LockViews(locks)), ftNow)
      ensures forall l :: l in kept ==> l in locks
    {
      hide Unexpired, LockChain, LockViews, Sweeping, LockList;
      ghost var was, views := locks, LockViews(locks);
      ghost var i := 0;
      kept := [];
      var pTrav, pFollow: CWebDavLock? := m_pLockList, null;
      SweepBegins(ftNow);
      while pTrav != null
        invariant i <= |was| && Sweeping(was, views, kept, i, ftNow, pTrav, pFollow)
        decreases |was| - i
      {
        pTrav, pFollow, kept := SweepStep(was, views, kept, i, ftNow, pTrav, pFollow);
        i := i + 1;
      }
      SweepEnds(was, views, kept, i, ftNow, pFollow);
    }

    lemma SweepBegins(ftNow: int)
      requires Valid()
      ensures Sweeping(locks, LockViews(locks), [], 0, ftNow, m_pLockList, null)
    {
      ChainStarts(m_pLockList);
      UnexpiredStarts(LockViews(locks), ftNow);
      hide Unexpired;
    }

    lemma SweepEnds(was: seq<CWebDavLock>, views: seq<Lock>, kept: seq<CWebDavLock>, i: nat, ftNow: int,
                    pFollow: CWebDavLock?)
      requires Sweeping(was, views, kept, i, ftNow, null, pFollow)
      ensures LockList(m_pLockList, kept) && LockViews(kept) == Unexpired(views, ftNow)
      ensures forall l :: l in kept ==> l in was
    {
      hide Unexpired, LockViews;
      UnexpiredDone(LockViews(kept), views, ftNow);
      ChainIsList(m_pLockList, kept);
    }
  }

  lemma ViewAt(ls: seq<CWebDavLock>, i: nat)
    requires i < |ls|
    ensures i < |LockViews(ls)| && LockViews(ls)[i] == ls[i].View()
  {
  }

  lemma ChainStarts(head: CWebDavLock?)
    ensures LockChain(head, [], head) && LockViews([]) == []
  {
  }

  lemma UnexpiredStarts(all: seq<Lock>, now: int)
    ensures [] + Unexpired(all[0..], now) == Unexpired(all, now)
  {
    assert all[0..] == all;
  }

  /** The views of a list after lock `k` alone has changed. */
  lemma LockReplaced(ls: seq<CWebDavLock>, k: nat, was: seq<Lock>)
    requires k < |ls| == |was|
    requires forall i :: 0 <= i < |ls| && i != k ==> ls[i].View() == was[i]
    ensures LockViews(ls) == was[k := ls[k].View()]
  {
  }

  // -------------------------------------------------------------- list of nodes

  function NodeOrNull(ns: seq<CWebDavFileNode>, i: nat): CWebDavFileNode? {
    if i < |ns| then ns[i] else null
  }

  ghost predicate NodeList(head: CWebDavFileNode?, ns: seq<CWebDavFileNode>)
    reads ns
  {
    && head == NodeOrNull(ns, 0)
    && Distinct(ns)
    && forall i {:trigger ns[i].m_pNext} :: 0 <= i < |ns| ==> ns[i].m_pNext == NodeOrNull(ns, i + 1)
  }

  ghost predicate LocksIn(n: CWebDavFileNode, all: set<CWebDavLock>)
    reads n
  {
    forall l :: l in n.locks ==> l in all
  }

  ghost predicate LocksApart(a: CWebDavFileNode, b: CWebDavFileNode)
    reads a, b
  {
    forall l :: l in a.locks ==> l !in b.locks
  }

  /** The nodes `ns` are proper, share no lock, and all their locks are in `all`. */
  ghost predicate NodesIn(ns: seq<CWebDavFileNode>, all: set<CWebDavLock>)
    reads ns, all
  {
    && Distinct(ns)
    && (forall i :: 0 <= i < |ns| ==> LocksIn(ns[i], all) && ns[i].Valid())
    && (forall i, j :: 0 <= i < j < |ns| ==> LocksApart(ns[i], ns[j]))
  }

  ghost function NodeViews(ns: seq<CWebDavFileNode>, all: set<CWebDavLock>): (r: seq<Node>)
    requires NodesIn(ns, all)
    reads ns, all
    ensures |r| == |ns| && forall i :: 0 <= i < |ns| ==> r[i] == ns[i].View()
  {
    seq(|ns|, i requires 0 <= i < |ns| && NodesIn(ns, all) reads ns, all => ns[i].View())
  }

  lemma NodeAtIs(fold: Fold, ns: seq<Node>, path: Path, i: nat)
    requires i <= |ns| && (i < |ns| ==> Key(fold, ns[i].path) == Key(fold, path))
    requires forall k :: 0 <= k < i ==> Key(fold, ns[k].path) != Key(fold, path)
    ensures NodeAt(fold, ns, path) == i
  {
  }

  lemma NodeWithIdIs(ns: seq<Node>, id: int, i: nat)
    requires i <= |ns| && (i < |ns| ==> HasId(ns[i].locks, id))
    requires forall k :: 0 <= k < i ==> !HasId(ns[k].locks, id)
    ensures NodeWithId(ns, id) == i
  {
  }

  lemma NodesApart(ns: seq<CWebDavFileNode>, all: set<CWebDavLock>, i: nat, j: nat)
    requires NodesIn(ns, all) && i < |ns| && j < |ns| && i != j
    ensures ns[i] != ns[j] && LocksIn(ns[j], all) && ns[j].Valid()
    ensures forall l :: l in ns[i].locks ==> l !in ns[j].locks
  {
    assert if i < j then LocksApart(ns[i], ns[j]) else LocksApart(ns[j], ns[i]);
  }

  /** No field of the node but its link has changed. */
  twostate predicate SameButLink(n: CWebDavFileNode)
    reads n
  {
    && n.locks == old(n.locks) && n.m_pLockList == old(n.m_pLockList) && n.m_szFileName == old(n.m_szFileName)
    && n.m_lockShareMode == old(n.m_lockShareMode) && n.m_fBusy == old(n.m_fBusy)
  }

  twostate predicate SameLock(l: CWebDavLock)
    reads l
  {
    l.m_pNext == old(l.m_pNext) && l.View() == old(l.View())
  }

  /** A node none of whose fields but the link has changed, nor any of its locks. */
  twostate lemma NodeFrame(n: CWebDavFileNode)
    requires SameButLink(n) && forall l :: l in old(n.locks) ==> SameLock(l)
    ensures old(n.Valid()) ==> n.Valid()
    ensures n.View() == old(n.View())
  {
    assert forall i :: 0 <= i < |n.locks| ==> n.locks[i] in old(n.locks);
  }

  ghost function LocksOf(ns: seq<CWebDavFileNode>): (r: seq<seq<CWebDavLock>>)
    reads ns
    ensures |r| == |ns| && forall i :: 0 <= i < |ns| ==> r[i] == ns[i].locks
  {
    seq(|ns|, i requires 0 <= i < |ns| reads ns => ns[i].locks)
  }

  /** Lock lists with no lock in common, all of them in `all`. */
  ghost predicate Disjoint(lists: seq<seq<CWebDavLock>>, all: set<CWebDavLock>) {
    && (forall i, l :: 0 <= i < |lists| && l in lists[i] ==> l in all)
    && (forall i, j, l :: 0 <= i < j < |lists| && l in lists[i] ==> l !in lists[j])
  }

  lemma NodesDisjoint(ns: seq<CWebDavFileNode>, all: set<CWebDavLock>)
    requires NodesIn(ns, all)
    ensures Disjoint(LocksOf(ns), all)
  {
    forall i, j, l | 0 <= i < j < |ns| && l in ns[i].locks
      ensures l !in ns[j].locks
    {
      assert LocksApart(ns[i], ns[j]);
    }
    forall i, l | 0 <= i < |ns| && l in ns[i].locks
      ensures l in all
    {
      assert LocksIn(ns[i], all);
    }
  }

  lemma DisjointGrows(lists: seq<seq<CWebDavLock>>, all: set<CWebDavLock>, i: nat, l: CWebDavLock)
    requires Disjoint(lists, all) && i < |lists| && l !in all
    ensures Disjoint(lists[i := [l] + lists[i]], all + {l})
  {
  }

  /** Nodes stay proper while their lock lists only shrink. */
  lemma NodesShrunk(ns: seq<CWebDavFileNode>, all: set<CWebDavLock>, before: seq<seq<CWebDavLock>>)
    requires Distinct(ns) && Disjoint(before, all) && |before| == |ns|
    requires forall i :: 0 <= i < |ns| ==> ns[i].Valid() && forall l :: l in ns[i].locks ==> l in before[i]
    ensures NodesIn(ns, all)
  {
  }

  ghost function InSome(lists: seq<seq<CWebDavLock>>): (r: set<CWebDavLock>)
    ensures forall j, l :: 0 <= j < |lists| && l in lists[j] ==> l in r
  {
    set j, l | 0 <= j < |lists| && l in lists[j] :: l
  }

  /** All nodes but `i` are proper, with the lock lists and views given. */
  ghost predicate OthersAre(ns: seq<CWebDavFileNode>, i: nat, lists: seq<seq<CWebDavLock>>, views: seq<Node>)
    reads ns, InSome(lists)
  {
    && |lists| == |views| == |ns|
    && forall j :: 0 <= j < |ns| && j != i ==> ns[j].locks == lists[j] && ns[j].Valid() && ns[j].View() == views[j]
  }

  lemma NodesRebuilt(ns: seq<CWebDavFileNode>, all: set<CWebDavLock>, i: nat, lists: seq<seq<CWebDavLock>>,
                     views: seq<Node>)
    requires Distinct(ns) && i < |ns| && OthersAre(ns, i, lists, views) && Disjoint(lists, all)
    requires ns[i].Valid() && forall l :: l in ns[i].locks ==> l in lists[i]
    ensures NodesIn(ns, all) && NodeViews(ns, all) == views[i := ns[i].View()]
  {
    NodesShrunk(ns, all, lists);
    NodeReplaced(ns, all, i, views);
  }

  /** The list's view after node `i` alone has changed. */
  lemma NodeReplaced(ns: seq<CWebDavFileNode>, all: set<CWebDavLock>, i: nat, was: seq<Node>)
    requires NodesIn(ns, all) && i < |ns| == |was|
    requires forall j :: 0 <= j < |ns| && j != i ==> ns[j].View() == was[j]
    ensures NodeViews(ns, all) == was[i := ns[i].View()]
  {
  }

  /** Nodes `ns` linked in that order in front of `end`. */
  ghost predicate NodeChain(head: CWebDavFileNode?, ns: seq<CWebDavFileNode>, end: CWebDavFileNode?)
    reads ns
  {
    && head == (if ns == [] then end else ns[0])
    && Distinct(ns)
    && forall i {:trigger ns[i].m_pNext} :: 0 <= i < |ns| ==>
         ns[i].m_pNext == if i + 1 < |ns| then ns[i + 1] else end
  }

  lemma NodeChainIsList(head: CWebDavFileNode?, ns: seq<CWebDavFileNode>)
    requires NodeChain(head, ns, null)
    ensures NodeList(head, ns)
  {
  }

  lemma NodeChainExtends(head: CWebDavFileNode?, ns: seq<CWebDavFileNode>, p: CWebDavFileNode)
    requires NodeChain(head, ns, p) && p !in ns
    ensures NodeChain(head, ns + [p], p.m_pNext)
  {
    var all := ns + [p];
    forall i | 0 <= i < |all|
      ensures all[i].m_pNext == if i + 1 < |all| then all[i + 1] else p.m_pNext
    {
      if i < |ns| { assert all[i] == ns[i]; }
    }
  }

  /** The links of a node list out of which node `k` has been spliced. */
  ghost predicate NodeSpliced(head: CWebDavFileNode?, ns: seq<CWebDavFileNode>, k: nat)
    requires k < |ns|
    reads ns
  {
    && Distinct(ns)
    && head == (if k == 0 then NodeOrNull(ns, 1) else ns[0])
    && forall i {:trigger ns[i].m_pNext} :: 0 <= i < |ns| && i != k ==>
         ns[i].m_pNext == if i == k - 1 then NodeOrNull(ns, k + 1) else NodeOrNull(ns, i + 1)
  }

  lemma NodeSplicedIsList(head: CWebDavFileNode?, ns: seq<CWebDavFileNode>, k: nat)
    requires k < |ns| && NodeSpliced(head, ns, k)
    ensures NodeList(head, Without(ns, k))
  {
    var rest := Without(ns, k);
    DistinctWithout(ns, k);
    forall i | 0 <= i < |rest|
      ensures rest[i].m_pNext == NodeOrNull(rest, i + 1)
    {
      if i < k { assert rest[i] == ns[i]; } else { assert rest[i] == ns[i + 1]; }
    }
  }

  lemma ConsIsNodeList(p: CWebDavFileNode, ns: seq<CWebDavFileNode>)
    requires NodeList(p.m_pNext, ns) && p !in ns
    ensures NodeList(p, [p] + ns)
  {
    var all := [p] + ns;
    forall i | 0 <= i < |all|
      ensures all[i].m_pNext == NodeOrNull(all, i + 1)
    {
      if i > 0 { assert all[i] == ns[i - 1]; }
    }
  }

  /** Some of the nodes, in any order. */
  lemma NodesSubset(ns: seq<CWebDavFileNode>, some: seq<CWebDavFileNode>, all: set<CWebDavLock>)
    requires NodesIn(ns, all) && Distinct(some) && forall n :: n in some ==> n in ns
    ensures NodesIn(some, all)
  {
    forall i | 0 <= i < |some|
      ensures LocksIn(some[i], all) && some[i].Valid()
    {
      assert some[i] in ns;
    }
    forall i, j | 0 <= i < j < |some|
      ensures LocksApart(some[i], some[j])
    {
      assert some[i] in ns && some[j] in ns;
      var a :| 0 <= a < |ns| && ns[a] == some[i];
      var b :| 0 <= b < |ns| && ns[b] == some[j];
      NodesApart(ns, all, a, b);
    }
  }

  lemma NodesWithout(ns: seq<CWebDavFileNode>, all: set<CWebDavLock>, k: nat)
    requires NodesIn(ns, all) && k < |ns|
    ensures NodesIn(Without(ns, k), all)
    ensures NodeViews(Without(ns, k), all) == Without(NodeViews(ns, all), k)
  {
    DistinctWithout(ns, k);
    NodesSubset(ns, Without(ns, k), all);
  }

  lemma ConsDisjoint(list: seq<CWebDavLock>, lists: seq<seq<CWebDavLock>>, all: set<CWebDavLock>, all': set<CWebDavLock>)
    requires Disjoint(lists, all) && all <= all' && forall l :: l in list ==> l in all' && l !in all
    ensures Disjoint([list] + lists, all')
  {
  }

  lemma NodesCons(p: CWebDavFileNode, ns: seq<CWebDavFileNode>, all: set<CWebDavLock>, all': set<CWebDavLock>)
    requires NodesIn(ns, all) && p !in ns && p.Valid() && all <= all'
    requires forall l :: l in p.locks ==> l in all' && l !in all
    ensures NodesIn([p] + ns, all')
    ensures NodeViews([p] + ns, all') == [p.View()] + NodeViews(ns, all)
  {
    NodesDisjoint(ns, all);
    ConsDisjoint(p.locks, LocksOf(ns), all, all');
    ConsValid(p, ns, all);
    NodesShrunk([p] + ns, all', [p.locks] + LocksOf(ns));
    hide NodesIn, Disjoint, CWebDavFileNode.Valid, CWebDavFileNode.View, LocksOf, Distinct;
  }

  lemma ConsValid(p: CWebDavFileNode, ns: seq<CWebDavFileNode>, all: set<CWebDavLock>)
    requires NodesIn(ns, all) && p !in ns && p.Valid()
    ensures Distinct([p] + ns)
    ensures forall i :: 0 <= i < |ns| + 1 ==>
              ([p] + ns)[i].Valid() && ([p.locks] + LocksOf(ns))[i] == ([p] + ns)[i].locks
  {
    hide LockList;
    var r := [p] + ns;
    assert forall i :: 0 < i < |r| ==> r[i] == ns[i - 1];
  }

  lemma NodeViewsExtend(ns: seq<CWebDavFileNode>, p: CWebDavFileNode, all: set<CWebDavLock>)
    requires NodesIn(ns, all) && NodesIn(ns + [p], all)
    ensures NodeViews(ns + [p], all) == NodeViews(ns, all) + [p.View()]
  {
  }

  /** The sweep of the table, one node at a time. */
  lemma SweepNodesStep(done: seq<Node>, all: seq<Node>, i: nat, now: int)
    requires i < |all|
    ensures var n := SweepNode(all[i], now);
            (if n.locks == [] then done else done + [n]) + SweepNodes(all[i + 1..], now) ==
              done + SweepNodes(all[i..], now)
  {
    assert all[i..][1..] == all[i + 1..];
    hide SweepNode;
  }

  lemma SweepNodesDone(done: seq<Node>, all: seq<Node>, now: int)
    ensures done + SweepNodes(all[|all|..], now) == done
  {
  }

  lemma SweepNodesStarts(all: seq<Node>, now: int)
    ensures [] + SweepNodes(all[0..], now) == SweepNodes(all, now)
  {
    assert all[0..] == all;
  }

  lemma NodesSame(ns: seq<CWebDavFileNode>, all: set<CWebDavLock>, was: seq<Node>)
    requires NodesIn(ns, all) && |ns| == |was|
    requires forall j :: 0 <= j < |ns| ==> ns[j].View() == was[j]
    ensures NodeViews(ns, all) == was
  {
  }

  lemma CreateNothing(fold: Fold, t: Table, path: Path, mode: ShareMode, expires: int, res: Resources)
    requires mode == DAV_LOCK_UNKNOWN
    ensures LockTable.CreateLock(fold, t, path, mode, expires, res) == (t, BadRequest)
  {
  }

  lemma AllValid(ns: seq<CWebDavFileNode>, all: set<CWebDavLock>)
    requires NodesIn(ns, all)
    ensures forall j :: 0 <= j < |ns| ==> ns[j].Valid()
  {
  }

  /** What may change in node `i` is no part of the others. */
  lemma OthersApart(ns: seq<CWebDavFileNode>, all: set<CWebDavLock>, i: nat)
    requires NodesIn(ns, all) && i < |ns|
    ensures forall j :: 0 <= j < |ns| ==> ns[j].Valid()
    ensures forall j, l :: 0 <= j < |ns| && j != i && l in ns[j].locks ==> l !in ns[i].locks && l in all
    ensures forall j :: 0 <= j < |ns| && j != i ==> ns[j] != ns[i]
  {
    forall j, l | 0 <= j < |ns| && j != i && l in ns[j].locks
      ensures l !in ns[i].locks && l in all
    {
      NodesApart(ns, all, i, j);
    }
  }

  /** The same node has the same view in both lists. */
  ghost predicate Agree(ns: seq<CWebDavFileNode>, views: seq<Node>, kept: seq<CWebDavFileNode>, keptViews: seq<Node>)
    requires |views| == |ns| && |keptViews| == |kept|
  {
    forall a, b :: 0 <= a < |kept| && 0 <= b < |ns| && kept[a] == ns[b] ==> keptViews[a] == views[b]
  }

  lemma ViewsAgree(ns: seq<CWebDavFileNode>, kept: seq<CWebDavFileNode>, all: set<CWebDavLock>)
    requires NodesIn(ns, all) && NodesIn(kept, all)
    ensures Agree(ns, NodeViews(ns, all), kept, NodeViews(kept, all))
  {
  }

  /** Some of the nodes of a list in which at most node `i`, none of them, has changed. */
  lemma KeptSame(ns: seq<CWebDavFileNode>, kept: seq<CWebDavFileNode>, all: set<CWebDavLock>, i: nat,
                 was: seq<Node>, keptWas: seq<Node>)
    requires NodesIn(ns, all) && Distinct(kept) && forall n :: n in kept ==> n in ns
    requires |was| == |ns| && |keptWas| == |kept| && Agree(ns, was, kept, keptWas)
    requires forall j :: 0 <= j < |ns| && j != i ==> ns[j].View() == was[j]
    requires i < |ns| ==> ns[i] !in kept
    ensures NodesIn(kept, all) && NodeViews(kept, all) == keptWas
  {
    NodesSubset(ns, kept, all);
    forall a | 0 <= a < |kept|
      ensures kept[a].View() == keptWas[a]
    {
      assert kept[a] in ns;
      var b :| 0 <= b < |ns| && ns[b] == kept[a];
    }
  }

  /** The links of the list from node `i` on. */
  ghost predicate LinksFrom(ns: seq<CWebDavFileNode>, i: nat)
    reads ns
  {
    forall j {:trigger ns[j].m_pNext} :: i <= j < |ns| ==> ns[j].m_pNext == NodeOrNull(ns, j + 1)
  }

  ghost predicate RestApart(ns: seq<CWebDavFileNode>, kept: seq<CWebDavFileNode>, i: nat) {
    forall j :: i <= j < |ns| ==> ns[j] !in kept
  }

  lemma LinkAt(ns: seq<CWebDavFileNode>, i: nat)
    requires LinksFrom(ns, i) && i < |ns|
    ensures ns[i].m_pNext == NodeOrNull(ns, i + 1) && LinksFrom(ns, i + 1)
  {
  }

  lemma RestNext(ns: seq<CWebDavFileNode>, all: set<CWebDavLock>, kept: seq<CWebDavFileNode>, i: nat)
    requires NodesIn(ns, all) && RestApart(ns, kept, i) && i < |ns|
    ensures ns[i] !in kept && RestApart(ns, kept, i + 1) && RestApart(ns, kept + [ns[i]], i + 1)
  {
  }

  lemma LocksKnown(ns: seq<CWebDavFileNode>, all: set<CWebDavLock>, i: nat)
    requires NodesIn(ns, all) && i < |ns|
    ensures LocksIn(ns[i], all)
  {
  }

  lemma NoLocks(ns: seq<CWebDavFileNode>, all: set<CWebDavLock>, i: nat)
    requires NodesIn(ns, all) && i < |ns|
    ensures ns[i].m_pLockList == null <==> NodeViews(ns, all)[i].locks == []
  {
    assert ns[i].Valid();
  }

  lemma ExtendedDistinct(ns: seq<CWebDavFileNode>, p: CWebDavFileNode, all: set<CWebDavLock>)
    requires NodesIn(ns, all) && p !in ns
    ensures Distinct(ns + [p])
  {
  }

  lemma NodeViewsAt(ns: seq<CWebDavFileNode>, i: nat, all: set<CWebDavLock>)
    requires NodesIn(ns, all) && i < |ns|
    ensures NodeViews(ns, all)[i] == ns[i].View()
  {
  }

  // ---------------------------------------------------------------- the manager

  class CWebDavFileLockManager {
    const fold: Fold
    var m_pFileLockList: CWebDavFileNode?
    var m_iNextLockId: int
    ghost var nodes: seq<CWebDavFileNode>  // the list behind m_pFileLockList
    ghost var all: set<CWebDavLock>        // where their locks live

    constructor (fold: Fold)
      ensures Valid() && View() == EMPTY && this.fold == fold && fresh(nodes) && fresh(all)
    {
      this.fold := fold;
      m_pFileLockList := null;
      m_iNextLockId := DAV_INITIAL_LOCK_ID;
      nodes, all := [], {};
    }

    ghost predicate Valid()
      reads this, nodes, all
    {
      NodeList(m_pFileLockList, nodes) && NodesIn(nodes, all)
    }

    ghost function View(): Table
      requires Valid()
      reads this, nodes, all
    {
      Table(NodeViews(nodes, all), m_iNextLockId)
    }

    method GetNodeFromFileName(szFileName: Path) returns (pTrav: CWebDavFileNode?, ghost i: nat)
      requires Valid()
      ensures pTrav == NodeOrNull(nodes, NodeAt(fold, View().nodes, szFileName))
      ensures i == NodeAt(fold, View().nodes, szFileName) && i <= |nodes|
    {
      hide NodesIn, NodeViews, NodeAt, Key;
      ghost var views := View().nodes;
      pTrav, i := m_pFileLockList, 0;
      while pTrav != null
        invariant i <= |nodes| && pTrav == NodeOrNull(nodes, i)
        invariant forall k :: 0 <= k < i ==> Key(fold, views[k].path) != Key(fold, szFileName)
        decreases |nodes| - i
      {
        NodeViewAt(i);
        var c := PathNameCompare(fold, pTrav.m_szFileName, szFileName);
        if c == 0 {
          NodeAtIs(fold, views, szFileName, i);
          return;
        }
        pTrav := pTrav.m_pNext;
        i := i + 1;
      }
      NodeAtIs(fold, views, szFileName, i);
    }

    lemma NodeViewAt(i: nat)
      requires Valid() && i < |nodes|
      ensures |View().nodes| == |nodes| && View().nodes[i] == nodes[i].View() && LocksIn(nodes[i], all) && nodes[i].Valid()
    {
    }

    lemma ViewSize()
      requires Valid()
      ensures |View().nodes| == |nodes|
    {
    }

    method GetNodeFromID(iLockId: int) returns (pFile: CWebDavFileNode?, pLock: CWebDavLock?, ghost i: nat)
      requires Valid()
      ensures pFile == NodeOrNull(nodes, NodeWithId(View().nodes, iLockId))
      ensures i == NodeWithId(View().nodes, iLockId) && i <= |nodes|
      ensures i < |nodes| ==> pLock == LockOrNull(nodes[i].locks, LockAt(nodes[i].View().locks, iLockId))
    {
      hide NodesIn, NodeViews, NodeWithId, Key, HasId;
      ghost var views := View().nodes;
      pFile, pLock, i := m_pFileLockList, null, 0;
      while pFile != null
        invariant i <= |nodes| && pFile == NodeOrNull(nodes, i)
        invariant forall k :: 0 <= k < i ==> !HasId(views[k].locks, iLockId)
        decreases |nodes| - i
      {
        NodeViewAt(i);
        var found;
        found, pLock := pFile.HasLockId(iLockId);
        if found {
          NodeWithIdIs(views, iLockId, i);
          return;
        }
        pFile := pFile.m_pNext;
        i := i + 1;
      }
      NodeWithIdIs(views, iLockId, i);
    }

    /** A new expiry for lock `k` of node `i`. */
    method RefreshIn(pNode: CWebDavFileNode, ghost i: nat, pLock: CWebDavLock, ghost k: nat, ftNow: int, dwTimeout: int)
      requires Valid() && i < |nodes| && nodes[i] == pNode && k < |pNode.locks| && pNode.locks[k] == pLock
      modifies pLock`m_ftExpires, pLock`m_dwBaseTimeout
      ensures Valid()
      ensures View() == old(View()).(nodes := old(View().nodes)[i := old(View().nodes[i])
                          .(locks := old(View().nodes[i].locks)[k := Lock(pLock.m_i64LockId, ExpiresAt(ftNow, dwTimeout))])])
    {
      ghost var was, before, ls := NodeViews(nodes, all), LocksOf(nodes), pNode.locks;
      NodesDisjoint(nodes, all);
      OthersApart(nodes, all, i);
      assert Distinct(ls);
      hide NodesIn, NodeViews, Disjoint;
      label Start:
      pLock.SetTimeout(ftNow, dwTimeout);
      forall j | 0 <= j < |nodes| && j != i
        ensures nodes[j].Valid() && nodes[j].locks == before[j] && nodes[j].View() == was[j]
      {
        NodeFrame@Start(nodes[j]);
      }
      NodesShrunk(nodes, all, before);
      LockReplaced(ls, k, was[i].locks);
      NodeReplaced(nodes, all, i, was);
    }

    /** Refreshing a lock named by an If header, the first branch of DavLock. */
    method RefreshLock(szFile: Path, iLockId: int, ftNow: int, dwTimeout: int)
      requires Valid()
      modifies all
      ensures Valid() && View() == LockTable.RefreshLock(fold, old(View()), szFile, iLockId, ExpiresAt(ftNow, dwTimeout))
    {
      hide NodesIn, NodeViews, Key;
      var pFileNode, i := GetNodeFromFileName(szFile);
      if pFileNode != null {
        NodeViewAt(i);
        var found, pLock := pFileNode.HasLockId(iLockId);
        if found {
          RefreshIn(pFileNode, i, pLock, LockAt(pFileNode.View().locks, iLockId), ftNow, dwTimeout);
        }
      }
    }

    // ------------------------------------------------------------- UNLOCK

    /** Takes lock `k` out of node `i`. */
    method DeleteIn(pFileNode: CWebDavFileNode, ghost i: nat, pLock: CWebDavLock, ghost k: nat) returns (ok: bool)
      requires Valid() && i < |nodes| && nodes[i] == pFileNode && k < |pFileNode.locks| && pFileNode.locks[k] == pLock
      modifies pFileNode, pFileNode.locks
      ensures Valid() && ok == !old(View().nodes[i].busy)
      ensures View() == if !ok then old(View()) else old(View()).(nodes := old(View().nodes)[i := old(View().nodes[i])
                          .(locks := Without(old(View().nodes[i].locks), k))])
    {
      ghost var was, before := NodeViews(nodes, all), LocksOf(nodes);
      NodesDisjoint(nodes, all);
      NodeViewAt(i);
      hide NodesIn, NodeViews, Disjoint, OthersAre, CWebDavFileNode.Valid, CWebDavFileNode.View;
      ok := DeleteStep(pFileNode, i, pLock, k, before, was);
      NodesRebuilt(nodes, all, i, before, was);
    }

    method DeleteStep(pFileNode: CWebDavFileNode, ghost i: nat, pLock: CWebDavLock, ghost k: nat,
                      ghost before: seq<seq<CWebDavLock>>, ghost was: seq<Node>) returns (ok: bool)
      requires Valid() && i < |nodes| && nodes[i] == pFileNode && k < |pFileNode.locks| && pFileNode.locks[k] == pLock
      requires before == LocksOf(nodes) && was == NodeViews(nodes, all)
      modifies pFileNode, pFileNode.locks
      ensures OthersAre(nodes, i, before, was) && NodeList(m_pFileLockList, nodes)
      ensures pFileNode.Valid() && (forall l :: l in pFileNode.locks ==> l in before[i]) && ok == !was[i].busy
      ensures pFileNode.View() == if ok then was[i].(locks := Without(was[i].locks, k)) else was[i]
    {
      OthersApart(nodes, all, i);
      assert was[i] == pFileNode.View();
      hide NodesIn, NodeViews, LockList, LockViews, Without;
      label Start:
      ok := pFileNode.DeleteLock(pLock, k);
      forall j | 0 <= j < |nodes| && j != i
        ensures nodes[j].Valid() && nodes[j].locks == before[j] && nodes[j].View() == was[j]
      {
        NodeFrame@Start(nodes[j]);
      }
    }

    /** RemoveFileNodeFromLinkedList: node `k` of the list is spliced out. */
    method RemoveFileNodeFromLinkedList(pNode: CWebDavFileNode, ghost k: nat)
      requires Valid() && k < |nodes| && nodes[k] == pNode
      modifies `m_pFileLockList, `nodes, nodes`m_pNext
      ensures Valid() && View() == old(View()).(nodes := Without(old(View().nodes), k))
    {
      hide NodesIn, NodeViews, NodeSpliced;
      var pTrav, pFollow: CWebDavFileNode? := m_pFileLockList, null;
      ghost var i := 0;
      while pTrav != pNode
        invariant 0 <= i <= k
        invariant pTrav == nodes[i]
        invariant pFollow == if i == 0 then null else nodes[i - 1]
        decreases k - i
      {
        pFollow := pTrav;
        pTrav := pTrav.m_pNext;
        i := i + 1;
      }
      assert i == k;
      ghost var was := nodes;
      Unlink(pTrav, pFollow, k);
      NodesWithout(was, all, k);
      NodeSplicedIsList(m_pFileLockList, was, k);
    }

    /** A list of nodes none of whose fields but links have changed, nor any of their locks. */
    twostate lemma LinkFrame(ns: seq<CWebDavFileNode>)
      requires all == old(all) && old(NodesIn(ns, all)) && forall l :: l in all ==> SameLock(l)
      requires forall j :: 0 <= j < |ns| ==> SameButLink(ns[j])
      ensures NodesIn(ns, all) && NodeViews(ns, all) == old(NodeViews(ns, all))
    {
      hide LockList, LockViews, SameLock;
      forall j | 0 <= j < |ns|
        ensures LocksIn(ns[j], all) && ns[j].Valid() && ns[j].View() == old(ns[j].View())
      {
        assert old(LocksIn(ns[j], all)) && old(ns[j].Valid());
        NodeFrame(ns[j]);
      }
      forall i, j | 0 <= i < j < |ns|
        ensures LocksApart(ns[i], ns[j])
      {
        assert old(LocksApart(ns[i], ns[j])) && SameButLink(ns[i]) && SameButLink(ns[j]);
      }
    }

    /** The link past node `k`. */
    method RelinkPast(pTrav: CWebDavFileNode, pFollow: CWebDavFileNode?, ghost k: nat)
      requires Valid() && k < |nodes| && nodes[k] == pTrav && pFollow == if k == 0 then null else nodes[k - 1]
      modifies `m_pFileLockList, nodes`m_pNext
      ensures NodeSpliced(m_pFileLockList, nodes, k) && NodesIn(nodes, all)
      ensures NodeViews(nodes, all) == old(NodeViews(nodes, all))
    {
      hide NodesIn, NodeViews;
      if pFollow != null {
        pFollow.m_pNext := pTrav.m_pNext;
      } else {
        m_pFileLockList := pTrav.m_pNext;
      }
      LinkFrame(nodes);
    }

    method Unlink(pTrav: CWebDavFileNode, pFollow: CWebDavFileNode?, ghost k: nat)
      requires Valid() && k < |nodes| && nodes[k] == pTrav && pFollow == if k == 0 then null else nodes[k - 1]
      modifies `m_pFileLockList, `nodes, nodes`m_pNext
      ensures NodeSpliced(m_pFileLockList, old(nodes), k) && NodesIn(old(nodes), all)
      ensures NodeViews(old(nodes), all) == old(NodeViews(nodes, all)) && nodes == Without(old(nodes), k)
    {
      hide NodeViews, NodesIn, Without;
      RelinkPast(pTrav, pFollow, k);
      nodes := Without(nodes, k);
    }

    /** DeleteLock, the UNLOCK request. */
    method DeleteLock(iLockId: int) returns (ok: bool)
      requires Valid()
      modifies this, nodes, all
      ensures Valid() && (View(), ok) == LockTable.DeleteLock(old(View()), iLockId)
    {
      hide NodesIn, NodeViews, NodeWithId, NodeList, LockList, LockViews, Key;
      var pFileNode, pLock, i := GetNodeFromID(iLockId);
      ViewSize();
      if pFileNode == null { return false; }
      NodeViewAt(i);
      ok := DeleteIn(pFileNode, i, pLock, LockAt(pFileNode.View().locks, iLockId));
      if ok {
        NoLocks(nodes, all, i);
        if pFileNode.m_pLockList == null {
          RemoveFileNodeFromLinkedList(pFileNode, i);
        }
      }
    }

    // --------------------------------------------------------------- LOCK

    /** GetNextID */
    method GetNextID() returns (iLockId: int)
      requires Valid()
      modifies `m_iNextLockId
      ensures Valid() && iLockId == old(m_iNextLockId) && View() == old(View()).(nextId := old(m_iNextLockId) + 1)
    {
      iLockId := m_iNextLockId;
      m_iNextLockId := m_iNextLockId + 1;
    }

    /** A further lock on node `i`. */
    method AddTo(pFileNode: CWebDavFileNode, ghost i: nat, iLockId: int, ftNow: int, dwTimeout: int)
      requires Valid() && i < |nodes| && nodes[i] == pFileNode
      modifies `all, pFileNode
      ensures Valid() && fresh(all - old(all))
      ensures View() == old(View()).(nodes := old(View().nodes)[i := old(View().nodes[i])
                          .(locks := [Lock(iLockId, ExpiresAt(ftNow, dwTimeout))] + old(View().nodes[i].locks))])
    {
      ghost var was, before := NodeViews(nodes, all), LocksOf(nodes);
      NodesDisjoint(nodes, all);
      NodeViewAt(i);
      hide NodesIn, NodeViews, Disjoint, OthersAre, CWebDavFileNode.Valid, CWebDavFileNode.View;
      AddStep(pFileNode, i, iLockId, ftNow, dwTimeout, before, was);
      DisjointGrows(before, old(all), i, pFileNode.locks[0]);
      NodesRebuilt(nodes, all, i, before[i := pFileNode.locks], was);
    }

    method AddStep(pFileNode: CWebDavFileNode, ghost i: nat, iLockId: int, ftNow: int, dwTimeout: int,
                   ghost before: seq<seq<CWebDavLock>>, ghost was: seq<Node>)
      requires Valid() && i < |nodes| && nodes[i] == pFileNode
      requires before == LocksOf(nodes) && was == NodeViews(nodes, all)
      modifies `all, pFileNode
      ensures NodeList(m_pFileLockList, nodes) && pFileNode.Valid() && pFileNode.locks != []
      ensures fresh(pFileNode.locks[0]) && all == old(all) + {pFileNode.locks[0]}
      ensures OthersAre(nodes, i, before[i := pFileNode.locks], was)
      ensures pFileNode.locks == [pFileNode.locks[0]] + before[i]
      ensures pFileNode.View() == was[i].(locks := [Lock(iLockId, ExpiresAt(ftNow, dwTimeout))] + was[i].locks)
    {
      OthersApart(nodes, all, i);
      ghost var ns := nodes;
      hide NodesIn, NodeViews, LocksOf, CWebDavFileNode.Valid, CWebDavFileNode.View;
      label Start:
      pFileNode.AddLock(iLockId, ftNow, dwTimeout);
      all := all + {pFileNode.locks[0]};
      forall j | 0 <= j < |ns| && j != i
        ensures ns[j].locks == before[j] && ns[j].Valid() && ns[j].View() == was[j]
      {
        NodeFrame@Start(ns[j]);
      }
    }

    /** A new node at the front of the list. */
    method Prepend(pFileNode: CWebDavFileNode)
      requires Valid() && pFileNode !in nodes && pFileNode.Valid() && forall l :: l in pFileNode.locks ==> l !in all
      modifies `m_pFileLockList, `nodes, `all, pFileNode`m_pNext
      ensures Valid() && all == old(all) + set l | l in pFileNode.locks
      ensures View() == old(View()).(nodes := [old(pFileNode.View())] + old(View().nodes))
    {
      hide NodesIn, NodeViews, LockList, LockViews;
      ghost var ns, was := nodes, all;
      pFileNode.m_pNext := m_pFileLockList;
      m_pFileLockList := pFileNode;
      nodes := [pFileNode] + ns;
      all := was + set l | l in pFileNode.locks;
      ConsIsNodeList(pFileNode, ns);
      NodesCons(pFileNode, ns, was, all);
    }

    /** CreateLock, the LOCK request: `dwTimeout` is what the Timeout header asks for, 0 for none. */
    method CreateLock(szFile: Path, mode: ShareMode, ftNow: int, dwTimeout: int, dwDefault: int, res: Resources)
      returns (r: Created)
      requires Valid()
      modifies this, nodes
      ensures Valid() && (View(), r) == LockTable.CreateLock(fold, old(View()), szFile, mode,
                                          ExpiresAt(ftNow, if dwTimeout == 0 then dwDefault else dwTimeout), res)
    {
      hide NodesIn, NodeViews, NodeList, Key, NodeAt, LockTable.CreateLock;
      if mode == DAV_LOCK_UNKNOWN {
        CreateNothing(fold, View(), szFile, mode, ExpiresAt(ftNow, if dwTimeout == 0 then dwDefault else dwTimeout), res);
        return BadRequest;
      }
      var timeout := if dwTimeout == 0 then dwDefault else dwTimeout;
      var pFileNode, i := GetNodeFromFileName(szFile);
      if pFileNode != null {
        r := LockAgain(pFileNode, i, szFile, mode, ftNow, timeout, res);
      } else {
        r := LockFirst(szFile, mode, ftNow, timeout, res);
      }
    }

    /** A further lock on a file that has some. */
    method LockAgain(pFileNode: CWebDavFileNode, ghost i: nat, szFile: Path, mode: ShareMode, ftNow: int, timeout: int,
                     res: Resources) returns (r: Created)
      requires Valid() && mode != DAV_LOCK_UNKNOWN
      requires i == NodeAt(fold, View().nodes, szFile) && i < |nodes| && nodes[i] == pFileNode
      modifies `all, `m_iNextLockId, nodes
      ensures Valid()
      ensures (View(), r) == LockTable.CreateLock(fold, old(View()), szFile, mode, ExpiresAt(ftNow, timeout), res)
    {
      hide NodesIn, NodeViews, NodeList, Key, CWebDavFileNode.Valid, HasId, LockAt, NodeAt;
      ViewSize();
      NodeViewAt(i);
      assert View().nodes[i].mode == pFileNode.m_lockShareMode;
      if pFileNode.m_lockShareMode == DAV_LOCK_EXCLUSIVE || mode == DAV_LOCK_EXCLUSIVE { return Refused; }
      var iLockId := GetNextID();
      if !res.lockMade { return Failed; }
      AddTo(pFileNode, i, iLockId, ftNow, timeout);
      r := Issued(iLockId);
    }

    /** The first lock of a file. */
    method LockFirst(szFile: Path, mode: ShareMode, ftNow: int, timeout: int, res: Resources) returns (r: Created)
      requires Valid() && mode != DAV_LOCK_UNKNOWN && NodeAt(fold, View().nodes, szFile) == |nodes|
      modifies `m_pFileLockList, `nodes, `all, `m_iNextLockId
      ensures Valid()
      ensures (View(), r) == LockTable.CreateLock(fold, old(View()), szFile, mode, ExpiresAt(ftNow, timeout), res)
    {
      hide NodesIn, NodeViews, NodeList, Key, NodeAt;
      ViewSize();
      if !res.fileOpens || !res.nodeMade { return Failed; }
      var iLockId := GetNextID();
      if !res.lockMade { return Failed; }
      AddFile(szFile, mode, iLockId, ftNow, timeout);
      r := Issued(iLockId);
    }

    /** A new node with one lock. */
    method AddFile(szFile: Path, mode: ShareMode, iLockId: int, ftNow: int, dwTimeout: int)
      requires Valid()
      modifies `m_pFileLockList, `nodes, `all
      ensures Valid()
      ensures View() == old(View()).(nodes := [Node(szFile, mode, false, [Lock(iLockId, ExpiresAt(ftNow, dwTimeout))])]
                                           + old(View().nodes))
    {
      hide NodesIn, NodeViews, NodeList, CWebDavFileNode.Valid, CWebDavFileNode.View;
      ghost var t := View();
      var pFileNode := new CWebDavFileNode(szFile, mode);
      pFileNode.AddLock(iLockId, ftNow, dwTimeout);
      assert pFileNode.View() == Node(szFile, mode, false, [Lock(iLockId, ExpiresAt(ftNow, dwTimeout))]);
      assert View() == t;
      Prepend(pFileNode);
    }

    // ------------------------------------------------------- locked operations

    /** CanPerformLockedOperation for one or two files, with their nodes. */
    method CanPerformLockedOperation(szFile1: Path, szFile2: Option<Path>, ids: seq<int>)
      returns (fRet: bool, pFileNode1: CWebDavFileNode?, pFileNode2: CWebDavFileNode?, ghost i: nat, ghost j: nat)
      requires Valid()
      ensures fRet == CanPerform(fold, View(), szFile1, szFile2, ids)
      ensures i == NodeAt(fold, View().nodes, szFile1) && i <= |nodes| && pFileNode1 == NodeOrNull(nodes, i)
      ensures j == (if szFile2.None? then |nodes| else NodeAt(fold, View().nodes, szFile2.value))
      ensures j <= |nodes| && pFileNode2 == NodeOrNull(nodes, j)
    {
      hide NodesIn, NodeViews, NodeList, NodeAt, Key, TokensOk;
      pFileNode2, j := null, |nodes|;
      pFileNode1, i := GetNodeFromFileName(szFile1);
      if szFile2.Some? { pFileNode2, j := GetNodeFromFileName(szFile2.value); }
      ViewSize();
      fRet := TokensFit(pFileNode1, i, pFileNode2, j, ids);
    }

    /** The decision for two nodes, either of which may be missing. */
    method TokensFit(pFileNode1: CWebDavFileNode?, ghost i: nat, pFileNode2: CWebDavFileNode?, ghost j: nat, ids: seq<int>)
      returns (fRet: bool)
      requires Valid() && i <= |nodes| && pFileNode1 == NodeOrNull(nodes, i)
      requires j <= |nodes| && pFileNode2 == NodeOrNull(nodes, j)
      ensures |View().nodes| == |nodes| && fRet == TokensOk(View().nodes, i, j, ids)
    {
      hide NodesIn, NodeViews, NodeList, HasAnyId;
      ViewSize();
      if ids == [] { return pFileNode1 == null && pFileNode2 == null; }
      var b1, b2 := pFileNode1 == null, pFileNode2 == null;
      if b1 && b2 { return false; }
      if !b1 { b1 := HasToken(pFileNode1, i, ids); }
      if !b1 { return false; }
      if !b2 { b2 := HasToken(pFileNode2, j, ids); }
      fRet := b2;
    }

    method HasToken(pFileNode: CWebDavFileNode, ghost i: nat, ids: seq<int>) returns (found: bool)
      requires Valid() && i < |nodes| && nodes[i] == pFileNode
      ensures |View().nodes| == |nodes| && found == HasAnyId(View().nodes[i].locks, ids)
    {
      hide NodesIn, NodeViews, NodeList, HasAnyId, CWebDavFileNode.Valid, LockViews;
      NodeViewAt(i);
      found := pFileNode.HasLockIdInArray(ids);
    }

    /** The locked step of DavDeleteFile with DeleteFileAndFileLock. */
    method DeleteLockedFile(szFile: Path, ids: seq<int>) returns (fRet: bool)
      requires Valid()
      modifies `m_pFileLockList, `nodes, nodes`m_pNext
      ensures Valid() && (View(), fRet) == LockTable.DeleteLockedFile(fold, old(View()), szFile, ids)
    {
      hide NodesIn, NodeViews, Key, HasAnyId;
      if ids == [] { return false; }
      var may, pFileNode, _, i, _ := CanPerformLockedOperation(szFile, None, ids);
      fRet := may;
      ViewSize();
      if fRet && pFileNode != null {
        RemoveFileNodeFromLinkedList(pFileNode, i);
      }
    }

    method SetBusyIn(pFileNode: CWebDavFileNode, ghost i: nat, b: bool)
      requires Valid() && i < |nodes| && nodes[i] == pFileNode
      modifies pFileNode`m_fBusy
      ensures Valid() && View() == old(View()).(nodes := old(View().nodes)[i := old(View().nodes[i]).(busy := b)])
    {
      ghost var ns, was, before := nodes, NodeViews(nodes, all), LocksOf(nodes);
      NodesDisjoint(nodes, all);
      OthersApart(nodes, all, i);
      hide NodesIn, NodeViews, Disjoint, LockViews;
      label Start:
      pFileNode.m_fBusy := b;
      forall j | 0 <= j < |ns| && j != i
        ensures ns[j].locks == before[j] && ns[j].Valid() && ns[j].View() == was[j]
      {
        NodeFrame@Start(ns[j]);
      }
      NodesRebuilt(ns, all, i, before, was);
    }

    /** The node of a file, null if it is not locked. */
    ghost predicate IsNodeOf(pFileNode: CWebDavFileNode?, i: nat, szFile: Path)
      requires Valid()
      reads this, nodes, all
    {
      i == NodeAt(fold, View().nodes, szFile) && i <= |nodes| && pFileNode == NodeOrNull(nodes, i)
    }

    /** SetBusy on the node found for a file, if there is one; other files are found where they were. */
    method SetBusyOf(pFileNode: CWebDavFileNode?, ghost i: nat, ghost szFile: Path, ghost szOther: Path, b: bool)
      requires Valid() && IsNodeOf(pFileNode, i, szFile)
      modifies nodes`m_fBusy
      ensures Valid() && View() == SetBusy(fold, old(View()), szFile, b)
      ensures IsNodeOf(pFileNode, i, szFile)
      ensures NodeAt(fold, View().nodes, szOther) == NodeAt(fold, old(View()).nodes, szOther)
    {
      hide NodesIn, NodeViews, NodeList, NodeAt, Key;
      ViewSize();
      if pFileNode != null {
        SetBusyIn(pFileNode, i, b);
        SameNames(fold, old(View().nodes), i, b, szFile);
        SameNames(fold, old(View().nodes), i, b, szOther);
      }
    }

    /** The first critical section of MoveCopyFile, entered with tokens sent: on success the nodes
        it leaves to the second one. */
    method BeginCopy(szSrc: Path, szDest: Path, ids: seq<int>, srcOpens: bool, destOpens: bool)
      returns (ok: bool, pSrcNode: CWebDavFileNode?, pDestNode: CWebDavFileNode?, ghost i: nat, ghost j: nat)
      requires Valid()
      modifies nodes`m_fBusy
      ensures Valid() && (View(), ok) == LockTable.BeginCopy(fold, old(View()), szSrc, szDest, ids, srcOpens, destOpens)
      ensures ok ==> IsNodeOf(pSrcNode, i, szSrc) && IsNodeOf(pDestNode, j, szDest)
    {
      hide NodesIn, NodeViews, NodeList, NodeAt, Key, TokensOk;
      ViewSize();
      ok, pSrcNode, pDestNode, i, j := false, null, null, 0, 0;
      if ids == [] { return; }
      ok, pSrcNode, pDestNode, i, j := CanPerformLockedOperation(szSrc, Some(szDest), ids);
      if !ok { return; }
      ok := (pSrcNode != null || srcOpens) && (pDestNode != null || destOpens);
      SetBusyOf(pSrcNode, i, szSrc, szDest, ok);
      SetBusyOf(pDestNode, j, szDest, szSrc, ok);
    }

    /** The second critical section, with the nodes the first one left; the precondition says that
        they are still in the list, on which the source relies. */
    method EndCopy(pSrcNode: CWebDavFileNode?, pDestNode: CWebDavFileNode?, ghost i: nat, ghost j: nat,
                   szSrc: Path, szDest: Path, fMoved: bool)
      requires Valid() && (pSrcNode != null ==> IsNodeOf(pSrcNode, i, szSrc))
      requires pDestNode != null ==> IsNodeOf(pDestNode, j, szDest)
      modifies `m_pFileLockList, `nodes, nodes`m_pNext, nodes`m_fBusy
      ensures Valid()
      ensures View() == LockTable.EndCopy(fold, old(View()), szSrc, szDest, pSrcNode != null, pDestNode != null, fMoved)
    {
      hide NodesIn, NodeViews, NodeList, NodeAt, Key;
      ViewSize();
      if pSrcNode != null { SetBusyOf(pSrcNode, i, szSrc, szDest, false); }
      if pDestNode != null { SetBusyOf(pDestNode, j, szDest, szSrc, false); }
      if pSrcNode != null && fMoved { RemoveFileNodeFromLinkedList(pSrcNode, i); }
    }

    /** IsFileAssociatedWithLockId */
    method IsAssociated(szFileName: Path, iLockId: int) returns (fRet: bool)
      requires Valid()
      ensures fRet == IsFileAssociatedWithLockId(fold, View(), szFileName, iLockId)
    {
      hide NodesIn, NodeViews, NodeList, NodeAt, Key;
      var pFileNode, i := GetNodeFromFileName(szFileName);
      ViewSize();
      fRet := false;
      if pFileNode != null {
        NodeViewAt(i);
        var found, _ := pFileNode.HasLockId(iLockId);
        fRet := found;
      }
    }

    // -------------------------------------------------------------- the sweep

    /** The sweep has kept `kept` of the first `i` nodes of `was` and stands at `pTrav`. */
    ghost predicate Sweeping(was: seq<CWebDavFileNode>, views: seq<Node>, kept: seq<CWebDavFileNode>, i: nat, ftNow: int,
                             pTrav: CWebDavFileNode?, pFollow: CWebDavFileNode?)
      reads this, was, kept, all
    {
      && i <= |was| == |views| && NodesIn(was, all) && NodesIn(kept, all)
      && pTrav == NodeOrNull(was, i)
      && pFollow == (if kept == [] then null else kept[|kept| - 1])
      && LinksFrom(was, i) && RestApart(was, kept, i)
      && (forall n :: n in kept ==> n in was)
      && (forall j :: i <= j < |was| ==> NodeViews(was, all)[j] == views[j])
      && NodeChain(m_pFileLockList, kept, pTrav)
      && NodeViews(kept, all) + SweepNodes(views[i..], ftNow) == SweepNodes(views, ftNow)
    }

    /** Sweeps the locks of node `i`, leaving all other nodes alone. */
    method SweepFile(pTrav: CWebDavFileNode, ghost ns: seq<CWebDavFileNode>, ghost kept: seq<CWebDavFileNode>,
                     ghost i: nat, ftNow: int)
      requires NodesIn(ns, all) && i < |ns| && ns[i] == pTrav
      requires NodesIn(kept, all) && pTrav !in kept && LinksFrom(ns, i) && forall n :: n in kept ==> n in ns
      modifies pTrav, pTrav.locks
      ensures LinksFrom(ns, i)
      ensures NodesIn(ns, all) && NodesIn(kept, all) && pTrav.m_pNext == old(pTrav.m_pNext)
      ensures NodeViews(ns, all) == old(NodeViews(ns, all))[i := SweepNode(old(NodeViews(ns, all)[i]), ftNow)]
      ensures NodeViews(kept, all) == old(NodeViews(kept, all))
    {
      ghost var was, keptWas, before := NodeViews(ns, all), NodeViews(kept, all), LocksOf(ns);
      NodesDisjoint(ns, all);
      ViewsAgree(ns, kept, all);
      OthersApart(ns, all, i);
      assert Distinct(kept) && Distinct(ns);
      hide NodesIn, NodeViews, LockList, LockViews, Disjoint, Agree, SweepNode, Distinct;
      label Start:
      pTrav.RemoveTimedOutLocks(ftNow);
      forall j | 0 <= j < |ns| && j != i
        ensures ns[j].locks == before[j] && ns[j].Valid() && ns[j].View() == was[j]
      {
        NodeFrame@Start(ns[j]);
      }
      assert forall j {:trigger ns[j].m_pNext} :: i <= j < |ns| ==> ns[j].m_pNext == old(ns[j].m_pNext);
      NodesRebuilt(ns, all, i, before, was);
      KeptSame(ns, kept, all, i, was, keptWas);
    }

    /** Makes the list behind `kept` go on with `pNext`. */
    method RelinkNodes(pFollow: CWebDavFileNode?, ghost pTrav: CWebDavFileNode, pNext: CWebDavFileNode?,
                       ghost ns: seq<CWebDavFileNode>, ghost kept: seq<CWebDavFileNode>, ghost i: nat)
      requires NodesIn(ns, all) && NodesIn(kept, all) && NodeChain(m_pFileLockList, kept, pTrav)
      requires pFollow == (if kept == [] then null else kept[|kept| - 1]) && forall n :: n in kept ==> n in ns
      requires LinksFrom(ns, i) && RestApart(ns, kept, i)
      modifies `m_pFileLockList, (if pFollow == null then {} else {pFollow})`m_pNext
      ensures NodesIn(ns, all) && NodesIn(kept, all) && NodeChain(m_pFileLockList, kept, pNext)
      ensures NodeViews(ns, all) == old(NodeViews(ns, all)) && NodeViews(kept, all) == old(NodeViews(kept, all))
      ensures LinksFrom(ns, i)
    {
      ghost var was, keptWas := NodeViews(ns, all), NodeViews(kept, all);
      ViewsAgree(ns, kept, all);
      assert Distinct(kept);
      hide NodesIn, NodeViews, Agree, Distinct;
      if pFollow != null {
        pFollow.m_pNext := pNext;
      } else {
        m_pFileLockList := pNext;
      }
      LinkFrame(ns);
      KeptSame(ns, kept, all, |ns|, was, keptWas);
    }

    /** The same once the locks of node `i`, which is `pTrav`, have been swept. */
    ghost predicate Visited(was: seq<CWebDavFileNode>, views: seq<Node>, kept: seq<CWebDavFileNode>, i: nat, ftNow: int,
                            pTrav: CWebDavFileNode, pNext: CWebDavFileNode?, pFollow: CWebDavFileNode?)
      reads this, was, kept, all
    {
      && i < |was| == |views| && NodesIn(was, all) && NodesIn(kept, all)
      && pTrav == was[i] && pNext == NodeOrNull(was, i + 1)
      && pFollow == (if kept == [] then null else kept[|kept| - 1])
      && LinksFrom(was, i) && RestApart(was, kept, i)
      && (forall n :: n in kept ==> n in was)
      && NodeViews(was, all)[i] == SweepNode(views[i], ftNow)
      && (forall j :: i < j < |was| ==> NodeViews(was, all)[j] == views[j])
      && NodeChain(m_pFileLockList, kept, pTrav)
      && NodeViews(kept, all) + SweepNodes(views[i..], ftNow) == SweepNodes(views, ftNow)
    }

    method Visit(ghost was: seq<CWebDavFileNode>, ghost views: seq<Node>, ghost kept: seq<CWebDavFileNode>,
                 ghost i: nat, ftNow: int, pTrav: CWebDavFileNode, pFollow: CWebDavFileNode?)
      returns (pNext: CWebDavFileNode?)
      requires Sweeping(was, views, kept, i, ftNow, pTrav, pFollow)
      modifies was, all
      ensures Visited(was, views, kept, i, ftNow, pTrav, pNext, pFollow)
    {
      hide NodesIn, NodeViews, SweepNodes, SweepNode, NodeList, NodeChain, LinksFrom, RestApart;
      LinkAt(was, i);
      RestNext(was, all, kept, i);
      LocksKnown(was, all, i);
      pNext := pTrav.m_pNext;
      SweepFile(pTrav, was, kept, i, ftNow);
    }

    /** Drops a node with no lock left, else keeps it. */
    method KeepOrDrop(ghost was: seq<CWebDavFileNode>, ghost views: seq<Node>, ghost kept: seq<CWebDavFileNode>,
                      ghost i: nat, ftNow: int, pTrav: CWebDavFileNode, pNext: CWebDavFileNode?, pFollow: CWebDavFileNode?)
      returns (pFollow': CWebDavFileNode?, ghost kept': seq<CWebDavFileNode>)
      requires Visited(was, views, kept, i, ftNow, pTrav, pNext, pFollow)
      modifies `m_pFileLockList, was`m_pNext
      ensures i < |was| && Sweeping(was, views, kept', i + 1, ftNow, pNext, pFollow')
    {
      hide NodesIn, NodeViews, SweepNodes, SweepNode, NodeList, NodeChain, LinksFrom, RestApart;
      SweepNodesStep(NodeViews(kept, all), views, i, ftNow);
      NoLocks(was, all, i);
      LinkAt(was, i);
      RestNext(was, all, kept, i);
      if pTrav.m_pLockList == null {
        pFollow', kept' := pFollow, kept;
        if pFollow != null { assert pFollow in kept && pFollow in was; }
        RelinkNodes(pFollow, pTrav, pNext, was, kept, i + 1);
      } else {
        pFollow', kept' := pTrav, kept + [pTrav];
        NodeChainExtends(m_pFileLockList, kept, pTrav);
        ExtendedDistinct(kept, pTrav, all);
        NodesSubset(was, kept', all);
        NodeViewsExtend(kept, pTrav, all);
        NodeViewsAt(was, i, all);
      }
    }

    /** RemoveTimedOutLocks: the expiry thread's sweep of the whole table. */
    method RemoveTimedOutLocks(ftNow: int)
      requires Valid()
      modifies this, nodes, all
      ensures Valid() && View() == Sweep(old(View()), ftNow)
    {
      hide NodeChain, NodesIn, NodeViews, SweepNodes, Sweeping, Visited, NodeList;
      ghost var was, views := nodes, NodeViews(nodes, all);
      ghost var i, kept := 0, [];
      var pTrav, pFollow: CWebDavFileNode? := m_pFileLockList, null;
      SweepBegins(ftNow);
      while pTrav != null
        invariant i <= |was| && Sweeping(was, views, kept, i, ftNow, pTrav, pFollow)
        invariant all == old(all) && m_iNextLockId == old(m_iNextLockId)
        decreases |was| - i
      {
        var pNext := Visit(was, views, kept, i, ftNow, pTrav, pFollow);
        pFollow, kept := KeepOrDrop(was, views, kept, i, ftNow, pTrav, pNext, pFollow);
        pTrav := pNext;
        i := i + 1;
      }
      SweepEnds(was, views, kept, i, ftNow, pFollow);
      nodes := kept;
    }

    lemma SweepBegins(ftNow: int)
      requires Valid()
      ensures Sweeping(nodes, NodeViews(nodes, all), [], 0, ftNow, m_pFileLockList, null)
    {
      SweepNodesStarts(NodeViews(nodes, all), ftNow);
      assert NodesIn([], all) && NodeViews([], all) == [];
      hide SweepNodes;
    }

    lemma SweepEnds(was: seq<CWebDavFileNode>, views: seq<Node>, kept: seq<CWebDavFileNode>, i: nat, ftNow: int,
                    pFollow: CWebDavFileNode?)
      requires Sweeping(was, views, kept, i, ftNow, null, pFollow)
      ensures NodeList(m_pFileLockList, kept) && NodesIn(kept, all) && NodeViews(kept, all) == SweepNodes(views, ftNow)
    {
      hide SweepNodes, NodeViews;
      SweepNodesDone(NodeViews(kept, all), views, ftNow);
      NodeChainIsList(m_pFileLockList, kept);
    }
  }
}
