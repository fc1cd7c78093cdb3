/** The WebDAV lock table as a state machine over values: one function per critical section
    of the lock manager (PRIVATE/SERVERS/HTTP/WEBDAV/davlock.cpp). */
module LockTable {
  import opened Text
  import opened PathNames

  datatype ShareMode = DAV_LOCK_UNKNOWN | DAV_LOCK_SHARED | DAV_LOCK_EXCLUSIVE

  const DAV_INITIAL_LOCK_ID: int := 50 * 0x1_0000_0000 + 50

  datatype Lock = Lock(id: int, expires: int)

  /** A locked file; `locks` is in list order, so newest first. */
  datatype Node = Node(path: Path, mode: ShareMode, busy: bool, locks: seq<Lock>)

  /** The manager; `nodes` is in list order. */
  datatype Table = Table(nodes: seq<Node>, nextId: int)

  const EMPTY := Table([], DAV_INITIAL_LOCK_ID)

  // ----------------------------------------------------------------- look-ups

  /** HasLockId, as a position: |ls| when the id is absent. */
  function LockAt(ls: seq<Lock>, id: int): (i: nat)
    ensures i <= |ls| && (i < |ls| ==> ls[i].id == id)
    ensures forall k :: 0 <= k < i ==> ls[k].id != id
  {
    if ls == [] || ls[0].id == id then 0 else 1 + LockAt(ls[1..], id)
  }

  predicate HasId(ls: seq<Lock>, id: int) {
    LockAt(ls, id) < |ls|
  }

  /** GetNodeFromFileName, as a position: |ns| when no node has an equal name. */
  function NodeAt(fold: Fold, ns: seq<Node>, path: Path): (i: nat)
    ensures i <= |ns| && (i < |ns| ==> Key(fold, ns[i].path) == Key(fold, path))
    ensures forall k :: 0 <= k < i ==> Key(fold, ns[k].path) != Key(fold, path)
  {
    if ns == [] || Key(fold, ns[0].path) == Key(fold, path) then 0 else 1 + NodeAt(fold, ns[1..], path)
  }

  /** GetNodeFromID, as a position. */
  function NodeWithId(ns: seq<Node>, id: int): (i: nat)
    ensures i <= |ns| && (i < |ns| ==> HasId(ns[i].locks, id))
    ensures forall k :: 0 <= k < i ==> !HasId(ns[k].locks, id)
  {
    if ns == [] || HasId(ns[0].locks, id) then 0 else 1 + NodeWithId(ns[1..], id)
  }

  predicate IsLocked(fold: Fold, t: Table, path: Path) {
    NodeAt(fold, t.nodes, path) < |t.nodes|
  }

  predicate IsFileAssociatedWithLockId(fold: Fold, t: Table, path: Path, id: int) {
    var i := NodeAt(fold, t.nodes, path);
    i < |t.nodes| && HasId(t.nodes[i].locks, id)
  }

  // --------------------------------------------------------- critical sections

  datatype Created = BadRequest | Refused | Failed | Issued(id: int)

  /** What a LOCK request meets outside the table: whether opening the file, making a node
      and making a lock succeed. */
  datatype Resources = Resources(fileOpens: bool, nodeMade: bool, lockMade: bool)

  function Without<T>(s: seq<T>, i: nat): (r: seq<T>)
    requires i < |s|
    ensures |r| == |s| - 1
  {
    s[..i] + s[i + 1..]
  }

  function CreateLock(fold: Fold, t: Table, path: Path, mode: ShareMode, expires: int, res: Resources): (Table, Created) {
    if mode == DAV_LOCK_UNKNOWN then (t, BadRequest)
    else
      var i := NodeAt(fold, t.nodes, path);
      if i < |t.nodes| then
        if t.nodes[i].mode == DAV_LOCK_EXCLUSIVE || mode == DAV_LOCK_EXCLUSIVE then (t, Refused)
        else if !res.lockMade then (t.(nextId := t.nextId + 1), Failed)
        else
          var n := t.nodes[i];
          (Table(t.nodes[i := n.(locks := [Lock(t.nextId, expires)] + n.locks)], t.nextId + 1), Issued(t.nextId))
      else if !res.fileOpens || !res.nodeMade then (t, Failed)
      else if !res.lockMade then (t.(nextId := t.nextId + 1), Failed)
      else (Table([Node(path, mode, false, [Lock(t.nextId, expires)])] + t.nodes, t.nextId + 1), Issued(t.nextId))
  }

  function DeleteLock(t: Table, id: int): (Table, bool) {
    var i := NodeWithId(t.nodes, id);
    if i == |t.nodes| || t.nodes[i].busy then (t, false)
    else
      var n := t.nodes[i];
      var ls := Without(n.locks, LockAt(n.locks, id));
      (t.(nodes := if ls == [] then Without(t.nodes, i) else t.nodes[i := n.(locks := ls)]), true)
  }

  /** A new expiry for a lock of the file, if it is there. */
  function RefreshLock(fold: Fold, t: Table, path: Path, id: int, expires: int): Table {
    var i := NodeAt(fold, t.nodes, path);
    if i == |t.nodes| || !HasId(t.nodes[i].locks, id) then t
    else
      var n := t.nodes[i];
      t.(nodes := t.nodes[i := n.(locks := n.locks[LockAt(n.locks, id) := Lock(id, expires)])])
  }

  /** The locks of one list that have not expired. */
  function Unexpired(ls: seq<Lock>, now: int): seq<Lock> {
    if ls == [] then []
    else if now > ls[0].expires then Unexpired(ls[1..], now)
    else [ls[0]] + Unexpired(ls[1..], now)
  }

  function SweepNode(n: Node, now: int): Node {
    if n.busy then n else n.(locks := Unexpired(n.locks, now))
  }

  function SweepNodes(ns: seq<Node>, now: int): seq<Node> {
    if ns == [] then []
    else
      var n := SweepNode(ns[0], now);
      if n.locks == [] then SweepNodes(ns[1..], now) else [n] + SweepNodes(ns[1..], now)
  }

  function Sweep(t: Table, now: int): Table {
    t.(nodes := SweepNodes(t.nodes, now))
  }

  function SetBusy(fold: Fold, t: Table, path: Path, b: bool): Table {
    var i := NodeAt(fold, t.nodes, path);
    if i == |t.nodes| then t else t.(nodes := t.nodes[i := t.nodes[i].(busy := b)])
  }

  /** HasLockIdInArray. */
  predicate HasAnyId(ls: seq<Lock>, ids: seq<int>) {
    exists k :: 0 <= k < |ids| && HasId(ls, ids[k])
  }

  /** The decision for the nodes at `i` and `j`, |ns| standing for no node. */
  predicate TokensOk(ns: seq<Node>, i: nat, j: nat, ids: seq<int>) {
    if ids == [] then i >= |ns| && j >= |ns|
    else
      && (i < |ns| || j < |ns|)
      && (i < |ns| ==> HasAnyId(ns[i].locks, ids))
      && (j < |ns| ==> HasAnyId(ns[j].locks, ids))
  }

  /** CanPerformLockedOperation for one or two files. */
  predicate CanPerform(fold: Fold, t: Table, file1: Path, file2: Option<Path>, ids: seq<int>) {
    var j := if file2.None? then |t.nodes| else NodeAt(fold, t.nodes, file2.value);
    TokensOk(t.nodes, NodeAt(fold, t.nodes, file1), j, ids)
  }

  /** Drops a file's node, if there is one. */
  function RemoveFile(fold: Fold, t: Table, path: Path): Table {
    var i := NodeAt(fold, t.nodes, path);
    if i == |t.nodes| then t else t.(nodes := Without(t.nodes, i))
  }

  /** The locked-delete step of DavDeleteFile. */
  function DeleteLockedFile(fold: Fold, t: Table, path: Path, ids: seq<int>): (Table, bool) {
    if ids != [] && CanPerform(fold, t, path, None, ids) then (RemoveFile(fold, t, path), true) else (t, false)
  }

  /** The first critical section of a MOVE or COPY that goes through tokens: the locked ones of the
      two files become busy, unless a file that is not locked cannot be opened; then their flags
      are cleared. */
  function BeginCopy(fold: Fold, t: Table, src: Path, dst: Path, ids: seq<int>, srcOpens: bool, dstOpens: bool)
    : (Table, bool)
  {
    if ids == [] || !CanPerform(fold, t, src, Some(dst), ids) then (t, false)
    else
      var ok := (IsLocked(fold, t, src) || srcOpens) && (IsLocked(fold, t, dst) || dstOpens);
      (SetBusy(fold, SetBusy(fold, t, src, ok), dst, ok), ok)
  }

  /** The second one, for the files that were locked in the first: they are busy no more, and the
      source goes if it has been moved. */
  function EndCopy(fold: Fold, t: Table, src: Path, dst: Path, srcLocked: bool, dstLocked: bool, moved: bool): Table {
    var t1 := if srcLocked then SetBusy(fold, t, src, false) else t;
    var t2 := if dstLocked then SetBusy(fold, t1, dst, false) else t1;
    if srcLocked && moved then RemoveFile(fold, t2, src) else t2
  }

  // ---------------------------------------------------------------- invariant

  function Ids(ls: seq<Lock>): set<int> {
    set k | 0 <= k < |ls| :: ls[k].id
  }

  predicate DistinctIds(ls: seq<Lock>) {
    forall i, j :: 0 <= i < j < |ls| ==> ls[i].id != ls[j].id
  }

  predicate NodeOk(n: Node, nextId: int) {
    && (n.mode == DAV_LOCK_SHARED || n.mode == DAV_LOCK_EXCLUSIVE)
    && n.locks != []
    && (n.mode == DAV_LOCK_EXCLUSIVE ==> |n.locks| == 1)
    && DistinctIds(n.locks)
    && (forall id :: id in Ids(n.locks) ==> DAV_INITIAL_LOCK_ID <= id < nextId)
  }

  /** Two nodes of a table have different names and no id in common. */
  predicate Apart(fold: Fold, a: Node, b: Node) {
    Key(fold, a.path) != Key(fold, b.path) && Ids(a.locks) !! Ids(b.locks)
  }

  ghost predicate Inv(fold: Fold, t: Table) {
    && t.nextId >= DAV_INITIAL_LOCK_ID
    && (forall i :: 0 <= i < |t.nodes| ==> NodeOk(t.nodes[i], t.nextId))
    && (forall i, j :: 0 <= i < j < |t.nodes| ==> Apart(fold, t.nodes[i], t.nodes[j]))
  }
}
