/** The virtual-root router (PRIVATE/SERVERS/HTTP/CORE/vroots.hpp): a bubble sort by length and a
    first-match scan that together find the longest match on path segments. */
module VRoots {
  import opened Text
  import opened PathNames

  /** VROOTINFO, as far as routing looks at it; iURLLen is the length of pszURL. */
  datatype VRootInfo = VRootInfo(pszURL: string, iNumSlashes: nat, fRootDir: bool)

  function Len(v: VRootInfo): nat {
    |v.pszURL|
  }

  // ----------------------------------------------------------------- the sort

  ghost predicate Descending(s: seq<VRootInfo>) {
    forall i, j :: 0 <= i < j < |s| ==> Len(s[i]) >= Len(s[j])
  }

  /** The entries of one length, in order. */
  function OfLength(s: seq<VRootInfo>, n: nat): seq<VRootInfo> {
    if s == [] then []
    else
      var last := s[|s| - 1];
      OfLength(s[..|s| - 1], n) + if Len(last) == n then [last] else []
  }

  /** A stable reordering: entries of equal length keep their order. */
  ghost predicate StableCopy(s: seq<VRootInfo>, t: seq<VRootInfo>) {
    |s| == |t| && forall n :: OfLength(s, n) == OfLength(t, n)
  }

  function Weight(s: seq<VRootInfo>): nat {
    if s == [] then 0 else Weight(s[..|s| - 1]) + (|s| - 1) * Len(s[|s| - 1])
  }

  function Swapped(s: seq<VRootInfo>, i: nat): (r: seq<VRootInfo>)
    requires i + 1 < |s|
    ensures |r| == |s|
  {
    s[i := s[i + 1]][i + 1 := s[i]]
  }

  lemma SwappedFront(s: seq<VRootInfo>, i: nat)
    requires i + 1 < |s|
    ensures var r := Swapped(s, i);
            if i + 2 < |s| then r[..|s| - 1] == Swapped(s[..|s| - 1], i) && r[|s| - 1] == s[|s| - 1]
            else r == s[..i] + [s[i + 1]] + [s[i]] && s == s[..i] + [s[i]] + [s[i + 1]]
  {
  }

  lemma WeightSnoc(a: seq<VRootInfo>, x: VRootInfo)
    ensures Weight(a + [x]) == Weight(a) + |a| * Len(x)
  {
    assert (a + [x])[..|a|] == a;
  }

  lemma WeightPair(a: seq<VRootInfo>, x: VRootInfo, y: VRootInfo)
    ensures Weight(a + [x] + [y]) == Weight(a) + |a| * Len(x) + |a| * Len(y) + Len(y)
  {
    hide Weight;
    WeightSnoc(a, x);
    WeightSnoc(a + [x], y);
    OneMoreTime(|a|, Len(y));
    hide Len;
  }

  lemma OneMoreTime(n: int, k: int)
    ensures (n + 1) * k == n * k + k
  {
  }

  /** A swap of neighbours in the wrong order lowers the weight by the difference. */
  lemma {:induction false} SwapWeight(s: seq<VRootInfo>, i: nat)
    requires i + 1 < |s|
    ensures Weight(Swapped(s, i)) == Weight(s) + Len(s[i]) - Len(s[i + 1])
    decreases |s|
  {
    SwappedFront(s, i);
    var n := |s| - 1;
    if i + 1 < n {
      SwapWeight(s[..n], i);
    } else {
      WeightPair(s[..i], s[i], s[i + 1]);
      WeightPair(s[..i], s[i + 1], s[i]);
      hide Weight, Swapped;
    }
  }

  lemma OfLengthSnoc(a: seq<VRootInfo>, x: VRootInfo, n: nat)
    ensures OfLength(a + [x], n) == OfLength(a, n) + if Len(x) == n then [x] else []
  {
    assert (a + [x])[..|a|] == a;
  }

  lemma {:induction false} SwapStable(s: seq<VRootInfo>, i: nat, n: nat)
    requires i + 1 < |s| && Len(s[i]) != Len(s[i + 1])
    ensures OfLength(Swapped(s, i), n) == OfLength(s, n)
    decreases |s|
  {
    SwappedFront(s, i);
    var m := |s| - 1;
    if i + 1 < m {
      SwapStable(s[..m], i, n);
    } else {
      PairStable(s[..i], s[i], s[i + 1], n);
      hide OfLength, Swapped;
    }
  }

  lemma PairStable(a: seq<VRootInfo>, x: VRootInfo, y: VRootInfo, n: nat)
    requires Len(x) != Len(y)
    ensures OfLength(a + [x] + [y], n) == OfLength(a + [y] + [x], n)
  {
    hide OfLength;
    OfLengthSnoc(a, x, n);
    OfLengthSnoc(a, y, n);
    OfLengthSnoc(a + [x], y, n);
    OfLengthSnoc(a + [y], x, n);
    var p := OfLength(a, n);
    assert p + [] == p && (p + [x]) + [] == p + [x] && (p + [y]) + [] == p + [y];
  }

  lemma OfLengthLast(s: seq<VRootInfo>, n: nat)
    requires s != []
    ensures OfLength(s, n) == OfLength(s[..|s| - 1], n) + (if Len(s[|s| - 1]) == n then [s[|s| - 1]] else [])
  {
  }

  lemma {:induction false} OfLengthHas(s: seq<VRootInfo>, n: nat)
    ensures OfLength(s, n) != [] ==> exists i :: 0 <= i < |s| && Len(s[i]) == n
    ensures forall i :: 0 <= i < |s| && Len(s[i]) == n ==> OfLength(s, n) != []
  {
    if s != [] {
      var m := |s| - 1;
      OfLengthHas(s[..m], n);
      OfLengthLast(s, n);
      if OfLength(s[..m], n) != [] {
        var i :| 0 <= i < m && Len(s[..m][i]) == n;
        assert Len(s[i]) == n;
      }
      forall i | 0 <= i < |s| && Len(s[i]) == n
        ensures OfLength(s, n) != []
      {
        if i < m { assert s[..m][i] == s[i]; }
      }
    }
  }

  /** There is only one stable descending order. */
  lemma {:induction false} SortIsUnique(s: seq<VRootInfo>, t: seq<VRootInfo>)
    requires Descending(s) && Descending(t) && StableCopy(s, t)
    ensures s == t
    decreases |s|
  {
    if s != [] {
      var m := |s| - 1;
      var x, y := Len(s[m]), Len(t[m]);
      OfLengthHas(s, x);
      OfLengthHas(t, x);
      OfLengthHas(s, y);
      OfLengthHas(t, y);
      assert x == y;
      forall n
        ensures OfLength(s[..m], n) == OfLength(t[..m], n)
      {
        OfLengthLast(s, n);
        OfLengthLast(t, n);
        DropLast(s, t, m, n);
      }
      OfLengthLast(s, x);
      OfLengthLast(t, x);
      assert s[m] == OfLength(s, x)[|OfLength(s, x)| - 1];
      assert t[m] == OfLength(t, x)[|OfLength(t, x)| - 1];
      SortIsUnique(s[..m], t[..m]);
    }
  }

  lemma DropLast(s: seq<VRootInfo>, t: seq<VRootInfo>, m: nat, n: nat)
    requires |s| == |t| == m + 1 && OfLength(s, n) == OfLength(t, n) && Len(s[m]) == Len(t[m])
    ensures OfLength(s[..m], n) == OfLength(t[..m], n)
  {
    OfLengthLast(s, n);
    OfLengthLast(t, n);
    var a, b := OfLength(s[..m], n), OfLength(t[..m], n);
    hide OfLength;
    if Len(s[m]) == n {
      assert a + [s[m]] == b + [t[m]];
      assert |a| == |b|;
      assert a == (a + [s[m]])[..|a|] && b == (b + [t[m]])[..|b|];
    } else {
      assert a == a + [] && b == b + [];
    }
  }

  method SwapNeighbours(a: array<VRootInfo>, i: nat)
    requires i + 1 < a.Length && Len(a[i]) < Len(a[i + 1])
    modifies a
    ensures a[..] == Swapped(old(a[..]), i)
    ensures StableCopy(old(a[..]), a[..]) && Weight(a[..]) < Weight(old(a[..]))
  {
    ghost var s := a[..];
    var vtemp := a[i + 1];
    a[i + 1] := a[i];
    a[i] := vtemp;
    assert a[..] == Swapped(s, i);
    SwapWeight(s, i);
    forall n
      ensures OfLength(s, n) == OfLength(a[..], n)
    {
      SwapStable(s, i, n);
    }
  }

  ghost predicate InOrder(s: seq<VRootInfo>, i: nat) {
    forall j {:trigger Ordered(s, j)} :: 0 < j <= i && j < |s| ==> Ordered(s, j)
  }

  predicate Ordered(s: seq<VRootInfo>, j: nat)
    requires 0 < j < |s|
  {
    Len(s[j - 1]) >= Len(s[j])
  }

  lemma {:induction false} InOrderDescends(s: seq<VRootInfo>, i: nat, j: nat)
    requires InOrder(s, |s|) && i <= j < |s|
    ensures Len(s[i]) >= Len(s[j])
    decreases j
  {
    if i < j {
      InOrderDescends(s, i, j - 1);
      assert Ordered(s, j);
    }
  }

  /** The sort of Init: the entries in descending order of length, those of equal length in
      their old order. It ends because every swap lowers the weight. */
  method SortByLength(a: array<VRootInfo>)
    modifies a
    ensures Descending(a[..]) && StableCopy(old(a[..]), a[..])
  {
    hide Weight, OfLength, Swapped;
    var fChange := true;
    while fChange
      invariant StableCopy(old(a[..]), a[..]) && (!fChange ==> InOrder(a[..], a.Length))
      decreases Weight(a[..]), fChange
    {
      fChange := Pass(a);
    }
    forall i, j | 0 <= i < j < a.Length
      ensures Len(a[i]) >= Len(a[j])
    {
      InOrderDescends(a[..], i, j);
    }
  }

  /** One pass over all neighbours. */
  method Pass(a: array<VRootInfo>) returns (fChange: bool)
    modifies a
    ensures StableCopy(old(a[..]), a[..])
    ensures if fChange then Weight(a[..]) < Weight(old(a[..])) else a[..] == old(a[..]) && InOrder(a[..], a.Length)
  {
    hide Weight, OfLength, Swapped;
    ghost var was := a[..];
    fChange := false;
    var i := 0;
    while i < a.Length - 1
      invariant 0 <= i && (i < a.Length || i == 0)
      invariant StableCopy(was, a[..])
      invariant if fChange then Weight(a[..]) < Weight(was) else a[..] == was && InOrder(was, i)
    {
      if Len(a[i]) < Len(a[i + 1]) {
        SwapNeighbours(a, i);
        fChange := true;
      } else if !fChange {
        NextInOrder(was, i);
      }
      i := i + 1;
    }
    if !fChange { InOrderAll(was, i); }
  }

  lemma InOrderAll(s: seq<VRootInfo>, i: nat)
    requires InOrder(s, i) && |s| <= i + 1
    ensures InOrder(s, |s|)
  {
  }

  lemma NextInOrder(s: seq<VRootInfo>, i: nat)
    requires InOrder(s, i) && i + 1 < |s| && Len(s[i]) >= Len(s[i + 1])
    ensures InOrder(s, i + 1)
  {
  }

  // ----------------------------------------------------------------- slashes

  /** Slashes at the positions from `i` up to `j`. */
  function Slashes(s: string, i: nat, j: nat): (n: nat)
    decreases j - i
  {
    if j <= i || j > |s| then 0 else Slashes(s, i, j - 1) + if IsSlash(s[j - 1]) then 1 else 0
  }

  /** The slashes that CountSignificantSlashesInURL counts: neither the first character nor the last. */
  function Significant(s: string): nat {
    if |s| < 2 then 0 else Slashes(s, 1, |s| - 1)
  }

  method CountSignificantSlashesInURL(url: string, iURLLen: nat) returns (n: nat)
    requires iURLLen == |url|
    ensures n == Significant(url)
  {
    n := 0;
    var j := 1;
    while j < iURLLen - 1
      invariant 1 <= j && (iURLLen >= 2 ==> j <= iURLLen - 1) && n == Slashes(url, 1, j)
    {
      if IsSlash(url[j]) { n := n + 1; }
      j := j + 1;
    }
  }

  /** The first slash at or after `i`, or the end. */
  function NextSlash(s: string, i: nat): (p: nat)
    requires i <= |s|
    ensures i <= p <= |s| && (p < |s| ==> IsSlash(s[p])) && forall k :: i <= k < p ==> !IsSlash(s[k])
    decreases |s| - i
  {
    if i < |s| && !IsSlash(s[i]) then NextSlash(s, i + 1) else i
  }

  /** The end of the first `k + 1` segments: the slash number `k + 1` behind the first character. */
  function SegmentsEnd(s: string, k: nat): (p: nat)
    requires s != ""
    ensures 0 < p <= |s| && (p < |s| ==> IsSlash(s[p]))
  {
    if k == 0 then NextSlash(s, 1)
    else
      var p := SegmentsEnd(s, k - 1);
      if p == |s| then p else NextSlash(s, p + 1)
  }

  lemma {:induction false} NoSlashes(s: string, i: nat, j: nat)
    requires i <= j <= |s| && forall k :: i <= k < j ==> !IsSlash(s[k])
    ensures Slashes(s, i, j) == 0
    decreases j
  {
    if i < j { NoSlashes(s, i, j - 1); }
  }

  lemma {:induction false} SlashesSplit(s: string, i: nat, m: nat, j: nat)
    requires i <= m <= j <= |s|
    ensures Slashes(s, i, j) == Slashes(s, i, m) + Slashes(s, m, j)
    decreases j
  {
    if m < j { SlashesSplit(s, i, m, j - 1); }
  }

  /** In front of the end of `k + 1` segments there are `k` slashes, or fewer if the text ends there. */
  lemma {:induction false} SegmentSlashes(s: string, k: nat)
    requires s != ""
    ensures var p := SegmentsEnd(s, k);
            Slashes(s, 1, p) <= k && (p < |s| ==> Slashes(s, 1, p) == k)
  {
    if k == 0 {
      NoSlashes(s, 1, NextSlash(s, 1));
    } else {
      SegmentSlashes(s, k - 1);
      var p := SegmentsEnd(s, k - 1);
      if p < |s| {
        var q := NextSlash(s, p + 1);
        NoSlashes(s, p + 1, q);
        SlashesSplit(s, 1, p + 1, q);
      }
    }
  }

  /** It is the only position of that kind. */
  lemma SegmentsEndIs(s: string, k: nat, p: nat)
    requires s != "" && 0 < p <= |s| && (p < |s| ==> IsSlash(s[p]) && Slashes(s, 1, p) == k)
    requires p == |s| ==> Slashes(s, 1, p) <= k
    ensures SegmentsEnd(s, k) == p
  {
    SegmentSlashes(s, k);
    var q := SegmentsEnd(s, k);
    if q < p {
      SlashesSplit(s, 1, q, p);
      SlashesSplit(s, q, q + 1, p);
    } else if p < q {
      SlashesSplit(s, 1, p, q);
      SlashesSplit(s, p, p + 1, q);
    }
  }

  // --------------------------------------------------------------- the match

  predicate EqualNoCase(a: string, b: string) {
    |a| == |b| && forall k :: 0 <= k < |a| ==> Lower(a[k]) == Lower(b[k])
  }

  /** One entry's turn in MatchVRoot. */
  predicate Hits(v: VRootInfo, url: string)
    requires url != ""
  {
    var iLen := if v.fRootDir && Len(v) != 1 then Len(v) - 1 else Len(v);
    && iLen != 0 && |url| >= iLen
    && (iLen != 1 ==>
          && Significant(url) >= v.iNumSlashes
          && SegmentsEnd(url, v.iNumSlashes) == Len(v)
          && EqualNoCase(url[..Len(v)], v.pszURL))
  }

  /** What routing is for: the root of all URLs, or a prefix of the URL, up to case, that ends at
      the end of the URL or in front of a slash. */
  predicate Serves(v: VRootInfo, url: string) {
    (Len(v) == 1 && IsSlash(v.pszURL[0])) ||
    (Len(v) >= 1 && Len(v) <= |url| && EqualNoCase(url[..Len(v)], v.pszURL) && (Len(v) < |url| ==> IsSlash(url[Len(v)])))
  }

  /** An entry as the router needs it: a slash if it has one character, and else its slashes
      counted, no slash at its end, and no name of two characters for the root of the file system. */
  predicate EntryOk(v: VRootInfo) {
    && (Len(v) == 1 ==> IsSlash(v.pszURL[0]))
    && (Len(v) > 1 ==>
          && v.iNumSlashes == Significant(v.pszURL)
          && !IsSlash(v.pszURL[Len(v) - 1])
          && !(v.fRootDir && Len(v) == 2))
  }

  lemma {:induction false} SameSlashes(a: string, b: string, i: nat, j: nat)
    requires i <= j <= |a| && j <= |b| && forall k :: i <= k < j ==> Lower(a[k]) == Lower(b[k])
    ensures Slashes(a, i, j) == Slashes(b, i, j)
    decreases j
  {
    if i < j {
      SameSlashes(a, b, i, j - 1);
      assert Lower(a[j - 1]) == Lower(b[j - 1]);
    }
  }

  /** All the slashes of a name without one at its end are significant. */
  lemma NoSlashAtEnd(v: VRootInfo)
    requires EntryOk(v) && Len(v) > 1
    ensures Slashes(v.pszURL, 1, Len(v)) == v.iNumSlashes
  {
  }

  lemma {:induction false} MoreSlashes(s: string, i: nat, j: nat, m: nat)
    requires i <= j <= m <= |s|
    ensures Slashes(s, i, j) <= Slashes(s, i, m)
  {
    SlashesSplit(s, i, j, m);
  }

  lemma ServesHits(v: VRootInfo, url: string)
    requires url != "" && EntryOk(v) && Len(v) > 1 && Serves(v, url)
    ensures Hits(v, url)
  {
    var n := Len(v);
    NoSlashAtEnd(v);
    SamePrefix(url, v.pszURL, n);
    SameSlashes(url, v.pszURL, 1, n);
    SameSlashes(url, v.pszURL, 1, n - 1);
    SegmentsEndIs(url, v.iNumSlashes, n);
    MoreSlashes(url, 1, n - 1, |url| - 1);
  }

  lemma SamePrefix(a: string, b: string, n: nat)
    requires n <= |a| && EqualNoCase(a[..n], b)
    ensures |b| == n && forall k :: 0 <= k < n ==> Lower(a[k]) == Lower(b[k])
  {
    assert forall k :: 0 <= k < n ==> a[..n][k] == a[k];
  }

  /** An entry is matched as it should be for every URL exactly when it is as the router needs
      it; where it is not, its own name, "/", "a" or "b" is a URL that goes wrong. */
  lemma EntryMeaning(v: VRootInfo)
    ensures EntryOk(v) <==> forall url :: url != "" ==> (Hits(v, url) <==> Serves(v, url))
  {
    if EntryOk(v) {
      forall url | url != ""
        ensures Hits(v, url) <==> Serves(v, url)
      {
        if Len(v) > 1 && Serves(v, url) { ServesHits(v, url); }
      }
    } else {
      var url := BadUrl(v);
    }
  }

  /** A URL for which a bad entry goes wrong. */
  lemma BadUrl(v: VRootInfo) returns (url: string)
    requires !EntryOk(v)
    ensures url != "" && Hits(v, url) != Serves(v, url)
  {
    url := v.pszURL;
    if Len(v) == 1 {
      url := if Lower(v.pszURL[0]) == 'a' then "b" else "a";
      assert Lower(url[..1][0]) != Lower(v.pszURL[0]);
    } else if v.fRootDir && Len(v) == 2 {
      url := "/";
    } else {
      var n, k := Len(v), v.iNumSlashes;
      assert url[..n] == url && Serves(v, url);
      SegmentSlashes(url, k);
      assert Slashes(url, 1, n) == Significant(url) + if IsSlash(url[n - 1]) then 1 else 0;
    }
  }

  /** An entry takes every URL exactly if it has one character, whatever the character is, or has
      two and stands for the root of the file system. */
  lemma TakesEveryUrl(v: VRootInfo)
    ensures (forall url :: url != "" ==> Hits(v, url)) <==> Len(v) == 1 || (v.fRootDir && Len(v) == 2)
  {
    if Len(v) != 1 && !(v.fRootDir && Len(v) == 2) { assert !Hits(v, "/"); }
  }

  /** The first entry that hits, or the number of entries. */
  function FirstHit(s: seq<VRootInfo>, url: string): (i: nat)
    requires url != ""
    ensures i <= |s| && (i < |s| ==> Hits(s[i], url)) && forall j :: 0 <= j < i ==> !Hits(s[j], url)
  {
    if s == [] || Hits(s[0], url) then 0 else 1 + FirstHit(s[1..], url)
  }

  lemma FirstHitIs(s: seq<VRootInfo>, url: string, i: nat)
    requires url != "" && i <= |s| && (i < |s| ==> Hits(s[i], url)) && forall j :: 0 <= j < i ==> !Hits(s[j], url)
    ensures FirstHit(s, url) == i
  {
  }

  /** Routing is longest match: on a sorted table of good entries the first hit serves the URL,
      and no longer entry does; without a hit none serves it. */
  lemma RoutingIsLongestMatch(s: seq<VRootInfo>, url: string)
    requires url != "" && Descending(s) && forall i :: 0 <= i < |s| ==> EntryOk(s[i])
    ensures var i := FirstHit(s, url);
            && (i < |s| ==> Serves(s[i], url) && forall j :: 0 <= j < |s| && Serves(s[j], url) ==> Len(s[j]) <= Len(s[i]))
            && (i == |s| ==> forall j :: 0 <= j < |s| ==> !Serves(s[j], url))
  {
    var i := FirstHit(s, url);
    forall j | 0 <= j < |s|
      ensures Hits(s[j], url) <==> Serves(s[j], url)
    {
      EntryMeaning(s[j]);
    }
    hide Hits, Serves, EntryOk, FirstHit;
  }

  // ------------------------------------------------------------- the matcher

  class CVRoots {
    var m_pVRoots: array?<VRootInfo>

    /** Init, once the entries have been read: they are sorted. */
    constructor (entries: array<VRootInfo>)
      modifies entries
      ensures m_pVRoots == entries && Descending(entries[..]) && StableCopy(old(entries[..]), entries[..])
    {
      m_pVRoots := entries;
      new;
      SortByLength(entries);
    }

    /** MatchVRoot: the first entry that hits, none if there is none. */
    method MatchVRoot(url: string) returns (r: Option<nat>)
      requires url != ""
      ensures var s := if m_pVRoots == null then [] else m_pVRoots[..];
              r == if FirstHit(s, url) < |s| then Some(FirstHit(s, url)) else None
    {
      hide FirstHit, Hits, SegmentsEnd;
      if m_pVRoots == null { return None; }
      ghost var s := m_pVRoots[..];
      var iInputSlashes := CountSignificantSlashesInURL(url, |url|);
      var szFirst := GetNextSlash(url, 1);
      var i := 0;
      FirstSegment(url);
      while i < m_pVRoots.Length
        invariant 0 <= i <= |s| && forall j :: 0 <= j < i ==> !Hits(s[j], url)
      {
        var hit := MatchEntry(m_pVRoots[i], url, iInputSlashes, szFirst);
        if hit {
          FirstHitIs(s, url, i);
          return Some(i);
        }
        i := i + 1;
      }
      FirstHitIs(s, url, i);
      r := None;
    }
  }

  lemma FirstSegment(url: string)
    requires url != ""
    ensures SegmentsEnd(url, 0) == NextSlash(url, 1)
  {
  }

  /** GetNextSlash with the end of the string for no slash; the precondition says that no search
      begins past the end. */
  method GetNextSlash(s: string, i: nat) returns (p: nat)
    requires i <= |s|
    ensures p == NextSlash(s, i)
  {
    p := i;
    while p < |s| && !IsSlash(s[p])
      invariant i <= p <= |s| && NextSlash(s, i) == NextSlash(s, p)
    {
      p := p + 1;
    }
  }

  /** The body of the loop over the entries. */
  method MatchEntry(v: VRootInfo, url: string, iInputSlashes: nat, szFirst: nat) returns (hit: bool)
    requires url != "" && iInputSlashes == Significant(url) && szFirst == SegmentsEnd(url, 0)
    ensures hit == Hits(v, url)
  {
    hide SegmentsEnd, Significant, EqualNoCase;
    var iLen := |v.pszURL|;
    if v.fRootDir && iLen != 1 { iLen := iLen - 1; }
    if !(iLen != 0 && |url| >= iLen) { return false; }
    if iLen == 1 { return true; }
    var k := v.iNumSlashes;
    if iInputSlashes < k { return false; }
    var iURLLen := WalkSlashes(url, k, szFirst);
    if iURLLen != |v.pszURL| { return false; }
    hit := MemICmp(url[..iURLLen], v.pszURL);
  }

  /** The walk over the segments of a URL that has enough slashes: it never passes the end. */
  method WalkSlashes(url: string, iNumSlashes: nat, szFirst: nat) returns (p: nat)
    requires url != "" && iNumSlashes <= Significant(url) && szFirst == SegmentsEnd(url, 0)
    ensures p == SegmentsEnd(url, iNumSlashes)
  {
    hide Significant, SegmentsEnd, NextSlash;
    p := szFirst;
    var n := iNumSlashes;
    while n != 0
      invariant 0 <= n <= iNumSlashes && p == SegmentsEnd(url, iNumSlashes - n)
    {
      StillInside(url, iNumSlashes, iNumSlashes - n);
      p := GetNextSlash(url, p + 1);
      n := n - 1;
    }
  }

  lemma StillInside(url: string, k: nat, t: nat)
    requires url != "" && t < k <= Significant(url)
    ensures SegmentsEnd(url, t) < |url| && SegmentsEnd(url, t + 1) == NextSlash(url, SegmentsEnd(url, t) + 1)
  {
    SegmentSlashes(url, t);
    MoreSlashes(url, 1, |url| - 1, |url|);
  }

  /** _memicmp for two strings of one length. */
  method MemICmp(a: string, b: string) returns (same: bool)
    requires |a| == |b|
    ensures same == EqualNoCase(a, b)
  {
    var i := 0;
    while i < |a|
      invariant 0 <= i <= |a| && forall k :: 0 <= k < i ==> Lower(a[k]) == Lower(b[k])
    {
      if Lower(a[i]) != Lower(b[i]) { return false; }
      i := i + 1;
    }
    same := true;
  }
}
