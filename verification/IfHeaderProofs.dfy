/** The `If:` header evaluator accepts exactly the headers of its grammar whose conditions all
    hold, and collects exactly the ids of the un-negated lock tokens. */
module IfHeaderProofs {
  import opened Text
  import opened PathNames
  import opened LockToken
  import opened IfHeader

  // ---------------------------------------------------------------- text pieces

  lemma IndexIs(s: string, c: char, i: nat)
    requires i < |s| && s[i] == c && c !in s[..i]
    ensures IndexOf(s, c) == i
  {
    forall k | 0 <= k < i
      ensures s[k] != c
    {
      assert s[k] in s[..i];
    }
  }

  lemma IndexAfter(a: string, c: char, b: string)
    requires c !in a
    ensures IndexOf(a + ([c] + b), c) == |a|
    ensures (a + ([c] + b))[..|a|] == a && (a + ([c] + b))[|a| + 1..] == b
  {
    assert (a + ([c] + b))[..|a|] == a;
    IndexIs(a + ([c] + b), c, |a|);
  }

  lemma IndexSplits(s: string, c: char)
    requires IndexOf(s, c) < |s|
    ensures var i := IndexOf(s, c); c !in s[..i] && s == s[..i] + ([c] + s[i + 1..])
  {
    CutFound(s, IndexOf(s, c));
    hide IndexOf;
  }

  lemma CutFound(s: string, i: nat)
    requires i < |s|
    ensures s == s[..i] + ([s[i]] + s[i + 1..])
  {
  }

  /** White space in front of text that starts with none is what is skipped. */
  lemma SkipsWhite(w: string, s: string)
    requires White(w) && (s == "" || !IsSpace(s[0]))
    ensures SkipWhite(w + s) == s
  {
    WhiteLenIs(w + s, |w|);
  }

  lemma SkippedWhite(s: string)
    ensures White(s[..WhiteLen(s)]) && s == s[..WhiteLen(s)] + SkipWhite(s)
    ensures SkipWhite(s) == "" || !IsSpace(SkipWhite(s)[0])
  {
    WhiteLenMeaning(s);
  }

  // ------------------------------------------------------------------ one list

  /** The text of a condition from its opening bracket on. */
  function Bracketed(c: Cond): string {
    (if c.etag then "[" else "<") + (c.text + ((if c.etag then "]" else ">") + c.after))
  }

  /** A rendered condition is read as that condition. */
  lemma EvalRenderedCond(ctx: Context, path: Option<Path>, c: Cond, rest: string)
    requires CondOk(c) && (rest == "" || !IsSpace(rest[0]))
    ensures var s := RenderCond(c) + rest;
            var id := if c.etag then 0 else TokenId(ctx, path, c.text);
            var got := if id != 0 then [id] else [];
            var v := EvalConds(ctx, path, rest);
            EvalConds(ctx, path, s) ==
              if !Holds(ctx, path, c) then Verdict(PreconditionFailed, got) else Verdict(v.status, got + v.ids)
  {
    hide StartsWith, TokenId, TagMatches, SkipWhite, IndexOf, RenderCond, Bracketed, EvalConds, White;
    var s := RenderCond(c) + rest;
    var r := Bracketed(c) + rest;
    CondStart(c, rest);
    BracketedParts(c, rest);
    SkipsWhite(c.after, rest);
    EvalStep(ctx, path, s, Negated(c), r, |c.text| + 1);
    hide CondOk;
  }

  lemma BracketedParts(c: Cond, rest: string)
    requires CondOk(c)
    ensures var r := Bracketed(c) + rest;
            var k := |c.text| + 1;
            && k < |r| && r[0] == (if c.etag then '[' else '<') && r[1..k] == c.text && r[k + 1..] == c.after + rest
            && IndexOf(r, Closer(r[0])) == k
  {
    hide White, Bracketed, IndexOf;
    var closer := if c.etag then ']' else '>';
    BracketedShape(c, rest);
    IndexAfter(c.text, closer, c.after + rest);
    BracketedIndex(Bracketed(c) + rest, closer);
  }

  /** One round of the inner loop. */
  lemma EvalStep(ctx: Context, path: Option<Path>, s: string, negated: bool, r: string, k: nat)
    requires s != "" && StartsWith(s, "not") == negated && (if negated then SkipWhite(s[3..]) else s) == r
    requires r != "" && (r[0] == '<' || r[0] == '[') && k < |r| && k == IndexOf(r, Closer(r[0])) && k > 0
    ensures var id := if r[0] == '<' then TokenId(ctx, path, r[1..k]) else 0;
            var holds := if r[0] == '<' then id != 0 else TagMatches(ctx, path, r[1..k]);
            var got := if id != 0 then [id] else [];
            var v := EvalConds(ctx, path, SkipWhite(r[k + 1..]));
            EvalConds(ctx, path, s) ==
              if holds == negated then Verdict(PreconditionFailed, got) else Verdict(v.status, got + v.ids)
  {
    hide StartsWith, TokenId, TagMatches, SkipWhite, IndexOf;
  }

  lemma BracketedShape(c: Cond, rest: string)
    ensures var r := Bracketed(c) + rest;
            r != "" && r[0] == (if c.etag then '[' else '<') &&
            r[1..] == c.text + ([if c.etag then ']' else '>'] + (c.after + rest))
  {
  }

  lemma BracketedIndex(r: string, closer: char)
    requires r != "" && r[0] != closer
    ensures var k := IndexOf(r[1..], closer);
            IndexOf(r, closer) == k + 1 && r[1..k + 1] == r[1..][..k] &&
            (k < |r| - 1 ==> r[k + 2..] == r[1..][k + 1..])
  {
  }

  lemma CondStart(c: Cond, rest: string)
    requires CondOk(c)
    ensures var s := RenderCond(c) + rest;
            s != "" && StartsWith(s, "not") == Negated(c) &&
            (if Negated(c) then SkipWhite(s[3..]) else s) == Bracketed(c) + rest
  {
    var s := RenderCond(c) + rest;
    var r := Bracketed(c) + rest;
    BracketedShape(c, rest);
    assert s == c.no + (c.gap + r);
    if Negated(c) {
      assert s[3..] == c.gap + r;
      SkipsWhite(c.gap, r);
    } else {
      assert s == r;
      assert Lower(s[0]) != Lower("not"[0]);
    }
  }

  ghost predicate CondsOk(cs: seq<Cond>) {
    forall i :: 0 <= i < |cs| ==> CondOk(cs[i])
  }

  lemma {:induction false} CondsStart(cs: seq<Cond>)
    requires CondsOk(cs)
    ensures RenderConds(cs) == "" || !IsSpace(RenderConds(cs)[0])
    ensures ')' !in RenderConds(cs)
  {
    if cs != [] {
      CondsStart(cs[1..]);
      CondText(cs[0]);
    }
  }

  lemma CondText(c: Cond)
    requires CondOk(c)
    ensures RenderCond(c) != "" && !IsSpace(RenderCond(c)[0]) && ')' !in RenderCond(c)
  {
    if Negated(c) {
      assert RenderCond(c)[0] == c.no[0] && Lower(c.no[0]) == Lower("not"[0]);
      assert Lower(c.no[1]) == Lower("not"[1]) && Lower(c.no[2]) == Lower("not"[2]);
      assert c.no == [c.no[0], c.no[1], c.no[2]];
    }
    assert ')' !in c.no;
    assert ')' !in c.gap && ')' !in c.after;
    hide CondOk, StartsWith, White;
  }

  /** The inner loop on a list of the grammar. */
  lemma {:induction false} EvalRenderedConds(ctx: Context, path: Option<Path>, cs: seq<Cond>)
    requires CondsOk(cs)
    ensures var v := EvalConds(ctx, path, RenderConds(cs));
            if ListHolds(ctx, path, cs) then v == Verdict(Fine, ListIds(ctx, path, cs))
            else v.status == PreconditionFailed
  {
    if cs != [] {
      var rest := RenderConds(cs[1..]);
      CondsStart(cs[1..]);
      EvalRenderedCond(ctx, path, cs[0], rest);
      EvalRenderedConds(ctx, path, cs[1..]);
      ListSplits(ctx, path, cs);
      hide EvalConds, TokenId, TagMatches, RenderCond, CondsOk, ListHolds;
    }
  }

  lemma ListSplits(ctx: Context, path: Option<Path>, cs: seq<Cond>)
    requires cs != []
    ensures ListHolds(ctx, path, cs) <==> Holds(ctx, path, cs[0]) && ListHolds(ctx, path, cs[1..])
  {
    hide Holds;
    if Holds(ctx, path, cs[0]) && ListHolds(ctx, path, cs[1..]) {
      forall i | 0 <= i < |cs|
        ensures Holds(ctx, path, cs[i])
      {
        if i > 0 { assert cs[i] == cs[1..][i - 1]; }
      }
    }
    if ListHolds(ctx, path, cs) {
      assert forall i :: 0 <= i < |cs[1..]| ==> cs[1..][i] == cs[i + 1];
    }
  }

  // ------------------------------------------------------------------ the groups

  /** One round of the outer loop. */
  lemma EvalRound(ctx: Context, s: string, path: Option<Path>, inner: string, body: string, after: string, rest: string)
    requires s != "" && Open(ctx, s) == Opening(path, "(" + (inner + (body + (")" + (after + rest)))))
    requires White(inner) && White(after) && ')' !in body
    requires body == "" || !IsSpace(body[0])
    requires rest == "" || !IsSpace(rest[0])
    ensures var v := EvalConds(ctx, path, body);
            var w := EvalGroups(ctx, rest);
            EvalGroups(ctx, s) == if v.status != Fine then v else Verdict(w.status, v.ids + w.ids)
  {
    hide Open, EvalConds, SkipWhite, IndexOf, White, EvalGroups;
    var b := body + (")" + (after + rest));
    BodyStart(body, after + rest);
    SkipsWhite(inner, b);
    IndexAfter(body, ')', after + rest);
    SkipsWhite(after, rest);
    OneMore('(', inner + b);
    RoundStep(ctx, s, path, "(" + (inner + b), b, |body|);
  }

  lemma BodyStart(body: string, tail: string)
    requires body == "" || !IsSpace(body[0])
    ensures var b := body + (")" + tail); b != "" && !IsSpace(b[0]) && |body| < |b|
  {
  }

  lemma OneMore(c: char, s: string)
    ensures [c] + s != "" && ([c] + s)[0] == c && ([c] + s)[1..] == s
  {
  }

  lemma RoundStep(ctx: Context, s: string, path: Option<Path>, o: string, b: string, e: nat)
    requires s != "" && Open(ctx, s) == Opening(path, o) && o != "" && o[0] == '('
    requires b == SkipWhite(o[1..]) && e == IndexOf(b, ')') && e < |b|
    ensures var v := EvalConds(ctx, path, b[..e]);
            var w := EvalGroups(ctx, SkipWhite(b[e + 1..]));
            EvalGroups(ctx, s) == if v.status != Fine then v else Verdict(w.status, v.ids + w.ids)
  {
    hide Open, EvalConds, SkipWhite, IndexOf;
  }

  lemma GroupsStart(gs: seq<Group>)
    ensures RenderGroups(gs) == "" || !IsSpace(RenderGroups(gs)[0])
    ensures gs != [] ==> RenderGroups(gs) != ""
  {
  }

  lemma ListShape(g: Group, rest: string)
    ensures RenderList(g) + rest == "(" + (g.inner + (RenderConds(g.conds) + (")" + (g.after + rest))))
  {
    hide RenderConds;
  }

  /** A rendered group opens with its tag. */
  lemma OpenRendered(ctx: Context, gs: seq<Group>)
    requires gs != [] && GroupsOk(gs)
    ensures Open(ctx, RenderGroups(gs)) == Opening(PathOf(ctx, gs[0]), RenderList(gs[0]) + RenderGroups(gs[1..]))
  {
    var g, rest := gs[0], RenderGroups(gs[1..]);
    var body := RenderList(g) + rest;
    ListShape(g, rest);
    OneMore('(', g.inner + (RenderConds(g.conds) + (")" + (g.after + rest))));
    hide RenderList;
    if g.tag.None? {
      OpenPlain(ctx, body);
    } else {
      var t := g.tag.value;
      TaggedShape(t, RenderList(g), rest);
      OpenTagged(ctx, t, body);
    }
    hide Open, TagOk;
  }

  lemma OpenPlain(ctx: Context, s: string)
    requires s != "" && s[0] == '('
    ensures Open(ctx, s) == Opening(None, s)
  {
    WhiteLenIs(s, 0);
    assert s[0..] == s;
  }

  lemma OpenTagged(ctx: Context, t: Tag, body: string)
    requires TagOk(t, body) && body != "" && body[0] == '('
    ensures Open(ctx, "<" + (t.url + (">" + (t.gap + body)))) ==
              Opening(ctx.toPath(t.url[HostEnd(t.url).value..]), body)
  {
    hide HostEnd, IndexOf, TagOk, ReadTag;
    TagRead(ctx, t, body);
    var url := t.url + (">" + (t.gap + body));
    OneMore('<', url);
    WhiteLenIs("<" + url, 0);
    assert ("<" + url)[0..] == "<" + url;
    hide WhiteLen;
  }

  lemma TagRead(ctx: Context, t: Tag, body: string)
    requires TagOk(t, body) && body != "" && body[0] == '('
    ensures ReadTag(ctx, t.url + (">" + (t.gap + body))) == Opening(ctx.toPath(t.url[HostEnd(t.url).value..]), body)
  {
    HostInside(t.url);
    hide HostEnd, IndexOf, SkipWhite, ReadTag, White;
    var p := HostEnd(t.url).value;
    var tail := t.gap + body;
    IndexAfter(t.url[p..], '>', tail);
    CutAt(t.url, p, '>', tail);
    SkipsWhite(t.gap, body);
    ReadStep(ctx, t.url + (">" + tail), p, |t.url|);
  }

  lemma HostInside(url: string)
    ensures HostEnd(url).Some? ==> HostEnd(url).value <= |url|
  {
  }

  lemma CutAt(a: string, p: nat, c: char, b: string)
    requires p <= |a|
    ensures var s := a + ([c] + b);
            s[p..] == a[p..] + ([c] + b) && s[p..|a|] == a[p..] && s[|a| + 1..] == b && p <= |s|
  {
  }

  lemma ReadStep(ctx: Context, url: string, p: nat, e: nat)
    requires HostEnd(url) == Some(p) && p <= e < |url| && IndexOf(url[p..], '>') == e - p
    ensures ReadTag(ctx, url) == Opening(ctx.toPath(url[p..e]), SkipWhite(url[e + 1..]))
  {
    hide SkipWhite, HostEnd, IndexOf;
  }

  lemma TaggedShape(t: Tag, list: string, rest: string)
    ensures ("<" + (t.url + (">" + (t.gap + list)))) + rest == "<" + (t.url + (">" + (t.gap + (list + rest))))
  {
  }

  /** The outer loop on groups of the grammar. */
  lemma {:induction false} EvalRenderedGroups(ctx: Context, gs: seq<Group>)
    requires GroupsOk(gs)
    ensures var v := EvalGroups(ctx, RenderGroups(gs));
            if AllHold(ctx, gs) then v == Verdict(Fine, AllIds(ctx, gs)) else v.status == PreconditionFailed
    decreases |gs|
  {
    if gs != [] {
      var g, rest := gs[0], RenderGroups(gs[1..]);
      var path := PathOf(ctx, g);
      OpenRendered(ctx, gs);
      ListShape(g, rest);
      GroupsStart(gs);
      GroupsStart(gs[1..]);
      CondsStart(g.conds);
      EvalRenderedConds(ctx, path, g.conds);
      EvalRound(ctx, RenderGroups(gs), path, g.inner, RenderConds(g.conds), g.after, rest);
      EvalRenderedGroups(ctx, gs[1..]);
      GroupsSplit(ctx, gs);
      hide EvalGroups, EvalConds, RenderGroup, RenderList, Open, ListHolds, AllHold, GroupsOk;
    }
  }

  lemma GroupsSplit(ctx: Context, gs: seq<Group>)
    requires gs != []
    ensures AllHold(ctx, gs) <==> ListHolds(ctx, PathOf(ctx, gs[0]), gs[0].conds) && AllHold(ctx, gs[1..])
  {
    hide ListHolds, PathOf;
    if ListHolds(ctx, PathOf(ctx, gs[0]), gs[0].conds) && AllHold(ctx, gs[1..]) {
      forall i | 0 <= i < |gs|
        ensures ListHolds(ctx, PathOf(ctx, gs[i]), gs[i].conds)
      {
        if i > 0 { assert gs[i] == gs[1..][i - 1]; }
      }
    }
    if AllHold(ctx, gs) {
      assert forall i :: 0 <= i < |gs[1..]| ==> gs[1..][i] == gs[i + 1];
    }
  }

  /** White space in front changes nothing. */
  lemma LeadIgnored(ctx: Context, lead: string, s: string)
    requires White(lead) && s != "" && !IsSpace(s[0])
    ensures EvalGroups(ctx, lead + s) == EvalGroups(ctx, s)
  {
    hide EvalGroups, SkipWhite, Open, White;
    SkipsWhite(lead, s);
    SkipsNothing(s);
    SameOpening(ctx, lead + s, s);
  }

  lemma SkipsNothing(s: string)
    requires s == "" || !IsSpace(s[0])
    ensures SkipWhite(s) == s
  {
    WhiteLenIs(s, 0);
  }

  lemma SameOpening(ctx: Context, a: string, b: string)
    requires a != "" && b != "" && SkipWhite(a) == SkipWhite(b)
    ensures EvalGroups(ctx, a) == EvalGroups(ctx, b)
  {
    hide SkipWhite, ReadTag, IndexOf, EvalConds;
  }

  /** Every header of the grammar is evaluated as its tree says: it passes, with the ids of its
      un-negated tokens in order, exactly when every condition of every list holds. */
  lemma HeaderMeans(ctx: Context, h: Header)
    requires HeaderOk(h)
    ensures var v := EvalGroups(ctx, Render(h));
            if AllHold(ctx, h.groups) then v == Verdict(Fine, AllIds(ctx, h.groups)) else v.status == PreconditionFailed
  {
    EvalRenderedGroups(ctx, h.groups);
    GroupsStart(h.groups);
    if h.groups == [] {
      assert Render(h) == "";
    } else {
      LeadIgnored(ctx, h.lead, RenderGroups(h.groups));
    }
    hide EvalGroups, AllHold, AllIds, RenderGroups, GroupsOk;
  }

  // ---------------------------------------------------- back from text to trees

  /** How a text the inner loop accepts begins. */
  lemma AcceptedCond(ctx: Context, path: Option<Path>, s: string, r: string)
    requires s != "" && EvalConds(ctx, path, s).status == Fine
    requires r == if StartsWith(s, "not") then SkipWhite(s[3..]) else s
    ensures && r != "" && (r[0] == '<' || r[0] == '[') && IndexOf(r, Closer(r[0])) < |r|
            && EvalConds(ctx, path, SkipWhite(r[IndexOf(r, Closer(r[0])) + 1..])).status == Fine
  {
    hide SkipWhite, IndexOf, TokenId, TagMatches;
  }

  lemma Rejoined(r: string, k: nat, after: string, rest: string)
    requires 0 < k < |r| && r[k + 1..] == after + rest
    ensures r == ([r[0]] + (r[1..k] + ([r[k]] + after))) + rest
  {
  }

  lemma PartHas(s: string, i: nat, j: nat, c: char)
    requires i <= j <= |s| && c !in s
    ensures c !in s[i..j]
  {
  }

  /** The condition in front of a text the inner loop accepts: `r` is its bracketed part and
      what follows. */
  lemma ReadBracketed(r: string, no: string, gap: string) returns (c: Cond, rest: string)
    requires r != "" && (r[0] == '<' || r[0] == '[') && IndexOf(r, Closer(r[0])) < |r|
    ensures c.no == no && c.gap == gap && (if c.etag then ']' else '>') !in c.text && White(c.after)
    ensures (rest == "" || !IsSpace(rest[0])) && (')' !in r ==> ')' !in c.text)
    ensures r == Bracketed(c) + rest && rest == SkipWhite(r[IndexOf(r, Closer(r[0])) + 1..])
  {
    var k := IndexOf(r, Closer(r[0]));
    var t := r[k + 1..];
    c, rest := Cond(no, gap, r[0] == '[', r[1..k], t[..WhiteLen(t)]), SkipWhite(t);
    SkippedWhite(t);
    Rejoined(r, k, c.after, rest);
    assert Closer(r[0]) !in r[1..k];
    if ')' !in r { PartHas(r, 1, k, ')'); }
    hide IndexOf, SkipWhite, WhiteLen, White;
  }

  /** The condition in front of a text the inner loop accepts. */
  lemma ReadCond(ctx: Context, path: Option<Path>, s: string) returns (c: Cond, rest: string)
    requires s != "" && EvalConds(ctx, path, s).status == Fine && ')' !in s
    ensures CondOk(c) && s == RenderCond(c) + rest && |rest| < |s| && ')' !in rest
    ensures EvalConds(ctx, path, rest).status == Fine && (rest == "" || !IsSpace(rest[0]))
  {
    NotWord(s);
    hide EvalConds, IndexOf, SkipWhite, WhiteLen, White, Bracketed, RenderCond, StartsWith;
    if StartsWith(s, "not") {
      var gap, r := s[3..][..WhiteLen(s[3..])], SkipWhite(s[3..]);
      SkippedWhite(s[3..]);
      CutTwice(s, 3, gap, r);
      AcceptedCond(ctx, path, s, r);
      c, rest := ReadBracketed(r, s[..3], gap);
    } else {
      WhiteNothing();
      AcceptedCond(ctx, path, s, s);
      c, rest := ReadBracketed(s, "", "");
      CutTwice(s, 0, "", s);
    }
    CondJoined(c, rest);
    assert s == RenderCond(c) + rest;
    RestShorter(RenderCond(c), rest, s);
    CondNotEmpty(c);
  }

  lemma CutTwice(s: string, n: nat, gap: string, r: string)
    requires n <= |s| && s[n..] == gap + r
    ensures s == s[..n] + (gap + r)
    ensures n == 0 ==> s[..n] == ""
    ensures ')' !in s ==> ')' !in r
  {
    assert s == s[..n] + s[n..];
    assert forall k :: 0 <= k < |r| ==> r[k] == s[n..][|gap| + k];
  }

  lemma NotWord(s: string)
    ensures StartsWith(s, "not") ==> |s| >= 3 && StartsWith(s[..3], "not")
  {
  }

  lemma WhiteNothing()
    ensures White("")
  {
  }

  lemma CondNotEmpty(c: Cond)
    ensures RenderCond(c) != ""
  {
  }

  lemma RestShorter(a: string, rest: string, s: string)
    requires s == a + rest
    ensures a != "" ==> |rest| < |s|
    ensures ')' !in s ==> ')' !in rest
  {
  }

  lemma CondJoined(c: Cond, rest: string)
    ensures c.no + (c.gap + (Bracketed(c) + rest)) == RenderCond(c) + rest
  {
  }

  /** The conditions of a text the inner loop accepts. */
  lemma {:induction false} ReadConds(ctx: Context, path: Option<Path>, s: string) returns (cs: seq<Cond>)
    requires EvalConds(ctx, path, s).status == Fine && ')' !in s
    ensures CondsOk(cs) && RenderConds(cs) == s
    decreases |s|
  {
    cs := [];
    if s != "" {
      var c, rest := ReadCond(ctx, path, s);
      var more := ReadConds(ctx, path, rest);
      cs := [c] + more;
      assert cs[1..] == more;
      hide CondOk, EvalConds, RenderCond;
    }
  }

  /** How a text the outer loop accepts begins. */
  lemma AcceptedGroup(ctx: Context, s: string)
    requires s != "" && EvalGroups(ctx, s).status == Fine
    ensures var o := Open(ctx, s);
            && o.Opening? && o.rest != "" && o.rest[0] == '('
            && var b := SkipWhite(o.rest[1..]);
               var e := IndexOf(b, ')');
               && e < |b| && EvalConds(ctx, o.path, b[..e]).status == Fine
               && EvalGroups(ctx, SkipWhite(b[e + 1..])).status == Fine
  {
    hide SkipWhite, IndexOf, Open, EvalConds;
  }

  /** The list of a group, whose text from the first condition on is `b`. */
  lemma ReadList(ctx: Context, path: Option<Path>, s: string, b: string, e: nat) returns (g: Group, rest: string)
    requires s != "" && s[0] == '(' && b == SkipWhite(s[1..]) && e == IndexOf(b, ')') && e < |b|
    requires EvalConds(ctx, path, b[..e]).status == Fine
    ensures g.tag == None && White(g.inner) && White(g.after) && CondsOk(g.conds)
    ensures s == RenderList(g) + rest && (rest == "" || !IsSpace(rest[0])) && |rest| < |s|
    ensures rest == SkipWhite(b[e + 1..])
  {
    hide EvalConds, CondsOk, White, SkipWhite, WhiteLen, RenderConds, IndexOf;
    var t, u := s[1..], b[e + 1..];
    SkippedWhite(t);
    IndexSplits(b, ')');
    SkippedWhite(u);
    var conds := ReadConds(ctx, path, b[..e]);
    g, rest := Group(None, t[..WhiteLen(t)], conds, u[..WhiteLen(u)]), SkipWhite(u);
    ListShape(g, rest);
    ListText(s, g.inner, RenderConds(conds), g.after, rest);
    hide RenderList;
    LongerThanRest(g, rest);
  }

  lemma ListText(s: string, inner: string, body: string, after: string, rest: string)
    requires s != "" && s[0] == '(' && s[1..] == inner + (body + (")" + (after + rest)))
    ensures s == "(" + (inner + (body + (")" + (after + rest))))
  {
    assert s == [s[0]] + s[1..];
  }

  lemma LongerThanRest(g: Group, rest: string)
    ensures |rest| < |RenderList(g) + rest|
  {
  }

  lemma IndexCut(s: string, n: nat, c: char)
    requires n <= |s|
    ensures IndexOf(s[..n], c) == if IndexOf(s, c) < n then IndexOf(s, c) else n
  {
    var i := IndexOf(s, c);
    assert forall k :: 0 <= k < i ==> s[k] != c;
    assert i < |s| ==> s[i] == c;
    if i < n {
      assert c !in s[..n][..i] by { assert s[..n][..i] == s[..i]; }
      IndexIs(s[..n], c, i);
    }
  }

  lemma NameCut(url: string, from: nat, e: nat)
    requires from <= |url| && NameEnd(url, from) <= e < |url| && url[e] == '>'
    ensures from <= e && NameEnd(url[..e], from) == NameEnd(url, from)
  {
    var t := url[from..];
    var j := IndexOf(t, '/');
    assert j < |t| ==> t[j] == '/';
    hide IndexOf;
    assert NameEnd(url, from) >= from;
    IndexCut(t, e - from, '/');
    assert t[..e - from] == url[..e][from..];
    assert j < |t| ==> url[from + j] == '/';
  }

  /** Where the host part ends does not change when the tag is cut at a later '>'. */
  lemma HostCut(url: string, e: nat)
    requires HostEnd(url).Some? && HostEnd(url).value <= e < |url| && url[e] == '>'
    ensures HostEnd(url[..e]) == HostEnd(url)
  {
    hide NameEnd, IndexOf;
    if url[0] != '/' {
      var k := IndexOf(url, '/');
      IndexLimit(url, '/');
      var from := if k + 1 < |url| && url[k + 1] == '/' then k + 2 else k + 1;
      NameLimit(url, from);
      NameCut(url, from, e);
      IndexCut(url, e, '/');
    }
  }

  lemma IndexLimit(s: string, c: char)
    ensures IndexOf(s, c) <= |s|
  {
  }

  lemma NameLimit(url: string, from: nat)
    requires from <= |url|
    ensures from <= NameEnd(url, from) <= |url|
  {
  }

  /** The tag in front of a list, which ends at position `e`. */
  lemma TagCut(ctx: Context, url: string) returns (p: nat, e: nat)
    requires ReadTag(ctx, url).Opening?
    ensures p <= e < |url| && url[e] == '>' && HostEnd(url) == Some(p) && '>' !in url[p..e]
    ensures ReadTag(ctx, url) == Opening(ctx.toPath(url[p..e]), SkipWhite(url[e + 1..]))
  {
    hide SkipWhite, HostEnd;
    HostInside(url);
    p := HostEnd(url).value;
    IndexSplits(url[p..], '>');
    IndexLimit(url[p..], '>');
    e := p + IndexOf(url[p..], '>');
    hide IndexOf;
    assert url[p..][..e - p] == url[p..e];
    assert url[e] == url[p..][e - p];
  }

  /** The tag in front of a list. */
  lemma ReadTagged(ctx: Context, url: string) returns (t: Tag)
    requires var o := ReadTag(ctx, url); o.Opening? && o.rest != "" && o.rest[0] == '('
    ensures var o := ReadTag(ctx, url);
            && url == t.url + (">" + (t.gap + o.rest)) && TagOk(t, o.rest)
            && o.path == ctx.toPath(t.url[HostEnd(t.url).value..])
  {
    hide SkipWhite, WhiteLen, White, HostEnd, IndexOf, ReadTag;
    var p, e := TagCut(ctx, url);
    HostCut(url, e);
    var u := url[e + 1..];
    SkippedWhite(u);
    t := Tag(url[..e], u[..WhiteLen(u)]);
    CutFound(url, e);
    FrontOf(url, p, e);
  }

  lemma FrontOf(s: string, p: nat, e: nat)
    requires p <= e <= |s|
    ensures s[..e][p..] == s[p..e]
  {
  }

  lemma GroupsAre(gs: seq<Group>, g: Group, more: seq<Group>)
    requires gs == [g] + more && GroupsOk(more) && White(g.inner) && White(g.after) && CondsOk(g.conds)
    requires g.tag.Some? ==> TagOk(g.tag.value, RenderList(g) + RenderGroups(more))
    ensures GroupsOk(gs) && RenderGroups(gs) == RenderGroup(g) + RenderGroups(more)
  {
    assert gs[1..] == more;
    hide TagOk, RenderList, RenderGroup;
  }

  lemma TagIgnored(g: Group, tag: Option<Tag>)
    ensures RenderList(g.(tag := tag)) == RenderList(g)
  {
  }

  /** The groups of a text the outer loop accepts. */
  lemma {:induction false} ReadGroups(ctx: Context, s: string) returns (gs: seq<Group>)
    requires EvalGroups(ctx, s).status == Fine && (s == "" || !IsSpace(s[0]))
    ensures GroupsOk(gs) && RenderGroups(gs) == s && (s != "" ==> gs != [])
    decreases |s|
  {
    hide EvalGroups, EvalConds, SkipWhite, IndexOf, GroupsOk, RenderGroups, RenderGroup, RenderList, CondsOk, TagOk,
      White, ReadTag, Open;
    gs := [];
    if s == "" {
      NoGroups();
    } else {
      AcceptedGroup(ctx, s);
      var o := Open(ctx, s);
      var b := SkipWhite(o.rest[1..]);
      var g, rest := ReadList(ctx, o.path, o.rest, b, IndexOf(b, ')'));
      g := AddTag(ctx, s, g, rest);
      RestSmaller(g, rest);
      var more := ReadGroups(ctx, rest);
      gs := [g] + more;
      GroupsAre(gs, g, more);
    }
  }

  lemma NoGroups()
    ensures GroupsOk([]) && RenderGroups([]) == ""
  {
  }

  /** A group with the tag that stands in front of its list, if any. */
  lemma AddTag(ctx: Context, s: string, list: Group, rest: string) returns (g: Group)
    requires s != "" && !IsSpace(s[0]) && list.tag == None
    requires Open(ctx, s).Opening? && Open(ctx, s).rest == RenderList(list) + rest
    ensures g.inner == list.inner && g.conds == list.conds && g.after == list.after
    ensures s == RenderGroup(g) + rest && RenderList(g) == RenderList(list)
    ensures g.tag.Some? ==> TagOk(g.tag.value, RenderList(g) + rest)
  {
    g := list;
    SkipsNothing(s);
    ListShape(list, rest);
    hide RenderConds, SkipWhite, ReadTag, TagOk;
    if s[0] == '<' {
      var t := ReadTagged(ctx, s[1..]);
      TagIgnored(list, Some(t));
      g := list.(tag := Some(t));
      hide RenderList;
      TaggedShape(t, RenderList(list), rest);
      assert s == [s[0]] + s[1..];
    }
  }

  lemma RestSmaller(g: Group, rest: string)
    ensures |rest| < |RenderGroup(g) + rest|
  {
  }

  /** Only headers of the grammar pass. */
  lemma ReadHeader(ctx: Context, s: string) returns (h: Header)
    requires EvalGroups(ctx, s).status == Fine
    ensures HeaderOk(h) && Render(h) == s
  {
    if s == "" {
      h := Header("", []);
    } else {
      SkippedWhite(s);
      var lead, t := s[..WhiteLen(s)], SkipWhite(s);
      NotAllWhite(ctx, s);
      LeadIgnored(ctx, lead, t);
      var gs := ReadGroups(ctx, t);
      h := Header(lead, gs);
    }
    hide EvalGroups, GroupsOk, SkipWhite, WhiteLen;
  }

  lemma NotAllWhite(ctx: Context, s: string)
    requires s != "" && EvalGroups(ctx, s).status == Fine
    ensures SkipWhite(s) != ""
  {
    hide SkipWhite, EvalConds;
  }

  // -------------------------------------------------------------- main results

  /** `s` is a header of the grammar and every one of its conditions holds. */
  ghost predicate Accepted(ctx: Context, h: Header, s: string) {
    HeaderOk(h) && Render(h) == s && AllHold(ctx, h.groups)
  }

  /** The evaluator succeeds exactly on the headers of the grammar all of whose conditions hold;
      it then collects the ids of the un-negated tokens in order. */
  lemma IfHeaderMeaning(ctx: Context, s: string)
    ensures EvalGroups(ctx, s).status == Fine <==> exists h :: Accepted(ctx, h, s)
    ensures forall h :: Accepted(ctx, h, s) ==> EvalGroups(ctx, s).ids == AllIds(ctx, h.groups)
  {
    hide EvalGroups, AllHold, AllIds, Render, HeaderOk;
    if EvalGroups(ctx, s).status == Fine {
      var h := ReadHeader(ctx, s);
      HeaderMeans(ctx, h);
      assert Accepted(ctx, h, s);
    }
    forall h | Accepted(ctx, h, s)
      ensures EvalGroups(ctx, s) == Verdict(Fine, AllIds(ctx, h.groups))
    {
      HeaderMeans(ctx, h);
    }
  }

  /** A failed condition of a well-formed header is never reported as a bad request, and no bad
      request is well-formed. */
  lemma MalformedIsOutside(ctx: Context, h: Header)
    requires HeaderOk(h)
    ensures EvalGroups(ctx, Render(h)).status != Malformed
    ensures EvalGroups(ctx, Render(h)).status == PreconditionFailed <==> !AllHold(ctx, h.groups)
  {
    HeaderMeans(ctx, h);
    hide EvalGroups, AllHold, Render, HeaderOk;
  }
}
