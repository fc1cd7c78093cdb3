/** The evaluator of the `If:` request header (CheckLockHeader, CheckTokenExpression and
    CheckETagExpression of PRIVATE/SERVERS/HTTP/WEBDAV/davlock.cpp, SkipHTTPPrefixAndHostName of
    davutil.cpp), as a function of the header text. */
module IfHeader {
  import opened Text
  import opened PathNames
  import opened LockTable
  import opened LockToken

  /** What the evaluator consults: the server's GUID, the lock table, the file a URL is mapped
      to, and the etag of a file (of the requested file for no path), if its attributes can be read. */
  datatype Context = Context(
    guid: Guid, fold: Fold, table: Table, toPath: string -> Option<Path>, etagOf: Option<Path> -> Option<string>)

  datatype Status = Fine | Malformed | PreconditionFailed

  /** How an evaluation ends and which lock ids it has collected by then. */
  datatype Verdict = Verdict(status: Status, ids: seq<int>)

  /** strchr as a position, |s| when `c` is absent. */
  function IndexOf(s: string, c: char): (i: nat)
    ensures i <= |s| && (i < |s| ==> s[i] == c)
    ensures forall k :: 0 <= k < i ==> s[k] != c
  {
    if s == "" || s[0] == c then 0 else 1 + IndexOf(s[1..], c)
  }

  function SkipWhite(s: string): string {
    s[WhiteLen(s)..]
  }

  // ------------------------------------------------------------------ conditions

  /** CheckTokenExpression: the lock id the text presents, 0 if it is no token of this server or
      names no lock of the file. */
  function TokenId(ctx: Context, path: Option<Path>, text: string): int {
    var t := SkipWhite(text);
    var u := if t != "" && (t[0] == '"' || t[0] == '<') then t[1..] else t;
    var id := LockIdOf(ctx.guid, u);
    if path.Some? && !IsFileAssociatedWithLockId(ctx.fold, ctx.table, path.value, id) then 0 else id
  }

  /** CheckETagExpression */
  predicate TagMatches(ctx: Context, path: Option<Path>, text: string) {
    var t := SkipWhite(text);
    var u := if |t| >= 2 && t[0] == 'W' && t[1] == '/' then t[2..] else t;
    ctx.etagOf(path) == Some(u)
  }

  function Closer(opener: char): char {
    if opener == '<' then '>' else ']'
  }

  /** The inner loop, on what is left of one parenthesised list. */
  function EvalConds(ctx: Context, path: Option<Path>, s: string): Verdict
    decreases |s|
  {
    if s == "" then Verdict(Fine, [])
    else
      var negated := StartsWith(s, "not");
      var r := if negated then SkipWhite(s[3..]) else s;
      if r == "" || (r[0] != '<' && r[0] != '[') then Verdict(Malformed, [])
      else
        var k := IndexOf(r, Closer(r[0]));
        if k == |r| then Verdict(Malformed, [])
        else
          var id := if r[0] == '<' then TokenId(ctx, path, r[1..k]) else 0;
          var holds := if r[0] == '<' then id != 0 else TagMatches(ctx, path, r[1..k]);
          var got := if id != 0 then [id] else [];
          if holds == negated then Verdict(PreconditionFailed, got)
          else
            var v := EvalConds(ctx, path, SkipWhite(r[k + 1..]));
            Verdict(v.status, got + v.ids)
  }

  // ---------------------------------------------------------------------- groups

  /** The end of the host name that starts at `from`. */
  function NameEnd(url: string, from: nat): (p: nat)
    requires from <= |url|
    ensures from <= p <= |url|
  {
    var j := IndexOf(url[from..], '/');
    if j == |url| - from then from else from + j
  }

  /** SkipHTTPPrefixAndHostName, as an offset. */
  function HostEnd(url: string): (p: Option<nat>)
    ensures p.Some? ==> p.value <= |url|
  {
    if url != "" && url[0] == '/' then Some(0)
    else
      var k := IndexOf(url, '/');
      if k == |url| then None
      else Some(NameEnd(url, if k + 1 < |url| && url[k + 1] == '/' then k + 2 else k + 1))
  }

  /** The part of a group in front of its list: the file it speaks of and what is left. */
  datatype Opening = Opening(path: Option<Path>, rest: string) | Unreadable

  /** The tag after its opening bracket. */
  function ReadTag(ctx: Context, url: string): (o: Opening)
    ensures o.Opening? ==> |o.rest| <= |url|
  {
    var p := HostEnd(url);
    if p.None? then Unreadable
    else
      var e := p.value + IndexOf(url[p.value..], '>');
      if e == |url| then Unreadable else Opening(ctx.toPath(url[p.value..e]), SkipWhite(url[e + 1..]))
  }

  function Open(ctx: Context, s: string): (o: Opening)
    ensures o.Opening? ==> |o.rest| <= |s|
  {
    var t := SkipWhite(s);
    if t == "" || t[0] != '<' then Opening(None, t) else ReadTag(ctx, t[1..])
  }

  /** The outer loop, on what is left of the header. */
  function EvalGroups(ctx: Context, s: string): Verdict
    decreases |s|
  {
    if s == "" then Verdict(Fine, [])
    else
      var o := Open(ctx, s);
      if o.Unreadable? || o.rest == "" || o.rest[0] != '(' then Verdict(Malformed, [])
      else
        var b := SkipWhite(o.rest[1..]);
        var e := IndexOf(b, ')');
        if e == |b| then Verdict(Malformed, [])
        else
          var v := EvalConds(ctx, o.path, b[..e]);
          if v.status != Fine then v
          else
            var w := EvalGroups(ctx, SkipWhite(b[e + 1..]));
            Verdict(w.status, v.ids + w.ids)
  }

  // --------------------------------------------------------- the grammar, as trees

  ghost predicate White(w: string) {
    forall k :: 0 <= k < |w| ==> IsSpace(w[k])
  }

  /** `no` and `gap` are empty or the word Not and white space; `after` is white space. */
  datatype Cond = Cond(no: string, gap: string, etag: bool, text: string, after: string)

  function Negated(c: Cond): bool {
    c.no != ""
  }

  function RenderCond(c: Cond): string {
    c.no + (c.gap + ((if c.etag then "[" else "<") + (c.text + ((if c.etag then "]" else ">") + c.after))))
  }

  /** Neither the closing character of the condition nor that of the list is in its text. */
  ghost predicate CondOk(c: Cond) {
    && White(c.gap) && White(c.after)
    && (c.no == "" ==> c.gap == "")
    && (c.no != "" ==> |c.no| == 3 && StartsWith(c.no, "not"))
    && (if c.etag then ']' else '>') !in c.text && ')' !in c.text
  }

  function RenderConds(cs: seq<Cond>): string {
    if cs == [] then "" else RenderCond(cs[0]) + RenderConds(cs[1..])
  }

  /** `url` and `gap` are the tag of a tagged list. */
  datatype Tag = Tag(url: string, gap: string)

  datatype Group = Group(tag: Option<Tag>, inner: string, conds: seq<Cond>, after: string)

  function RenderList(g: Group): string {
    "(" + (g.inner + (RenderConds(g.conds) + (")" + g.after)))
  }

  function RenderGroup(g: Group): string {
    if g.tag.None? then RenderList(g)
    else "<" + (g.tag.value.url + (">" + (g.tag.value.gap + RenderList(g))))
  }

  function RenderGroups(gs: seq<Group>): string {
    if gs == [] then "" else RenderGroup(gs[0]) + RenderGroups(gs[1..])
  }

  /** The host part of the tag ends inside the tag, and the tag ends at the first '>' after it;
      `rest` is all the text that follows the tag's closing bracket. */
  ghost predicate TagOk(t: Tag, rest: string) {
    && White(t.gap)
    && HostEnd(t.url).Some? && HostEnd(t.url + (">" + (t.gap + rest))) == HostEnd(t.url)
    && '>' !in t.url[HostEnd(t.url).value..]
  }

  ghost predicate GroupsOk(gs: seq<Group>) {
    gs != [] ==>
      && (gs[0].tag.Some? ==> TagOk(gs[0].tag.value, RenderList(gs[0]) + RenderGroups(gs[1..])))
      && White(gs[0].inner) && White(gs[0].after)
      && (forall i :: 0 <= i < |gs[0].conds| ==> CondOk(gs[0].conds[i]))
      && GroupsOk(gs[1..])
  }

  /** A header: white space only in front of a first group. */
  datatype Header = Header(lead: string, groups: seq<Group>)

  function Render(h: Header): string {
    h.lead + RenderGroups(h.groups)
  }

  ghost predicate HeaderOk(h: Header) {
    White(h.lead) && (h.groups == [] ==> h.lead == "") && GroupsOk(h.groups)
  }

  // ------------------------------------------------------- the meaning, on the trees

  function PathOf(ctx: Context, g: Group): Option<Path> {
    if g.tag.None? then None
    else
      var p := HostEnd(g.tag.value.url);
      if p.None? then None else ctx.toPath(g.tag.value.url[p.value..])
  }

  predicate Holds(ctx: Context, path: Option<Path>, c: Cond) {
    (if c.etag then TagMatches(ctx, path, c.text) else TokenId(ctx, path, c.text) != 0) != Negated(c)
  }

  predicate ListHolds(ctx: Context, path: Option<Path>, cs: seq<Cond>) {
    forall i :: 0 <= i < |cs| ==> Holds(ctx, path, cs[i])
  }

  predicate AllHold(ctx: Context, gs: seq<Group>) {
    forall i :: 0 <= i < |gs| ==> ListHolds(ctx, PathOf(ctx, gs[i]), gs[i].conds)
  }

  /** The ids of the un-negated lock tokens of a list, in order. */
  function ListIds(ctx: Context, path: Option<Path>, cs: seq<Cond>): seq<int> {
    if cs == [] then []
    else (if cs[0].etag || Negated(cs[0]) then [] else [TokenId(ctx, path, cs[0].text)]) + ListIds(ctx, path, cs[1..])
  }

  function AllIds(ctx: Context, gs: seq<Group>): seq<int> {
    if gs == [] then [] else ListIds(ctx, PathOf(ctx, gs[0]), gs[0].conds) + AllIds(ctx, gs[1..])
  }
}
