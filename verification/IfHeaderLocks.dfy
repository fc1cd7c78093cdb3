/** What the lock tokens of an `If:` header say of the lock table, and of the run that led to it. */
module IfHeaderLocks {
  import opened Text
  import opened PathNames
  import opened LockTable
  import opened LockToken
  import opened IfHeader
  import opened IfHeaderProofs
  import opened LockRuns

  /** The file that a list with this path is checked against holds the lock; a list without a path
      is checked against no file. */
  ghost predicate HeldOn(ctx: Context, path: Option<Path>, id: int) {
    path.None? || Live(ctx.fold, ctx.table, Key(ctx.fold, path.value), id)
  }

  /** A token presents its id exactly when the file of its list, if there is one, has that lock. */
  lemma TokenPresents(ctx: Context, path: Option<Path>, text: string)
    requires Inv(ctx.fold, ctx.table)
    ensures var id := TokenId(ctx, path, text); id != 0 ==> HeldOn(ctx, path, id)
    ensures var id := TokenId(ctx, path, text); id == TokenId(ctx, None, text) || id == 0
    ensures HeldOn(ctx, path, TokenId(ctx, None, text)) ==> TokenId(ctx, path, text) == TokenId(ctx, None, text)
  {
    hide LockIdOf, Inv, Live, Key;
    if path.Some? { LiveIsAssociated(ctx.fold, ctx.table, path.value, TokenId(ctx, None, text)); }
  }

  /** The token the server prints for a lock presents it, to every list without a path, even if it
      was never issued. */
  lemma OwnTokenUntagged(ctx: Context, id: int)
    requires -TWO63 <= id < TWO63
    ensures TokenId(ctx, None, TokenText(ctx.guid, id, false)) == id
  {
    TokenRoundTrip(ctx.guid, id, false, "");
    hide LockIdOf, Decimal;
    var text := TokenText(ctx.guid, id, false);
    assert text[0] == 'o' && text + "" == text;
    assert WhiteLen(text) == 0;
  }

  /** Its condition holds exactly when the file of the list, if it has one, has that lock. */
  lemma OwnTokenHolds(ctx: Context, path: Option<Path>, c: Cond, id: int)
    requires Inv(ctx.fold, ctx.table) && -TWO63 <= id < TWO63 && id != 0
    requires !c.etag && c.text == TokenText(ctx.guid, id, false)
    ensures Holds(ctx, path, c) <==> HeldOn(ctx, path, id) != Negated(c)
    ensures TokenId(ctx, path, c.text) == if HeldOn(ctx, path, id) then id else 0
  {
    OwnTokenUntagged(ctx, id);
    TokenPresents(ctx, path, c.text);
    hide TokenId, TokenText, Inv, HeldOn;
  }

  /** A list that holds collects only locks of its file. */
  lemma {:induction false} ListIdsHeld(ctx: Context, path: Option<Path>, cs: seq<Cond>)
    requires Inv(ctx.fold, ctx.table) && ListHolds(ctx, path, cs)
    ensures forall id :: id in ListIds(ctx, path, cs) ==> id != 0 && HeldOn(ctx, path, id)
  {
    hide TokenId, TagMatches, Inv, HeldOn;
    if cs != [] {
      assert Holds(ctx, path, cs[0]);
      TokenPresents(ctx, path, cs[0].text);
      assert forall i :: 0 <= i < |cs[1..]| ==> cs[1..][i] == cs[i + 1];
      ListIdsHeld(ctx, path, cs[1..]);
    }
  }

  /** In a header that passes after a run, every id of a list tagged with a file was issued for an
      equal name in the run and has been held ever since. */
  lemma TaggedIdsHeldSince(ctx: Context, es: seq<Event>, h: Header, k: nat, id: int) returns (s: nat)
    requires HeaderOk(h) && EvalGroups(ctx, Render(h)).status == Fine && ctx.table == Run(ctx.fold, es)
    requires k < |h.groups| && PathOf(ctx, h.groups[k]).Some?
    requires id in ListIds(ctx, PathOf(ctx, h.groups[k]), h.groups[k].conds)
    ensures HeldSince(ctx.fold, es, s, Key(ctx.fold, PathOf(ctx, h.groups[k]).value), id)
  {
    hide EvalGroups, Run, HeldSince, ListIds, PathOf, HeaderOk, Render, Live, Inv, ListHolds;
    RunKeepsInv(ctx.fold, es);
    HeaderMeans(ctx, h);
    var path := PathOf(ctx, h.groups[k]);
    assert ListHolds(ctx, path, h.groups[k].conds);
    ListIdsHeld(ctx, path, h.groups[k].conds);
    s := LiveHasOrigin(ctx.fold, es, Key(ctx.fold, path.value), id);
  }

  /** The header with the token of one lock, in a list with or without a tag. */
  function TokenHeader(guid: Guid, tag: Option<Tag>, id: int): Header {
    Header("", [Group(tag, "", [Cond("", "", false, TokenText(guid, id, false), "")], "")])
  }

  /** End to end: the token the server printed passes and presents its id exactly when the file of
      the tag, if there is one, has that lock; else the precondition fails. */
  lemma OwnTokenPasses(ctx: Context, tag: Option<Tag>, id: int)
    requires Inv(ctx.fold, ctx.table) && -TWO63 <= id < TWO63 && id != 0
    requires HeaderOk(TokenHeader(ctx.guid, tag, id))
    ensures var h := TokenHeader(ctx.guid, tag, id);
            var v := EvalGroups(ctx, Render(h));
            if HeldOn(ctx, PathOf(ctx, h.groups[0]), id) then v == Verdict(Fine, [id])
            else v.status == PreconditionFailed
  {
    hide EvalGroups, HeldOn, HeaderOk, Render, Inv, TokenText, TokenId;
    var h := TokenHeader(ctx.guid, tag, id);
    var g := h.groups[0];
    var c, path := g.conds[0], PathOf(ctx, g);
    HeaderMeans(ctx, h);
    MalformedIsOutside(ctx, h);
    OwnTokenHolds(ctx, path, c, id);
    hide PathOf;
    assert AllHold(ctx, h.groups) <==> Holds(ctx, path, c) by {
      assert AllHold(ctx, h.groups) ==> ListHolds(ctx, PathOf(ctx, h.groups[0]), g.conds) && Holds(ctx, path, g.conds[0]);
    }
    assert g.conds[1..] == [] && h.groups[1..] == [];
    assert ListIds(ctx, path, g.conds) == (if HeldOn(ctx, path, id) then [id] else [0]) + ListIds(ctx, path, g.conds[1..]);
    assert AllIds(ctx, h.groups) == ListIds(ctx, path, g.conds) + AllIds(ctx, h.groups[1..]);
  }

  lemma TokenTextPlain(guid: Guid, id: int)
    requires '>' !in guid && ')' !in guid
    ensures '>' !in TokenText(guid, id, false) && ')' !in TokenText(guid, id, false)
  {
    DigitsAreDigits(if id < 0 then -id else id);
    hide Digits;
    assert '>' !in Decimal(id) && ')' !in Decimal(id);
    hide Decimal;
    assert '>' !in OPAQUE_PREFIX && ')' !in OPAQUE_PREFIX;
  }

  /** Such a header is in the grammar when the GUID has no closing bracket, as its text never has,
      and the tag is one. */
  lemma TokenHeaderOk(guid: Guid, tag: Option<Tag>, id: int)
    requires '>' !in guid && ')' !in guid
    ensures var h := TokenHeader(guid, tag, id);
            HeaderOk(h) <==> tag.None? || TagOk(tag.value, RenderList(h.groups[0]))
  {
    TokenTextPlain(guid, id);
    hide TokenText, TagOk, RenderList;
    var gs := TokenHeader(guid, tag, id).groups;
    assert gs[1..] == [] && RenderList(gs[0]) + "" == RenderList(gs[0]);
    assert CondOk(gs[0].conds[0]);
    assert GroupsOk(gs[1..]) && RenderGroups(gs[1..]) == "";
  }
}
