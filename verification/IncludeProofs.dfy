/** Properties of include processing: the table FindIncludeFiles accepts, the numbering
    ReadIncludeFiles gives it, and that GetIncErrorInfo undoes the merge line by line. */
module IncludeProofs {
  import opened Text
  import opened AspScript
  import opened Includes
  import AspMeaning

  // ------------------------------------------------- the page under quote changes

  lemma {:induction false} CountQuotes(d: string, d': string)
    requires SameButQuotes(d, d')
    ensures Count(d, CR) == Count(d', CR)
  {
    if d != "" {
      assert SameButQuotes(d[1..], d'[1..]);
      CountQuotes(d[1..], d'[1..]);
    }
  }

  lemma GetLineQuotes(d: string, d': string, a: nat, b: nat)
    requires SameButQuotes(d, d') && a <= b <= |d|
    ensures GetLine(d, a, b) == GetLine(d', a, b)
  {
    CountQuotes(d[a..b], d'[a..b]);
  }

  /** A search for a pattern without quotes does not notice the change. */
  lemma {:induction false} FindFromQuotes(lead: LeadByte, d: string, d': string, start: nat, pat: string, i: nat)
    requires SameButQuotes(d, d') && start <= i && pat != "" && forall c :: c in pat ==> !IsQuote(c)
    ensures FindFrom(lead, d, start, pat, i) == FindFrom(lead, d', start, pat, i)
    decreases |d| - i
  {
    if i + |pat| <= |d| {
      SliceQuotes(d, d', i, pat);
      FindFromQuotes(lead, d, d', start, pat, i + 1);
    }
  }

  lemma SliceQuotes(d: string, d': string, i: nat, pat: string)
    requires SameButQuotes(d, d') && i + |pat| <= |d| && forall c :: c in pat ==> !IsQuote(c)
    ensures d[i..i + |pat|] == pat <==> d'[i..i + |pat|] == pat
  {
    var x, y := d[i..i + |pat|], d'[i..i + |pat|];
    forall k | 0 <= k < |pat|
      ensures x[k] == pat[k] <==> y[k] == pat[k]
    {
      assert pat[k] in pat;
    }
  }

  lemma {:induction false} WhiteQuotes(d: string, d': string)
    requires SameButQuotes(d, d')
    ensures WhiteLen(d) == WhiteLen(d')
  {
    if d != "" {
      assert SameButQuotes(d[1..], d'[1..]);
      WhiteQuotes(d[1..], d'[1..]);
    }
  }

  lemma WordQuotes(d: string, d': string, p: nat, word: string)
    requires SameButQuotes(d, d') && forall c :: c in word ==> !IsQuote(c)
    ensures WordAt(d, p, word) <==> WordAt(d', p, word)
  {
    if p + |word| <= |d| {
      forall k | 0 <= k < |word|
        ensures Lower(d[p + k]) == word[k] <==> Lower(d'[p + k]) == word[k]
      {
        assert word[k] in word;
      }
    }
  }

  lemma HashQuotes(d: string, d': string, c: nat)
    requires SameButQuotes(d, d') && c + 4 <= |d|
    ensures HashAt(d, c) == HashAt(d', c)
    ensures WordAt(d, HashAt(d, c), "#include") <==> WordAt(d', HashAt(d, c), "#include")
  {
    WhiteQuotes(d[c + 4..], d'[c + 4..]);
    WordQuotes(d, d', HashAt(d, c), "#include");
  }

  // ------------------------------------------------------------ accepted tables

  /** What the scan has checked of an entry behind offset `prev`, in terms of the page it leaves. */
  ghost predicate EntryOk(lead: LeadByte, d: string, first: bool, prev: nat, e: Info) {
    && e.start + 4 <= |d|
    && prev <= e.start
    && HashAt(d, e.start) + 8 < e.end <= |d|
    && d[e.start] == '<' && d[e.end - 1] == '>'
    && (!first ==> GetLine(d, prev, HashAt(d, e.start)) > 1)
    && var t := Find(lead, d, e.end, BEGIN_COMMAND);
       (t.Some? ==> GetLine(d, e.end, t.value) > 1)
  }

  ghost predicate CheckedAt(lead: LeadByte, d: string, infos: seq<Info>, i: nat)
    requires i < |infos|
  {
    EntryOk(lead, d, i == 0, GapStart(infos, i), infos[i])
  }

  ghost predicate Checked(lead: LeadByte, d: string, infos: seq<Info>) {
    && |infos| <= MAX_INCLUDE_FILES
    && forall i :: 0 <= i < |infos| ==> CheckedAt(lead, d, infos, i)
  }

  lemma EntryQuotes(lead: LeadByte, d: string, d': string, first: bool, prev: nat, e: Info)
    requires SameButQuotes(d, d') && EntryOk(lead, d, first, prev, e)
    ensures EntryOk(lead, d', first, prev, e)
  {
    hide Find, HashAt, GetLine, SameButQuotes;
    SameEnds(d, d', e);
    HashQuotes(d, d', e.start);
    assert Find(lead, d, e.end, BEGIN_COMMAND) == Find(lead, d', e.end, BEGIN_COMMAND) by { FindQuotes(lead, d, d', e.end); }
    var t := Find(lead, d, e.end, BEGIN_COMMAND);
    if t.Some? { GetLineQuotes(d, d', e.end, t.value); }
    if !first { GetLineQuotes(d, d', prev, HashAt(d, e.start)); }
  }

  lemma SameEnds(d: string, d': string, e: Info)
    requires SameButQuotes(d, d') && e.start < e.end <= |d| && d[e.start] == '<' && d[e.end - 1] == '>'
    ensures |d| == |d'| && d'[e.start] == '<' && d'[e.end - 1] == '>'
  {
  }

  lemma FindQuotes(lead: LeadByte, d: string, d': string, p: nat)
    requires SameButQuotes(d, d')
    ensures Find(lead, d, p, BEGIN_COMMAND) == Find(lead, d', p, BEGIN_COMMAND)
    ensures Find(lead, d, p, COMMENT_BEGIN) == Find(lead, d', p, COMMENT_BEGIN)
  {
    FindFromQuotes(lead, d, d', p, BEGIN_COMMAND, p);
    FindFromQuotes(lead, d, d', p, COMMENT_BEGIN, p);
  }

  lemma DirectiveFacts(lead: LeadByte, fs: FileSystem, d: string, infos: seq<Info>, c: nat)
    requires c + 4 <= |d| && WordAt(d, HashAt(d, c), "#include") && LastEnd(infos) <= c
    requires |infos| <= MAX_INCLUDE_FILES && ReadDirective(lead, fs, d, infos, c).Ok?
    ensures var (d', e) := ReadDirective(lead, fs, d, infos, c).value;
            && SameButQuotes(d, d')
            && |infos| < MAX_INCLUDE_FILES
            && (infos != [] ==> GetLine(d, LastEnd(infos), HashAt(d, c)) > 1)
            && var t := Find(lead, d', e.end, BEGIN_COMMAND); (t.Some? ==> GetLine(d', e.end, t.value) > 1)
  {
    hide Find, FindFrom, QuoteFrom, Count, HashAt, WordAt, LastEnd, WhiteLen, ParseReference;
    var t := HashAt(d, c);
    var ref := ParseReference(d, t + 8);
    assert ref.Ok?;
    ReferenceQuote(d, t + 8);
    OneQuote(d, ref.value.to);
    hide SameButQuotes;
  }

  lemma OneQuote(d: string, i: nat)
    requires i < |d| && IsQuote(d[i])
    ensures SameButQuotes(d, d[i := '"'])
  {
  }

  lemma DirectiveEnds(lead: LeadByte, fs: FileSystem, d: string, infos: seq<Info>, c: nat)
    requires c + 4 <= |d| && WordAt(d, HashAt(d, c), "#include") && LastEnd(infos) <= c
    requires ReadDirective(lead, fs, d, infos, c).Ok?
    ensures var (d', e) := ReadDirective(lead, fs, d, infos, c).value; d'[c] == d[c] && d'[e.end - 1] == '>'
  {
    hide FindFrom, QuoteFrom, Count, HashAt, WordAt, LastEnd, WhiteLen, ParseReference, GetLine;
    var (d', e) := ReadDirective(lead, fs, d, infos, c).value;
    assert d'[e.end - 3..e.end] == COMMENT_END;
    assert d'[e.end - 1] == d'[e.end - 3..e.end][2];
  }

  lemma ReferenceQuote(d: string, p: nat)
    requires p <= |d| && ParseReference(d, p).Ok?
    ensures IsQuote(d[ParseReference(d, p).value.to])
  {
    hide QuoteFrom;
  }

  lemma CheckedAppend(lead: LeadByte, d: string, infos: seq<Info>, e: Info)
    requires Checked(lead, d, infos) && |infos| < MAX_INCLUDE_FILES
    requires EntryOk(lead, d, infos == [], LastEnd(infos), e)
    ensures Checked(lead, d, infos + [e])
  {
    hide EntryOk;
    var all := infos + [e];
    forall i | 0 <= i < |all|
      ensures CheckedAt(lead, d, all, i)
    {
      assert i < |infos| ==> CheckedAt(lead, d, infos, i);
      assert GapStart(all, i) == if i < |infos| then GapStart(infos, i) else LastEnd(infos);
    }
  }

  lemma CheckedQuotes(lead: LeadByte, d: string, d': string, infos: seq<Info>)
    requires SameButQuotes(d, d') && Checked(lead, d, infos)
    ensures Checked(lead, d', infos)
  {
    hide EntryOk, SameButQuotes;
    forall i | 0 <= i < |infos|
      ensures CheckedAt(lead, d', infos, i)
    {
      assert CheckedAt(lead, d, infos, i);
      EntryQuotes(lead, d, d', i == 0, GapStart(infos, i), infos[i]);
    }
  }

  lemma CheckedSize(lead: LeadByte, d: string, infos: seq<Info>)
    requires Checked(lead, d, infos)
    ensures |infos| <= MAX_INCLUDE_FILES
  {
  }

  lemma DirectiveChecked(lead: LeadByte, fs: FileSystem, d: string, infos: seq<Info>, c: nat)
    requires c + 4 <= |d| && WordAt(d, HashAt(d, c), "#include") && LastEnd(infos) <= c && d[c] == '<'
    requires Checked(lead, d, infos) && ReadDirective(lead, fs, d, infos, c).Ok?
    ensures var (d', e) := ReadDirective(lead, fs, d, infos, c).value;
            SameButQuotes(d, d') && Checked(lead, d', infos + [e])
  {
    hide ReadDirective, HashAt, Find, GetLine, WordAt, SameButQuotes, Checked, LastEnd, CheckedAt;
    var (d', e) := ReadDirective(lead, fs, d, infos, c).value;
    CheckedSize(lead, d, infos);
    DirectiveFacts(lead, fs, d, infos, c);
    DirectiveEnds(lead, fs, d, infos, c);
    HashQuotes(d, d', c);
    if infos != [] { GetLineQuotes(d, d', LastEnd(infos), HashAt(d, c)); }
    CheckedQuotes(lead, d, d', infos);
    EntryFound(lead, d', infos == [], LastEnd(infos), e);
    CheckedAppend(lead, d', infos, e);
  }

  lemma EntryFound(lead: LeadByte, d: string, first: bool, prev: nat, e: Info)
    requires e.start + 4 <= |d| && prev <= e.start && HashAt(d, e.start) + 8 < e.end <= |d|
    requires d[e.start] == '<' && d[e.end - 1] == '>' && (!first ==> GetLine(d, prev, HashAt(d, e.start)) > 1)
    requires var t := Find(lead, d, e.end, BEGIN_COMMAND); (t.Some? ==> GetLine(d, e.end, t.value) > 1)
    ensures EntryOk(lead, d, first, prev, e)
  {
    hide HashAt, Find, GetLine;
  }

  /** Every table the scan accepts is checked, extends the table so far, and the page has
      changed in quotes only. */
  lemma {:induction false} ScanChecks(lead: LeadByte, fs: FileSystem, d: string, p: nat, infos: seq<Info>)
    requires LastEnd(infos) <= p <= |d| && Checked(lead, d, infos)
    ensures var r := Scan(lead, fs, d, p, infos);
            r.Ok? ==> SameButQuotes(d, r.value.0) && Checked(lead, r.value.0, r.value.1) && infos <= r.value.1
    decreases |d| - p
  {
    hide Checked, Find, FindFrom, ReadDirective, HashAt, WordAt;
    var c := Find(lead, d, p, COMMENT_BEGIN);
    if c.Some? {
      assert d[c.value] == d[c.value..c.value + 4][0] == '<';
      if !WordAt(d, HashAt(d, c.value), "#include") {
        ScanChecks(lead, fs, d, HashAt(d, c.value), infos);
      } else {
        var e := ReadDirective(lead, fs, d, infos, c.value);
        if e.Ok? {
          DirectiveChecked(lead, fs, d, infos, c.value);
          assert LastEnd(infos + [e.value.1]) == e.value.1.end;
          ScanChecks(lead, fs, e.value.0, e.value.1.end, infos + [e.value.1]);
        }
      }
    }
  }

  /** A scanned table is in page order with commands only below, and if its directives do
      not span lines, each sits on a line of its own. */
  lemma ScannedTable(lead: LeadByte, d: string, infos: seq<Info>)
    requires Checked(lead, d, infos)
    ensures TableOk(d, infos) && CommandsBelow(lead, d, infos)
    ensures OneLineDirectives(d, infos) ==> OnOwnLines(d, infos)
  {
    hide Find, HashAt, GetLine;
    forall i | 0 <= i < |infos|
      ensures infos[i].start < infos[i].end <= |d|
    {
      assert CheckedAt(lead, d, infos, i);
    }
    forall i, j | 0 <= i < j < |infos|
      ensures infos[i].end <= infos[j].start
    {
      EntriesOrdered(lead, d, infos, i, j);
    }
    forall i | 0 <= i < |infos|
      ensures var t := Find(lead, d, infos[i].end, BEGIN_COMMAND); t.Some? ==> GetLine(d, infos[i].end, t.value) > 1
    {
      assert CheckedAt(lead, d, infos, i);
    }
    if OneLineDirectives(d, infos) {
      forall i | 0 < i < |infos|
        ensures OwnLineAt(d, infos, i)
      {
        assert CheckedAt(lead, d, infos, i);
        OwnLine(lead, d, infos[i - 1].end, infos[i]);
      }
    }
  }

  lemma {:induction false} EntriesOrdered(lead: LeadByte, d: string, infos: seq<Info>, i: nat, j: nat)
    requires Checked(lead, d, infos) && i < j < |infos|
    ensures infos[i].end <= infos[j].start
  {
    hide Find, HashAt, GetLine;
    assert CheckedAt(lead, d, infos, j);
    if i + 1 < j {
      EntriesOrdered(lead, d, infos, i, j - 1);
      assert CheckedAt(lead, d, infos, j - 1);
    }
  }

  lemma OwnLine(lead: LeadByte, d: string, prev: nat, e: Info)
    requires EntryOk(lead, d, false, prev, e) && CR !in d[e.start..e.end]
    ensures GetLine(d, prev, e.start) > 1
  {
    hide Find, Count;
    var b, h := e.start, HashAt(d, e.start);
    CountSlices(d, prev, b, h);
    CountNone(d[b..h], CR) by {
      assert forall k :: b <= k < h ==> d[b..e.end][k - b] == d[k];
    }
  }

  lemma {:induction false} CountNone(s: string, c: char)
    requires c !in s
    ensures Count(s, c) == 0
  {
    if s != "" {
      CountNone(s[1..], c);
    }
  }

  /** Where the search finds an "#include" comment. */
  ghost predicate IncludeCommentAt(lead: LeadByte, d: string, c: nat) {
    c + 4 <= |d| && MatchAt(lead, d, 0, COMMENT_BEGIN, c) && WordAt(d, HashAt(d, c), "#include")
  }

  ghost predicate Covered(infos: seq<Info>, c: nat) {
    exists i :: 0 <= i < |infos| && infos[i].start <= c < infos[i].end
  }

  lemma IncludeCommentQuotes(lead: LeadByte, d: string, d': string, c: nat)
    requires SameButQuotes(d, d') && IncludeCommentAt(lead, d, c)
    ensures IncludeCommentAt(lead, d', c)
  {
    HashQuotes(d, d', c);
    SliceQuotes(d, d', c, COMMENT_BEGIN);
    assert NUL !in d'[0..c] by {
      forall k | 0 <= k < c ensures d'[0..c][k] != NUL { assert d[0..c][k] != NUL; }
    }
  }

  /** Two comment starts do not overlap, and none starts in the white space behind one. */
  lemma CommentStartsApart(lead: LeadByte, d: string, c: nat, c': nat)
    requires c < c' && c + 4 <= |d| && c' + 4 <= |d|
    requires d[c..c + 4] == COMMENT_BEGIN && d[c'..c' + 4] == COMMENT_BEGIN
    ensures HashAt(d, c) <= c'
  {
    WhiteLenMeaning(d[c + 4..]);
    assert d[c'] == d[c'..c' + 4][0] == '<';
    assert forall k :: c < k < c + 4 ==> d[k] == d[c..c + 4][k - c] == COMMENT_BEGIN[k - c] != '<';
    assert forall k :: c + 4 <= k < HashAt(d, c) ==> IsSpace(d[c + 4..][k - (c + 4)]) && d[k] != '<';
  }

  lemma FirstComment(lead: LeadByte, d: string, p: nat, c: nat)
    requires p <= c && MatchAt(lead, d, 0, COMMENT_BEGIN, c)
    ensures Find(lead, d, p, COMMENT_BEGIN).Some? && Find(lead, d, p, COMMENT_BEGIN).value <= c
  {
    FindIsFirst(lead, d, p, COMMENT_BEGIN);
    assert MatchAt(lead, d, p, COMMENT_BEGIN, c) by {
      forall k | 0 <= k < c - p ensures d[p..c][k] != NUL { assert d[p..c][k] == d[0..c][p + k]; }
    }
  }

  /** The scan misses nothing: every "#include" comment of the page lies in a table entry. */
  lemma {:induction false} ScanFindsAll(lead: LeadByte, fs: FileSystem, d: string, p: nat, infos: seq<Info>, c: nat)
    requires LastEnd(infos) <= p <= |d| && Checked(lead, d, infos)
    requires IncludeCommentAt(lead, d, c) && (c < p ==> Covered(infos, c))
    ensures var r := Scan(lead, fs, d, p, infos); r.Ok? ==> Covered(r.value.1, c)
    decreases |d| - p
  {
    hide Checked, Find, FindFrom, ReadDirective, HashAt, WordAt, MatchAt;
    ScanChecks(lead, fs, d, p, infos);
    if c < p {
      CoveredLonger(infos, Scan(lead, fs, d, p, infos), c);
    } else {
      FirstComment(lead, d, p, c);
      var f := Find(lead, d, p, COMMENT_BEGIN).value;
      assert d[f] == d[f..f + 4][0] == '<';
      if f < c {
        CommentAt(lead, d, c);
        CommentStartsApart(lead, d, f, c);
      }
      if !WordAt(d, HashAt(d, f), "#include") {
        ScanFindsAll(lead, fs, d, HashAt(d, f), infos, c);
      } else {
        var e := ReadDirective(lead, fs, d, infos, f);
        if e.Ok? {
          DirectiveChecked(lead, fs, d, infos, f);
          IncludeCommentQuotes(lead, d, e.value.0, c);
          var all := infos + [e.value.1];
          assert all[|infos|] == e.value.1;
          ScanFindsAll(lead, fs, e.value.0, e.value.1.end, all, c);
        }
      }
    }
  }

  lemma CommentAt(lead: LeadByte, d: string, c: nat)
    requires MatchAt(lead, d, 0, COMMENT_BEGIN, c)
    ensures c + 4 <= |d| && d[c..c + 4] == COMMENT_BEGIN
  {
  }

  lemma CoveredLonger(infos: seq<Info>, r: Result<(string, seq<Info>)>, c: nat)
    requires Covered(infos, c) && (r.Ok? ==> infos <= r.value.1)
    ensures r.Ok? ==> Covered(r.value.1, c)
  {
    var i :| 0 <= i < |infos| && infos[i].start <= c < infos[i].end;
    if r.Ok? { assert r.value.1[i] == infos[i]; }
  }

  // -------------------------------------------------------------- size and lines

  /** The merged page has the size the scan added up. */
  lemma {:induction false} GrowthFrom(d: string, infos: seq<Info>, i: nat)
    requires TableOk(d, infos) && i <= |infos|
    ensures |Before(d, infos, i)| + |d| - GapStart(infos, i) + Growth(infos[i..]) == |Merged(d, infos)|
    decreases |infos| - i
  {
    if i < |infos| {
      GrowthFrom(d, infos, i + 1);
      BeforeStep(d, infos, i);
      assert infos[i..][1..] == infos[i + 1..];
      hide Before, Merged;
    }
  }

  lemma BeforeStep(d: string, infos: seq<Info>, i: nat)
    requires TableOk(d, infos) && i < |infos|
    ensures |Before(d, infos, i + 1)| == |Before(d, infos, i)| + infos[i].start - GapStart(infos, i) + |infos[i].contents|
    ensures GapStart(infos, i + 1) == infos[i].end
  {
  }

  lemma MergedSize(d: string, infos: seq<Info>)
    requires TableOk(d, infos)
    ensures |Merged(d, infos)| == |d| + Growth(infos)
  {
    GrowthFrom(d, infos, 0);
    assert infos[0..] == infos;
  }

  /** Extra lines the first `i` includes take up. */
  function LinesTaken(infos: seq<Info>, i: nat): int
    requires i <= |infos|
  {
    if i == 0 then 0 else LinesTaken(infos, i - 1) + infos[i - 1].lines - 1
  }

  /** Carriage returns inside the first `i` directives, which the merge drops. */
  function DirectiveReturns(d: string, infos: seq<Info>, i: nat): nat
    requires TableOk(d, infos) && i <= |infos|
  {
    if i == 0 then 0 else DirectiveReturns(d, infos, i - 1) + Count(d[infos[i - 1].start..infos[i - 1].end], CR)
  }

  lemma CountSlices(d: string, a: nat, b: nat, c: nat)
    requires a <= b <= c <= |d|
    ensures Count(d[a..c], CR) == Count(d[a..b], CR) + Count(d[b..c], CR)
  {
    assert d[a..c] == d[a..b] + d[b..c];
    CountConcat(d[a..b], d[b..c], CR);
  }

  /** The numbers of entry `i`, in terms of the merged page around it. */
  lemma EntryNumbers(d: string, infos: seq<Info>, i: nat)
    requires TableOk(d, infos) && Numbered(d, infos) && i < |infos|
    ensures GapStart(infos, i) <= infos[i].start < infos[i].end == GapStart(infos, i + 1) <= |d|
    ensures infos[i].startLine ==
              1 + Count(Before(d, infos, i), CR) + Count(d[GapStart(infos, i)..infos[i].start], CR)
    ensures infos[i].lines == 1 + Count(infos[i].contents, CR)
    ensures Count(Before(d, infos, i + 1), CR) == infos[i].startLine + infos[i].lines - 2
  {
    var gap := d[GapStart(infos, i)..infos[i].start];
    CountConcat(Before(d, infos, i), gap, CR);
    CountConcat(Before(d, infos, i) + gap, infos[i].contents, CR);
    assert NumberedAt(d, infos, i);
    hide Count;
  }

  /** In front of a stretch of page text, merged lines less the lines taken by includes are page
      lines less the returns of dropped directives. */
  lemma {:induction false} BeforeLines(d: string, infos: seq<Info>, i: nat)
    requires TableOk(d, infos) && Numbered(d, infos) && i <= |infos|
    ensures GapStart(infos, i) <= |d|
    ensures Count(Before(d, infos, i), CR) - LinesTaken(infos, i) ==
              Count(d[..GapStart(infos, i)], CR) - DirectiveReturns(d, infos, i)
  {
    hide Count, TableOk, NumberedAt;
    if i > 0 {
      BeforeLines(d, infos, i - 1);
      EntryNumbers(d, infos, i - 1);
      hide Before, Numbered;
      var g, a, b := GapStart(infos, i - 1), infos[i - 1].start, infos[i - 1].end;
      CountSlices(d, 0, g, a);
      CountSlices(d, 0, a, b);
      assert d[0..g] == d[..g] && d[0..b] == d[..b];
    } else {
      assert d[..0] == "";
    }
  }

  /** Each include's lines end before the next one's begin. */
  lemma {:induction false} EntriesApart(d: string, infos: seq<Info>, j: nat, i: nat)
    requires TableOk(d, infos) && Numbered(d, infos) && OnOwnLines(d, infos)
    requires j < i < |infos|
    ensures infos[j].startLine + infos[j].lines <= infos[i].startLine
  {
    hide Count, Before, BeforeFile, NumberedAt, Numbered;
    assert OwnLineAt(d, infos, i);
    hide TableOk, OnOwnLines;
    if j + 1 < i {
      EntriesApart(d, infos, j, i - 1);
      EntryNumbers(d, infos, i - 1);
    } else {
      EntryNumbers(d, infos, j);
    }
    EntryNumbers(d, infos, i);
  }

  lemma {:induction false} SkipEntries(infos: seq<Info>, line: int, i: nat)
    requires i <= |infos|
    requires forall j :: 0 <= j < i ==> infos[j].startLine + infos[j].lines <= line && 1 <= infos[j].lines
    ensures ErrorInfo(infos, line, 0, 0) == ErrorInfo(infos, line, i, LinesTaken(infos, i))
  {
    if i > 0 {
      SkipEntries(infos, line, i - 1);
    }
  }

  /** Lines at or past entry `i`'s first are looked up from entry `i` on. */
  lemma LookUpFrom(d: string, infos: seq<Info>, line: int, i: nat)
    requires TableOk(d, infos) && Numbered(d, infos) && OnOwnLines(d, infos) && i < |infos|
    requires infos[i].startLine <= line
    ensures ErrorInfo(infos, line, 0, 0) == ErrorInfo(infos, line, i, LinesTaken(infos, i))
  {
    forall j | 0 <= j < i
      ensures infos[j].startLine + infos[j].lines <= line && 1 <= infos[j].lines
    {
      EntriesApart(d, infos, j, i);
      EntryNumbers(d, infos, j);
    }
    SkipEntries(infos, line, i);
  }

  // ------------------------------------------------------------ undoing the merge

  /** A merged line inside an include is reported as that file and its own line. */
  lemma IncludeLineFound(d: string, infos: seq<Info>, i: nat, o: nat)
    requires TableOk(d, infos) && Numbered(d, infos) && OnOwnLines(d, infos)
    requires i < |infos| && o <= |infos[i].contents|
    ensures ErrorInfo(infos, LineAfter(BeforeFile(d, infos, i) + infos[i].contents[..o]), 0, 0)
         == (Some(infos[i].name), LineAfter(infos[i].contents[..o]))
  {
    var file := infos[i].contents;
    assert NumberedAt(d, infos, i);
    EntryNumbers(d, infos, i);
    hide Count, BeforeFile, Before, TableOk, Numbered, OnOwnLines;
    CountConcat(BeforeFile(d, infos, i), file[..o], CR);
    CountSlices(file, 0, o, |file|);
    assert file[0..o] == file[..o] && file[0..|file|] == file;
    LookUpFrom(d, infos, LineAfter(BeforeFile(d, infos, i) + file[..o]), i);
  }

  /** Page offset `q` lies in the text in front of include `i`, or behind the last one. */
  ghost predicate InGap(d: string, infos: seq<Info>, i: nat, q: nat)
    requires TableOk(d, infos) && i <= |infos|
  {
    GapStart(infos, i) <= q <= (if i < |infos| then infos[i].start else |d|)
  }

  /** The merged line of that offset. */
  function MergedLine(d: string, infos: seq<Info>, i: nat, q: nat): nat
    requires TableOk(d, infos) && i <= |infos| && InGap(d, infos, i, q)
  {
    LineAfter(Before(d, infos, i) + d[GapStart(infos, i)..q])
  }

  ghost predicate SharesLineAbove(d: string, infos: seq<Info>, i: nat, q: nat)
    requires TableOk(d, infos) && i <= |infos| && InGap(d, infos, i, q)
  {
    i > 0 && Count(d[GapStart(infos, i)..q], CR) == 0
  }

  ghost predicate SharesLineBelow(d: string, infos: seq<Info>, i: nat, q: nat)
    requires TableOk(d, infos) && i <= |infos| && InGap(d, infos, i, q)
  {
    i < |infos| && Count(d[q..infos[i].start], CR) == 0
  }

  lemma GapLine(d: string, infos: seq<Info>, i: nat, q: nat)
    requires TableOk(d, infos) && Numbered(d, infos) && i <= |infos| && InGap(d, infos, i, q)
    ensures var line := MergedLine(d, infos, i, q);
            && (i > 0 ==> line == infos[i - 1].startLine + infos[i - 1].lines - 1 + Count(d[GapStart(infos, i)..q], CR))
            && (i < |infos| ==> line == infos[i].startLine - Count(d[q..infos[i].start], CR))
            && line - LinesTaken(infos, i) == LineAfter(d[..q]) - DirectiveReturns(d, infos, i)
  {
    var g := GapStart(infos, i);
    CountConcat(Before(d, infos, i), d[g..q], CR);
    if i > 0 { EntryNumbers(d, infos, i - 1); }
    if i < |infos| {
      EntryNumbers(d, infos, i);
      CountSlices(d, g, q, infos[i].start);
    }
    BeforeLines(d, infos, i);
    CountSlices(d, 0, g, q);
    assert d[0..g] == d[..g] && d[0..q] == d[..q];
    hide Count, Before, TableOk, Numbered, DirectiveReturns, LinesTaken;
  }

  /** A merged line of page text is reported as the page's own line, less the lines its earlier
      directives spanned, exactly when it shares its merged line with no include; a shared line
      is reported as the include's. */
  lemma PageLineFound(d: string, infos: seq<Info>, i: nat, q: nat)
    requires TableOk(d, infos) && Numbered(d, infos) && OnOwnLines(d, infos)
    requires i <= |infos| && InGap(d, infos, i, q)
    ensures var r := ErrorInfo(infos, MergedLine(d, infos, i, q), 0, 0);
            if SharesLineAbove(d, infos, i, q) then r == (Some(infos[i - 1].name), infos[i - 1].lines)
            else if SharesLineBelow(d, infos, i, q) then r == (Some(infos[i].name), 1)
            else r == (None, LineAfter(d[..q]) - DirectiveReturns(d, infos, i))
  {
    hide Count, MergedLine, Before, TableOk, Numbered, OnOwnLines, DirectiveReturns, LineAfter, LinesTaken;
    var line := MergedLine(d, infos, i, q);
    GapLine(d, infos, i, q);
    assert i < |infos| ==> infos[i].lines >= 1 by { if i < |infos| { EntryNumbers(d, infos, i); } }
    if i > 0 {
      assert infos[i - 1].lines >= 1 by { EntryNumbers(d, infos, i - 1); }
      LookUpFrom(d, infos, line, i - 1);
      assert LinesTaken(infos, i) == LinesTaken(infos, i - 1) + infos[i - 1].lines - 1 by { LinesTakenStep(infos, i); }
    } else if i < |infos| && line >= infos[i].startLine {
      LookUpFrom(d, infos, line, i);
    } else {
      assert LinesTaken(infos, 0) == 0 by { LinesTakenStep(infos, 0); }
    }
  }

  lemma LinesTakenStep(infos: seq<Info>, i: nat)
    requires i <= |infos|
    ensures LinesTaken(infos, i) == if i == 0 then 0 else LinesTaken(infos, i - 1) + infos[i - 1].lines - 1
  {
  }

  lemma {:induction false} NoDirectiveReturns(d: string, infos: seq<Info>, i: nat)
    requires TableOk(d, infos) && OneLineDirectives(d, infos) && i <= |infos|
    ensures DirectiveReturns(d, infos, i) == 0
  {
    if i > 0 {
      NoDirectiveReturns(d, infos, i - 1);
      CountNone(d[infos[i - 1].start..infos[i - 1].end], CR);
    }
  }

  /** A command that starts behind an include does not share the include's last line. */
  lemma CommandNotAbove(lead: LeadByte, d: string, infos: seq<Info>, i: nat, q: nat)
    requires TableOk(d, infos) && CommandsBelow(lead, d, infos)
    requires 0 < i <= |infos| && InGap(d, infos, i, q)
    requires Find(lead, d, GapStart(infos, i), BEGIN_COMMAND).Some?
    requires Find(lead, d, GapStart(infos, i), BEGIN_COMMAND).value <= q
    ensures !SharesLineAbove(d, infos, i, q)
  {
    hide Find;
    assert infos[i - 1].end == GapStart(infos, i);
    var t := Find(lead, d, infos[i - 1].end, BEGIN_COMMAND).value;
    CountSlices(d, infos[i - 1].end, t, q);
  }

  // ------------------------------------------------------- renumbering the table

  /** Tables that differ in line numbers only. */
  ghost predicate SamePlaces(a: seq<Info>, b: seq<Info>) {
    |a| == |b| && forall i :: 0 <= i < |a| ==>
      a[i].name == b[i].name && a[i].start == b[i].start && a[i].end == b[i].end && a[i].contents == b[i].contents
  }

  lemma {:induction false} SamePlacesBefore(d: string, a: seq<Info>, b: seq<Info>, i: nat)
    requires TableOk(d, a) && TableOk(d, b) && SamePlaces(a, b) && i <= |a|
    ensures Before(d, a, i) == Before(d, b, i) && GapStart(a, i) == GapStart(b, i)
    ensures i < |a| ==> BeforeFile(d, a, i) == BeforeFile(d, b, i)
    ensures i == |a| ==> Merged(d, a) == Merged(d, b)
  {
    if i > 0 { SamePlacesBefore(d, a, b, i - 1); }
  }

  /** The scan's checks do not look at line numbers. */
  lemma SamePlacesChecked(lead: LeadByte, d: string, a: seq<Info>, b: seq<Info>)
    requires SamePlaces(a, b) && Checked(lead, d, a)
    ensures Checked(lead, d, b)
  {
    hide Find, HashAt, GetLine;
    forall i | 0 <= i < |b|
      ensures CheckedAt(lead, d, b, i)
    {
      assert CheckedAt(lead, d, a, i);
    }
  }

  /** Entry `i` as ReadIncludeFiles leaves it. */
  function NumberedEntry(d: string, infos: seq<Info>, i: nat): Info
    requires TableOk(d, infos) && i < |infos|
  {
    infos[i].(startLine := LineAfter(BeforeFile(d, infos, i)), lines := LineAfter(infos[i].contents))
  }

  /** The finished table is numbered and merges to the same page. */
  lemma NumberedTable(d: string, infos: seq<Info>, infos': seq<Info>)
    requires TableOk(d, infos) && |infos'| == |infos|
    requires forall i :: 0 <= i < |infos| ==> infos'[i] == NumberedEntry(d, infos, i)
    ensures TableOk(d, infos') && Numbered(d, infos') && SamePlaces(infos, infos')
    ensures Merged(d, infos') == Merged(d, infos)
  {
    hide Before, Count;
    forall i | 0 <= i < |infos|
      ensures NumberedAt(d, infos', i)
    {
      SamePlacesBefore(d, infos, infos', i);
    }
    SamePlacesBefore(d, infos, infos', |infos|);
  }

  // ---------------------------------------------------- from script back to files

  ghost predicate CrLfAt(s: string, k: nat)
    requires k < |s|
  {
    && (s[k] == CR ==> k + 1 < |s| && s[k + 1] == LF)
    && (s[k] == LF ==> k > 0 && s[k - 1] == CR)
  }

  /** Lines end in CRLF and neither byte occurs alone. */
  ghost predicate CrLfText(s: string) {
    forall k :: 0 <= k < |s| ==> CrLfAt(s, k)
  }

  lemma {:induction false} CrLfCounts(s: string, k: nat)
    requires CrLfText(s) && k <= |s| && (k > 0 ==> s[k - 1] != CR)
    ensures Count(s[..k], CR) == Count(s[..k], LF)
  {
    if k > 0 {
      assert CrLfAt(s, k - 1);
      var n := if s[k - 1] == LF then 2 else 1;
      if k > n {
        assert CrLfAt(s, k - n - 1);
      }
      CrLfCounts(s, k - n);
      assert s[..k] == s[..k - n] + s[k - n..k];
      CountConcat(s[..k - n], s[k - n..k], CR);
      CountConcat(s[..k - n], s[k - n..k], LF);
      assert s[k - n..k] == if n == 2 then "\r\n" else [s[k - 1]];
      assert [s[k - 1]][1..] == "" && "\r\n"[1..] == "\n" && "\n"[1..] == "";
    }
  }

  lemma EmptyIsCrLf()
    ensures CrLfText("")
  {
  }

  lemma CrLfJoin(a: string, b: string)
    requires CrLfText(a) && CrLfText(b)
    ensures CrLfText(a + b)
  {
    forall k | 0 <= k < |a + b|
      ensures CrLfAt(a + b, k)
    {
      if k < |a| { assert CrLfAt(a, k); } else { assert CrLfAt(b, k - |a|); }
    }
  }

  lemma CrLfSlice(d: string, a: nat, b: nat)
    requires CrLfText(d) && a <= b <= |d|
    requires a > 0 ==> d[a - 1] != CR
    requires b < |d| ==> d[b] != LF
    ensures CrLfText(d[a..b])
  {
    forall k | 0 <= k < b - a
      ensures CrLfAt(d[a..b], k)
    {
      assert CrLfAt(d, a + k);
    }
  }

  /** Merging keeps CRLF text CRLF text: directives start and end inside lines. */
  lemma {:induction false} BeforeIsCrLf(lead: LeadByte, d: string, infos: seq<Info>, i: nat)
    requires Checked(lead, d, infos) && TableOk(d, infos) && i <= |infos|
    requires CrLfText(d) && forall k :: 0 <= k < |infos| ==> CrLfText(infos[k].contents)
    ensures CrLfText(Before(d, infos, i))
    ensures GapStart(infos, i) > 0 ==> d[GapStart(infos, i) - 1] != CR
  {
    hide CrLfText, EntryOk;
    if i > 0 {
      BeforeIsCrLf(lead, d, infos, i - 1);
      EntryEnds(lead, d, infos, i - 1);
      var g, a := GapStart(infos, i - 1), infos[i - 1].start;
      CrLfSlice(d, g, a);
      CrLfJoin(Before(d, infos, i - 1), d[g..a]);
      CrLfJoin(Before(d, infos, i - 1) + d[g..a], infos[i - 1].contents);
    } else {
      EmptyIsCrLf();
    }
  }

  lemma EntryEnds(lead: LeadByte, d: string, infos: seq<Info>, i: nat)
    requires Checked(lead, d, infos) && i < |infos|
    ensures infos[i].start < infos[i].end <= |d| && d[infos[i].start] == '<' && d[infos[i].end - 1] == '>'
  {
    hide Find, HashAt, GetLine;
    assert CheckedAt(lead, d, infos, i);
  }

  lemma MergedIsCrLf(lead: LeadByte, d: string, infos: seq<Info>)
    requires Checked(lead, d, infos) && TableOk(d, infos)
    requires CrLfText(d) && forall k :: 0 <= k < |infos| ==> CrLfText(infos[k].contents)
    ensures CrLfText(Merged(d, infos))
  {
    hide CrLfText, Checked;
    var g := GapStart(infos, |infos|);
    BeforeIsCrLf(lead, d, infos, |infos|);
    CrLfSlice(d, g, |d|);
    assert d[g..|d|] == d[g..];
    CrLfJoin(Before(d, infos, |infos|), d[g..]);
  }

  /** What precedes include `i`'s text, and any part of it, begins the merged page. */
  lemma {:induction false} BeforeIsPrefix(d: string, infos: seq<Info>, i: nat)
    requires TableOk(d, infos) && i <= |infos|
    ensures Before(d, infos, i) + (if i < |infos| then d[GapStart(infos, i)..infos[i].start] + infos[i].contents
                                   else d[GapStart(infos, i)..]) <= Merged(d, infos)
    decreases |infos| - i
  {
    if i < |infos| {
      BeforeIsPrefix(d, infos, i + 1);
      var gap, file := d[GapStart(infos, i)..infos[i].start], infos[i].contents;
      Assoc(Before(d, infos, i), gap, file);
      assert Before(d, infos, i + 1) <= Merged(d, infos);
    }
  }

  lemma PrefixOfPrefix(m: string, a: string, b: string, k: nat)
    requires a + b <= m && k <= |b|
    ensures m[..|a| + k] == a + b[..k]
  {
  }

  lemma IncludePrefix(d: string, infos: seq<Info>, i: nat, o: nat)
    requires TableOk(d, infos) && i < |infos| && o <= |infos[i].contents|
    ensures |BeforeFile(d, infos, i)| + o <= |Merged(d, infos)|
    ensures Merged(d, infos)[..|BeforeFile(d, infos, i)| + o] == BeforeFile(d, infos, i) + infos[i].contents[..o]
  {
    hide Before, Merged;
    BeforeIsPrefix(d, infos, i);
    Assoc(Before(d, infos, i), d[GapStart(infos, i)..infos[i].start], infos[i].contents);
    PrefixOfPrefix(Merged(d, infos), BeforeFile(d, infos, i), infos[i].contents, o);
  }

  lemma GapPrefix(d: string, infos: seq<Info>, i: nat, q: nat)
    requires TableOk(d, infos) && i <= |infos| && InGap(d, infos, i, q)
    ensures var k := |Before(d, infos, i)| + (q - GapStart(infos, i));
            k <= |Merged(d, infos)| && Merged(d, infos)[..k] == Before(d, infos, i) + d[GapStart(infos, i)..q]
  {
    hide Before, Merged;
    BeforeIsPrefix(d, infos, i);
    var g := GapStart(infos, i);
    var rest := if i < |infos| then d[g..infos[i].start] + infos[i].contents else d[g..];
    PrefixOfPrefix(Merged(d, infos), Before(d, infos, i), rest, q - g);
    assert rest[..q - g] == d[g..q];
  }

  /** The line the script engine reports for character `j` of command `b`'s code. */
  function ScriptLine(lang: ScriptLang, lead: LeadByte, m: string, b: nat, j: nat): nat
    requires Script(lang, lead, m).Some?
    requires AspMeaning.IsCodeAt(lead, m, b, j)
  {
    var script := Script(lang, lead, m).value;
    var (_, to) := AspMeaning.CodeOffsets(lang, m, Parse(lead, m, WhiteLen(m), 2).value, b, j);
    1 + (if to <= |script| then Count(script[..to], LF) else 0)
  }

  /** Offset of that character on the merged page. */
  function CodeAt(lang: ScriptLang, lead: LeadByte, m: string, b: nat, j: nat): nat
    requires AspMeaning.IsCodeAt(lead, m, b, j)
  {
    AspMeaning.CodeOffsets(lang, m, Parse(lead, m, WhiteLen(m), 2).value, b, j).0
  }

  /** On CRLF pages the engine's line of a code character is its line on the merged page. */
  lemma EngineLine(lang: ScriptLang, lead: LeadByte, m: string, b: nat, j: nat)
    requires Script(lang, lead, m).Some? && CrLfText(m) && AspMeaning.IsCodeAt(lead, m, b, j)
    requires CodeAt(lang, lead, m, b, j) < |m| ==> m[CodeAt(lang, lead, m, b, j)] != LF
    ensures CodeAt(lang, lead, m, b, j) < |m|
    ensures ScriptLine(lang, lead, m, b, j) == LineAfter(m[..CodeAt(lang, lead, m, b, j)])
  {
    hide Count, Parse, WhiteLen, AspMeaning.CodeOffsets;
    AspMeaning.CodeKeepsItsLine(lang, lead, m, b, j);
    var k := CodeAt(lang, lead, m, b, j);
    assert k > 0 ==> CrLfAt(m, k - 1);
    CrLfCounts(m, k);
  }

  /** An error the engine reports in code that came from an include is located in that file,
      on its own line. */
  lemma ErrorInInclude(lang: ScriptLang, lead: LeadByte, d: string, infos: seq<Info>, b: nat, j: nat, i: nat, o: nat)
    requires TableOk(d, infos) && Numbered(d, infos) && OnOwnLines(d, infos)
    requires var m := Merged(d, infos);
             && Script(lang, lead, m).Some? && CrLfText(m) && AspMeaning.IsCodeAt(lead, m, b, j)
             && i < |infos| && o < |infos[i].contents| && infos[i].contents[o] != LF
             && CodeAt(lang, lead, m, b, j) == |BeforeFile(d, infos, i)| + o
    ensures ErrorInfo(infos, ScriptLine(lang, lead, Merged(d, infos), b, j), 0, 0)
         == (Some(infos[i].name), LineAfter(infos[i].contents[..o]))
  {
    hide Count, Before, CodeAt, ScriptLine, Numbered, OnOwnLines, Script, AspMeaning.IsCodeAt, CrLfText, Merged, BeforeFile, ErrorInfo;
    var m, file := Merged(d, infos), infos[i].contents;
    IncludePrefix(d, infos, i, o);
    IncludePrefix(d, infos, i, o + 1);
    assert m[..|BeforeFile(d, infos, i)| + o + 1][|BeforeFile(d, infos, i)| + o] == file[..o + 1][o] == file[o];
    EngineLine(lang, lead, m, b, j);
    IncludeLineFound(d, infos, i, o);
  }

  /** An error in code of the page itself is located on the page's line, unless an include
      shares that merged line. */
  lemma ErrorInPage(lang: ScriptLang, lead: LeadByte, d: string, infos: seq<Info>, b: nat, j: nat, i: nat, q: nat)
    requires TableOk(d, infos) && Numbered(d, infos) && OnOwnLines(d, infos) && OneLineDirectives(d, infos)
    requires i <= |infos| && InGap(d, infos, i, q) && q < (if i < |infos| then infos[i].start else |d|) && d[q] != LF
    requires var m := Merged(d, infos);
             && Script(lang, lead, m).Some? && CrLfText(m) && AspMeaning.IsCodeAt(lead, m, b, j)
             && CodeAt(lang, lead, m, b, j) == |Before(d, infos, i)| + (q - GapStart(infos, i))
    ensures ErrorInfo(infos, ScriptLine(lang, lead, Merged(d, infos), b, j), 0, 0) == (None, LineAfter(d[..q]))
       <==> !SharesLineAbove(d, infos, i, q) && !SharesLineBelow(d, infos, i, q)
  {
    hide Count, Before, CodeAt, ScriptLine, Numbered, OnOwnLines, OneLineDirectives, Script, AspMeaning.IsCodeAt, CrLfText, Merged, ErrorInfo;
    var m, g := Merged(d, infos), GapStart(infos, i);
    GapPrefix(d, infos, i, q);
    GapPrefix(d, infos, i, q + 1);
    var k := |Before(d, infos, i)| + (q - g);
    assert m[..k + 1][k] == d[g..q + 1][q - g] == d[q];
    EngineLine(lang, lead, m, b, j);
    PageLineFound(d, infos, i, q);
    NoDirectiveReturns(d, infos, i);
  }

  // ------------------------------------------------------- a misplaced error

  /** The page <%x%><!--#include file="a"-->, with a command directly in front of a directive. */
  ghost predicate CommandAbove(d: string) {
    && |d| == 29
    && d[0] == '<' && d[1] == '%' && d[2] == 'x' && d[3] == '%' && d[4] == '>' && d[5] == '<' && d[6] == '!'
    && d[7] == '-' && d[8] == '-' && d[9] == '#' && d[10] == 'i' && d[11] == 'n' && d[12] == 'c' && d[13] == 'l'
    && d[14] == 'u' && d[15] == 'd' && d[16] == 'e' && d[17] == ' ' && d[18] == 'f' && d[19] == 'i' && d[20] == 'l'
    && d[21] == 'e' && d[22] == '=' && d[23] == '\"' && d[24] == 'a' && d[25] == '\"' && d[26] == '-' && d[27] == '-'
    && d[28] == '>'
  }

  lemma CommandAbovePage()
    ensures CommandAbove(((("<%x%>" + "<!--") + "#include") + " file=") + ("\"a\"" + "-->"))
  {
    var a, b, c, e, f, g := "<%x%>", "<!--", "#include", " file=", "\"a\"", "-->";
    var d := (((a + b) + c) + e) + (f + g);
    assert |d| == 29 && d[..5] == a && d[5..9] == b && d[9..17] == c && d[17..23] == e && d[23..26] == f && d[26..] == g;
  }

  lemma FirstTwo(d: string, pat: string, k: nat)
    requires 2 <= |pat| && k + |pat| <= |d| && d[k..k + |pat|] == pat
    ensures d[k] == pat[0] && d[k + 1] == pat[1]
  {
    assert d[k..k + |pat|][0] == d[k] && d[k..k + |pat|][1] == d[k + 1];
  }

  lemma FindAt(lead: LeadByte, d: string, p: nat, pat: string, k: nat)
    requires p <= k && 2 <= |pat| && k + |pat| <= |d| && NUL !in d && NUL !in pat
    requires d[k..k + |pat|] == pat && (k == p || !lead(d[k - 1]))
    requires forall j :: p <= j < k ==> d[j] != pat[0] || d[j + 1] != pat[1]
    ensures Find(lead, d, p, pat) == Some(k)
  {
    FindIsFirst(lead, d, p, pat);
    hide Find, FindFrom;
    assert NUL !in d[p..k] by { assert forall c :: c in d[p..k] ==> c in d; }
    assert MatchAt(lead, d, p, pat, k);
    FirstTwo(d, pat, Find(lead, d, p, pat).value);
  }

  lemma FindNowhere(lead: LeadByte, d: string, p: nat, pat: string)
    requires p <= |d| && 2 <= |pat| && NUL !in pat
    requires forall j :: p <= j < |d| - 1 ==> d[j] != pat[0] || d[j + 1] != pat[1]
    ensures Find(lead, d, p, pat) == None
  {
    hide FindFrom;
    var r := Find(lead, d, p, pat);
    if r.Some? { FirstTwo(d, pat, r.value); }
  }

  lemma SkipNothing(d: string, p: nat)
    requires p < |d| && !IsSpace(d[p])
    ensures SkipWhite(d, p) == p
  {
    assert d[p..][0] == d[p];
  }

  lemma CommandAboveReference(d: string)
    requires CommandAbove(d)
    ensures HashAt(d, 5) == 9 && WordAt(d, 9, "#include") && ParseReference(d, 17) == Ok(Reference(true, 24, 25))
  {
    SkipNothing(d, 9);
    SkipNothing(d, 18);
    SkipNothing(d, 22);
    SkipNothing(d, 23);
    assert SkipWhite(d, 17) == 18 by { assert d[17..][0] == ' ' && d[17..][1..] == d[18..]; }
    hide SkipWhite;
    assert WordAt(d, 18, "file");
    assert QuoteFrom(d, 24) == Some(25) by { assert QuoteFrom(d, 25) == Some(25); }
  }

  lemma CommandAboveFinds(lead: LeadByte, d: string)
    requires CommandAbove(d)
    ensures Find(lead, d, 0, COMMENT_BEGIN) == Some(5) && Find(lead, d, 24, COMMENT_END) == Some(26)
  {
    assert NUL !in d;
    assert d[5..9] == COMMENT_BEGIN && d[26..29] == COMMENT_END;
    hide Find;
    FindAt(lead, d, 0, COMMENT_BEGIN, 5);
    FindAt(lead, d, 24, COMMENT_END, 26);
  }

  lemma CommandAboveEnds(lead: LeadByte, d: string)
    requires CommandAbove(d)
    ensures Find(lead, d, 29, BEGIN_COMMAND) == None && Find(lead, d, 29, COMMENT_BEGIN) == None
    ensures |d| == 29 && d[25 := '"'] == d && d[24..25] == "a"
  {
    hide Find;
    FindNowhere(lead, d, 29, BEGIN_COMMAND);
    FindNowhere(lead, d, 29, COMMENT_BEGIN);
  }

  /** The scan accepts it. */
  lemma CommandAboveAccepted(lead: LeadByte, fs: FileSystem, d: string, contents: string)
    requires CommandAbove(d) && fs(true, "a") == File(contents)
    ensures Scan(lead, fs, d, 0, []) == Ok((d, [Info("a", 5, 29, contents, 0, 1)]))
  {
    hide Find, HashAt, WordAt, ParseReference, GetLine, CommandAbove;
    CommandAboveFinds(lead, d);
    CommandAboveReference(d);
    CommandAboveEnds(lead, d);
    var e := Info("a", 5, 29, contents, 0, 1);
    assert ReadDirective(lead, fs, d, [], 5) == Ok((d, e));
    hide ReadDirective;
    assert [] + [e] == [e] && LastEnd([e]) == 29;
    assert Scan(lead, fs, d, 29, [e]) == Ok((d, [e]));
  }

  /** An error in its command, which is on line 1 of the page, is located on line 1 of the file
      included, whatever that file holds. */
  lemma CommandAboveMisplaced(d: string, infos: seq<Info>, contents: string)
    requires CommandAbove(d) && SamePlaces([Info("a", 5, 29, contents, 0, 1)], infos)
    requires TableOk(d, infos) && Numbered(d, infos)
    ensures InGap(d, infos, 0, 2) && SharesLineBelow(d, infos, 0, 2) && LineAfter(d[..2]) == 1
    ensures ErrorInfo(infos, MergedLine(d, infos, 0, 2), 0, 0) == (Some("a"), 1)
  {
    CountNone(d[2..5], CR);
    CountNone(d[..2], CR);
    assert OnOwnLines(d, infos);
    hide CommandAbove, Count, MergedLine, Numbered, ErrorInfo;
    PageLineFound(d, infos, 0, 2);
  }
}
