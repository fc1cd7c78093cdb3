/** Equality of file names in the lock table: PathNameCompare of
    PRIVATE/SERVERS/HTTP/EXTNS/extns.cpp. */
module PathNames {
  import opened Text

  predicate IsSlash(c: char) {
    c == '/' || c == '\\'
  }

  /** towlower: any folding that leaves the terminator and both slashes alone and maps no
      other character to one of them. */
  ghost predicate FoldsLetters(f: char -> char) {
    forall c: char ::
      && (f(c) == NUL <==> c == NUL)
      && (IsSlash(f(c)) <==> IsSlash(c))
      && (IsSlash(c) ==> f(c) == c)
  }

  type Fold = f: char -> char | FoldsLetters(f) witness (c: char) => c

  /** A file name without an embedded terminator. */
  type Path = s: string | NUL !in s witness ""

  /** A character up to case, with both slashes alike. */
  function KeyChar(fold: Fold, c: char): char {
    if IsSlash(c) then '/' else fold(c)
  }

  /** The canonical form of a file name. */
  function Key(fold: Fold, p: string): (k: string)
    ensures |k| == |p| && forall i :: 0 <= i < |p| ==> k[i] == KeyChar(fold, p[i])
  {
    seq(|p|, i requires 0 <= i < |p| => KeyChar(fold, p[i]))
  }

  /** Two characters the comparison lets pass. */
  predicate CharsMatch(fold: Fold, a: char, b: char) {
    fold(a) == fold(b) || (IsSlash(a) && IsSlash(b))
  }

  lemma MatchIsKey(fold: Fold, a: char, b: char)
    ensures CharsMatch(fold, a, b) <==> KeyChar(fold, a) == KeyChar(fold, b)
  {
    assert FoldsLetters(fold);
  }

  /** The comparison is zero exactly for names with the same canonical form, so it is an
      equivalence of names. */
  method PathNameCompare(fold: Fold, src: Path, dst: Path) returns (r: int)
    ensures r == 0 <==> Key(fold, src) == Key(fold, dst)
  {
    var i := 0;
    assert FoldsLetters(fold);
    while true
      invariant 0 <= i <= |src| && i <= |dst|
      invariant forall k :: 0 <= k < i ==> KeyChar(fold, src[k]) == KeyChar(fold, dst[k])
      decreases |dst| - i
    {
      var s, d := At(src, i), At(dst, i);
      var fSlashMatch := IsSlash(d) && IsSlash(s);
      var f, l := fold(d), fold(s);
      MatchIsKey(fold, s, d);
      assert i < |src| ==> src[i] != NUL;
      assert i < |dst| ==> dst[i] != NUL;
      if !(f != NUL && (f == l || fSlashMatch)) {
        r := if fSlashMatch then 0 else f as int - l as int;
        if i < |src| && i < |dst| {
          assert Key(fold, src)[i] != Key(fold, dst)[i];
        }
        return;
      }
      i := i + 1;
    }
  }
}
