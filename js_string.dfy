/**
 * The JavaScript string built-ins that the roast pipeline calls, on strings
 * taken as sequences of UTF-16 code units (one `char` per code unit):
 * `toLowerCase` (its ASCII part), `indexOf`, `trim`,
 * `split` with a one-character separator and with the pattern /\n+/,
 * `replace` with a string pattern and a string replacement, and
 * `filter(Boolean)` on a list of strings.
 */
module JsString {

  /** `toLowerCase` on one code unit, for the ASCII letters. */
  function LowerChar(c: char): char
  {
    if 'A' <= c <= 'Z' then (c as int + 32) as char else c
  }

  /** `s.toLowerCase()` restricted to ASCII case mapping. */
  function AsciiLower(s: string): (r: string)
    ensures |r| == |s|
    ensures forall i :: 0 <= i < |s| ==> r[i] == LowerChar(s[i])
  {
    if s == [] then [] else [LowerChar(s[0])] + AsciiLower(s[1..])
  }

  predicate StartsWith(s: string, p: string)
  {
    |p| <= |s| && s[..|p|] == p
  }

  /** p occurs in s at position i. */
  predicate OccursAt(s: string, p: string, i: int)
  {
    0 <= i <= |s| - |p| && s[i..i + |p|] == p
  }

  /** p occurs somewhere in s: the specification predicate that `indexOf`, the denylist test and the quoting of keywords are stated against. */
  predicate Contains(s: string, p: string)
    decreases |s|
  {
    StartsWith(s, p) || (s != [] && Contains(s[1..], p))
  }

  /** Contains agrees with "p occurs at some position of s". */
  lemma {:induction false} ContainsIff(s: string, p: string)
    ensures Contains(s, p) <==> exists i :: OccursAt(s, p, i)
    decreases |s|
  {
    if s != [] {
      if StartsWith(s, p) {
        assert OccursAt(s, p, 0);
      }
      ContainsIff(s[1..], p);
      if Contains(s[1..], p) {
        var i :| OccursAt(s[1..], p, i);
        assert s[i + 1..i + 1 + |p|] == s[1..][i..i + |p|];
        assert OccursAt(s, p, i + 1);
      }
      if exists i :: OccursAt(s, p, i) {
        var i :| OccursAt(s, p, i);
        if i > 0 {
          assert s[1..][i - 1..i - 1 + |p|] == s[i..i + |p|];
          assert OccursAt(s[1..], p, i - 1);
        } else {
          assert s[..|p|] == p;
        }
      }
    } else {
      if Contains(s, p) {
        assert OccursAt(s, p, 0);
      }
      if exists i :: OccursAt(s, p, i) {
        var i :| OccursAt(s, p, i);
        assert StartsWith(s, p);
      }
    }
  }

  /** An occurrence at j > 0 is an occurrence at j - 1 of the tail, and at 0 a prefix. */
  lemma OccursShift(s: string, p: string, j: int)
    requires s != [] && j >= 1
    ensures OccursAt(s, p, j) <==> OccursAt(s[1..], p, j - 1)
    ensures OccursAt(s, p, 0) <==> StartsWith(s, p)
  {
    var t := s[1..];
    if 1 <= j <= |s| - |p| {
      var a, b := s[j..j + |p|], t[j - 1..j - 1 + |p|];
      forall m | 0 <= m < |p| ensures a[m] == b[m] {
        assert a[m] == s[j + m] && b[m] == t[j - 1 + m];
      }
      assert a == b;
    }
  }

  /** `s.indexOf(p)`: the first position at which p occurs, or -1. */
  function IndexOf(s: string, p: string): (r: int)
    ensures r == -1 || 0 <= r <= |s| - |p|
    ensures r == -1 <==> !Contains(s, p)
    ensures r >= 0 ==> OccursAt(s, p, r) && forall j :: 0 <= j < r ==> !OccursAt(s, p, j)
    decreases |s|
  {
    if StartsWith(s, p) then 0
    else if s == [] then -1
    else
      var k := IndexOf(s[1..], p);
      if k < 0 then -1
      else
        forall j | 1 <= j <= k ensures !OccursAt(s, p, j) {
          OccursShift(s, p, j);
        }
        OccursShift(s, p, k + 1);
        k + 1
  }

  /**
   * The replacement text of `replace` with a string pattern (no capture
   * groups): `$$` gives `$`, `$&` the matched text, `` $` `` the text before
   * the match, `$'` the text after it; any other `$` is kept as it is.
   */
  function Substitute(rep: string, matched: string, before: string, after: string): string
    decreases |rep|
  {
    if |rep| >= 2 && rep[0] == '$' && rep[1] in "$&`'" then
      var piece := if rep[1] == '$' then "$" else if rep[1] == '&' then matched
                   else if rep[1] == '`' then before else after;
      piece + Substitute(rep[2..], matched, before, after)
    else if rep == [] then []
    else [rep[0]] + Substitute(rep[1..], matched, before, after)
  }

  /** A replacement without `$` is inserted literally. */
  lemma {:induction false} SubstituteLiteral(rep: string, matched: string, before: string, after: string)
    ensures '$' !in rep ==> Substitute(rep, matched, before, after) == rep
    decreases |rep|
  {
    if rep != [] && '$' !in rep {
      assert rep[0] != '$';
      SubstituteLiteral(rep[1..], matched, before, after);
    }
  }

  /** `s.replace(pat, rep)` with a string pattern: only the first occurrence is replaced. */
  function ReplaceFirst(s: string, pat: string, rep: string): (r: string)
    ensures !Contains(s, pat) ==> r == s
    ensures Contains(s, pat) && '$' !in rep ==>
              exists i :: && OccursAt(s, pat, i) && (forall j :: 0 <= j < i ==> !OccursAt(s, pat, j))
                          && r == s[..i] + rep + s[i + |pat|..]
  {
    var i := IndexOf(s, pat);
    if i < 0 then s
    else
      var after := s[i + |pat|..];
      SubstituteLiteral(rep, pat, s[..i], after);
      s[..i] + Substitute(rep, pat, s[..i], after) + after
  }

  /**
   * When the pattern's first character does not occur in a, the first
   * occurrence of the pattern in a + pat + b is the one right after a.
   */
  lemma ReplaceFirstAfter(a: string, pat: string, b: string, rep: string)
    requires pat != [] && pat[0] !in a && '$' !in rep
    ensures ReplaceFirst(a + pat + b, pat, rep) == a + rep + b
  {
    var s := a + pat + b;
    assert s[..|a|] == a && s[|a|..|a| + |pat|] == pat && s[|a| + |pat|..] == b;
    assert OccursAt(s, pat, |a|);
    ContainsIff(s, pat);
    var i := IndexOf(s, pat);
    assert i == |a|;
    SubstituteLiteral(rep, pat, a, b);
  }

  /** The replacement `$&` inserts the matched text, so replacing with it changes nothing. */
  lemma ReplaceWithMatch(s: string, pat: string)
    ensures ReplaceFirst(s, pat, "$&") == s
  {
    var i := IndexOf(s, pat);
    if i >= 0 {
      var before, after := s[..i], s[i + |pat|..];
      assert Substitute("$&", pat, before, after) == pat by {
        assert "$&"[2..] == [];
      }
      assert s == before + s[i..i + |pat|] + after;
    }
  }

  /** The characters `trim` removes: ECMAScript WhiteSpace and LineTerminator. */
  const JsSpaces: set<char> := {
    '\t', '\n', '\U{000B}', '\U{000C}', '\r', ' ', '\U{00A0}', '\U{1680}',
    '\U{2000}', '\U{2001}', '\U{2002}', '\U{2003}', '\U{2004}', '\U{2005}',
    '\U{2006}', '\U{2007}', '\U{2008}', '\U{2009}', '\U{200A}',
    '\U{2028}', '\U{2029}', '\U{202F}', '\U{205F}', '\U{3000}', '\U{FEFF}'
  }

  predicate IsJsSpace(c: char)
  {
    c in JsSpaces
  }

  predicate AllSpace(s: string)
  {
    forall k :: 0 <= k < |s| ==> IsJsSpace(s[k])
  }

  /** Index of the first character at or after i that is not white space, or |s|. */
  function SkipSpace(s: string, i: nat): (n: nat)
    requires i <= |s|
    ensures i <= n <= |s|
    ensures forall k :: i <= k < n ==> IsJsSpace(s[k])
    ensures n < |s| ==> !IsJsSpace(s[n])
    decreases |s| - i
  {
    if i < |s| && IsJsSpace(s[i]) then SkipSpace(s, i + 1) else i
  }

  /** Index just after the last character before j that is not white space, or 0. */
  function SkipSpaceBack(s: string, j: nat): (n: nat)
    requires j <= |s|
    ensures n <= j
    ensures forall k :: n <= k < j ==> IsJsSpace(s[k])
    ensures n > 0 ==> !IsJsSpace(s[n - 1])
    decreases j
  {
    if j > 0 && IsJsSpace(s[j - 1]) then SkipSpaceBack(s, j - 1) else j
  }

  /**
   * `s.trim()`: white space removed at both ends, so the result neither
   * starts nor ends with white space; TrimSlice says what was cut off.
   */
  function Trim(s: string): (r: string)
    ensures |r| <= |s|
    ensures r == [] || (!IsJsSpace(r[0]) && !IsJsSpace(r[|r| - 1]))
  {
    var i, j := SkipSpace(s, 0), SkipSpaceBack(s, |s|);
    if j <= i then [] else s[i..j]
  }

  /** The trimmed string is a slice of s, and everything cut off on either side is white space. */
  lemma TrimSlice(s: string)
    ensures exists i :: 0 <= i <= |s| - |Trim(s)| && Trim(s) == s[i..i + |Trim(s)|] && AllSpace(s[..i]) && AllSpace(s[i + |Trim(s)|..])
  {
    var i, j := SkipSpace(s, 0), SkipSpaceBack(s, |s|);
    var r := Trim(s);
    if j <= i {
      assert r == [] && AllSpace(s[..|s|]);
      assert AllSpace(s[|s|..]);
    } else {
      assert r == s[i..i + |r|];
      assert AllSpace(s[..i]);
      assert AllSpace(s[i + |r|..]);
    }
  }

  /** Trim erases exactly the all-white-space strings. */
  lemma TrimEmptyIff(s: string)
    ensures Trim(s) == [] <==> AllSpace(s)
  {
    var i, j := SkipSpace(s, 0), SkipSpaceBack(s, |s|);
    if AllSpace(s) {
      assert i == |s|;
    }
  }

  /** A string that neither starts nor ends with white space is left as it is. */
  lemma TrimKeeps(s: string)
    requires s == [] || (!IsJsSpace(s[0]) && !IsJsSpace(s[|s| - 1]))
    ensures Trim(s) == s
  {
    assert s[0..|s|] == s;
  }

  /** `s.split(sep)` for a separator of one code unit. */
  function Split(s: string, sep: char): (r: seq<string>)
    ensures |r| >= 1
    ensures forall k :: 0 <= k < |r| ==> sep !in r[k]
    decreases |s|
  {
    if s == [] then [""]
    else
      var rest := Split(s[1..], sep);
      if s[0] == sep then [""] + rest else [[s[0]] + rest[0]] + rest[1..]
  }

  /** `ps.join(sep)`, the inverse of Split. */
  function Join(ps: seq<string>, sep: char): string
  {
    if ps == [] then "" else if |ps| == 1 then ps[0] else ps[0] + [sep] + Join(ps[1..], sep)
  }

  /** Joining the pieces of a split gives back the string. */
  lemma {:induction false} JoinSplit(s: string, sep: char)
    ensures Join(Split(s, sep), sep) == s
    decreases |s|
  {
    if s != [] {
      var rest := Split(s[1..], sep);
      JoinSplit(s[1..], sep);
      if s[0] == sep {
        assert Split(s, sep) == [""] + rest;
        assert ([""] + rest)[1..] == rest;
      } else if |rest| == 1 {
        assert Split(s, sep) == [[s[0]] + rest[0]];
      } else {
        var ps := [[s[0]] + rest[0]] + rest[1..];
        assert ps[1..] == rest[1..];
        assert Join(rest, sep) == rest[0] + [sep] + Join(rest[1..], sep);
      }
    }
  }

  lemma {:induction false} SplitFree(p: string, sep: char)
    requires sep !in p
    ensures Split(p, sep) == [p]
    decreases |p|
  {
    if p != [] {
      SplitFree(p[1..], sep);
      assert [p[0]] + p[1..] == p;
    }
  }

  lemma {:induction false} SplitPiece(p: string, sep: char, rest: string)
    requires sep !in p
    ensures Split(p + [sep] + rest, sep) == [p] + Split(rest, sep)
    decreases |p|
  {
    var s := p + [sep] + rest;
    if p == [] {
      assert s[1..] == rest;
    } else {
      assert s[1..] == p[1..] + [sep] + rest;
      SplitPiece(p[1..], sep, rest);
      assert [p[0]] + p[1..] == p;
    }
  }

  /** Splitting a join of separator-free pieces gives back the pieces. */
  lemma {:induction false} SplitJoin(ps: seq<string>, sep: char)
    requires |ps| >= 1
    requires forall k :: 0 <= k < |ps| ==> sep !in ps[k]
    ensures Split(Join(ps, sep), sep) == ps
    decreases |ps|
  {
    if |ps| == 1 {
      SplitFree(ps[0], sep);
    } else {
      SplitJoin(ps[1..], sep);
      SplitPiece(ps[0], sep, Join(ps[1..], sep));
    }
  }

  /**
   * `s.split(/\n+/)`: the pieces of s between maximal runs of line feeds,
   * read one code unit at a time. A line feed followed by another one
   * belongs to the same run and starts no piece; a leading or trailing run
   * yields an empty first or last piece.
   */
  function SplitRuns(s: string): (r: seq<string>)
    ensures |r| >= 1
    ensures forall k :: 0 <= k < |r| ==> '\n' !in r[k]
    decreases |s|
  {
    if s == [] then [""]
    else
      var rest := SplitRuns(s[1..]);
      if s[0] != '\n' then [[s[0]] + rest[0]] + rest[1..]
      else if |s| > 1 && s[1] == '\n' then rest
      else [""] + rest
  }

  /** A line-feed-free string is one piece. */
  lemma {:induction false} SplitRunsFree(p: string)
    requires '\n' !in p
    ensures SplitRuns(p) == [p]
    decreases |p|
  {
    if p != [] {
      SplitRunsFree(p[1..]);
      assert [p[0]] + p[1..] == p;
    }
  }

  /** A line-feed join of pieces whose first one is non-empty starts with that piece's first character. */
  lemma JoinHead(ps: seq<string>, sep: char)
    requires |ps| >= 1 && ps[0] != []
    ensures Join(ps, sep) != [] && Join(ps, sep)[0] == ps[0][0]
  {
  }

  /** A line-feed-free piece, one line feed and a rest that does not start with one split into the piece and the rest's pieces. */
  lemma {:induction false} SplitRunsCons(p: string, rest: string)
    requires '\n' !in p && rest != [] && rest[0] != '\n'
    ensures SplitRuns(p + ['\n'] + rest) == [p] + SplitRuns(rest)
    decreases |p|
  {
    var s := p + ['\n'] + rest;
    if p == [] {
      assert s[1..] == rest;
    } else {
      assert s[1..] == p[1..] + ['\n'] + rest;
      SplitRunsCons(p[1..], rest);
      assert [p[0]] + p[1..] == p;
    }
  }

  /** Splitting a line-feed join of non-empty, line-feed-free pieces gives back the pieces. */
  lemma {:induction false} SplitRunsJoin(ps: seq<string>)
    requires |ps| >= 1
    requires forall k :: 0 <= k < |ps| ==> ps[k] != [] && '\n' !in ps[k]
    ensures SplitRuns(Join(ps, '\n')) == ps
    decreases |ps|
  {
    if |ps| == 1 {
      SplitRunsFree(ps[0]);
    } else {
      SplitRunsJoin(ps[1..]);
      JoinHead(ps[1..], '\n');
      SplitRunsCons(ps[0], Join(ps[1..], '\n'));
      assert ps == [ps[0]] + ps[1..];
    }
  }

  /** `pieces.filter(Boolean)`: the non-empty pieces, in order. */
  function NonEmptyPieces(ps: seq<string>): (r: seq<string>)
    ensures |r| <= |ps|
    ensures forall x :: x in r <==> x in ps && x != []
    ensures (forall k :: 0 <= k < |ps| ==> ps[k] != []) ==> r == ps
  {
    if ps == [] then []
    else
      if ps[0] == [] then NonEmptyPieces(ps[1..])
      else [ps[0]] + NonEmptyPieces(ps[1..])
  }

  /** The filter works piece by piece: it keeps the order of what it keeps. */
  lemma {:induction false} NonEmptyConcat(a: seq<string>, b: seq<string>)
    ensures NonEmptyPieces(a + b) == NonEmptyPieces(a) + NonEmptyPieces(b)
    decreases |a|
  {
    if a != [] {
      assert (a + b)[0] == a[0] && (a + b)[1..] == a[1..] + b;
      NonEmptyConcat(a[1..], b);
    } else {
      assert a + b == b;
    }
  }

  /** One empty piece when the flag is set, none otherwise. */
  function Edge(atEnd: bool): (r: seq<string>)
    ensures NonEmptyPieces(r) == []
  {
    if atEnd then [""] else []
  }

  /** The text ends with a line feed. */
  predicate EndsWithFeed(s: string)
  {
    s != [] && s[|s| - 1] == '\n'
  }

  /** Gluing a code unit onto the first piece of a list. */
  function Glue(c: char, ps: seq<string>): (r: seq<string>)
    requires ps != []
    ensures |r| == |ps| && r[0] == [c] + ps[0] && r[1..] == ps[1..]
  {
    [[c] + ps[0]] + ps[1..]
  }

  /** A code unit other than a line feed joins the first piece of both splits. */
  lemma SplitsGlue(s: string)
    requires s != [] && s[0] != '\n'
    ensures SplitRuns(s) == Glue(s[0], SplitRuns(s[1..]))
    ensures Split(s, '\n') == Glue(s[0], Split(s[1..], '\n'))
  {
  }

  /** The shape SplitRunsExact states. */
  ghost predicate RunsExact(s: string)
  {
    var r, u := SplitRuns(s), Split(s, '\n');
    r[0] == u[0] && r[1..] == NonEmptyPieces(u[1..]) + Edge(EndsWithFeed(s))
  }

  /** Induction step of SplitRunsExact for a text starting with a unit other than a line feed. */
  lemma RunsExactPiece(s: string)
    requires |s| > 1 && s[0] != '\n' && RunsExact(s[1..])
    ensures RunsExact(s)
  {
    var t := s[1..];
    assert t[|t| - 1] == s[|s| - 1];
    SplitsGlue(s);
  }

  /** Consing onto a concatenation. */
  lemma ConsConcat(a: string, n: seq<string>, e: seq<string>)
    ensures [a] + (n + e) == [a] + n + e
  {
  }

  /** Induction step of SplitRunsExact for a text starting with a line feed. */
  lemma RunsExactFeed(s: string)
    requires |s| > 1 && s[0] == '\n' && RunsExact(s[1..])
    ensures RunsExact(s)
  {
    var t := s[1..];
    assert t[|t| - 1] == s[|s| - 1];
    var u := Split(t, '\n');
    assert Split(s, '\n') == [""] + u;
    var rt := SplitRuns(t);
    if t[0] == '\n' {
      assert SplitRuns(s) == rt;
      assert u[0] == [];
    } else {
      assert SplitRuns(s) == [""] + rt;
      assert u[0] != [] by { assert u[0][0] == t[0]; }
      assert rt == [rt[0]] + rt[1..];
      ConsConcat(u[0], NonEmptyPieces(u[1..]), Edge(EndsWithFeed(s)));
    }
  }

  /**
   * The pieces of `split(/\n+/)`: the first piece of a split at every
   * line feed, then the non-empty later pieces of that split, in order,
   * then one empty piece when the text ends with a line feed.
   */
  lemma {:induction false} SplitRunsExact(s: string)
    ensures SplitRuns(s)[0] == Split(s, '\n')[0]
    ensures SplitRuns(s)[1..] == NonEmptyPieces(Split(s, '\n')[1..]) + Edge(EndsWithFeed(s))
    decreases |s|
  {
    if |s| == 1 {
      assert Split(s[1..], '\n') == [""] && SplitRuns(s[1..]) == [""];
    } else if |s| > 1 {
      SplitRunsExact(s[1..]);
      if s[0] == '\n' {
        RunsExactFeed(s);
      } else {
        RunsExactPiece(s);
      }
    }
  }

  /** `split(/\n+/)` and a split at every line feed have the same non-empty pieces, in the same order. */
  lemma SplitRunsNonEmpty(s: string)
    ensures NonEmptyPieces(SplitRuns(s)) == NonEmptyPieces(Split(s, '\n'))
  {
    SplitRunsExact(s);
    var r, u := SplitRuns(s), Split(s, '\n');
    var later := NonEmptyPieces(u[1..]);
    NonEmptyConcat(later, Edge(EndsWithFeed(s)));
    assert NonEmptyPieces(later) == later by {
      assert forall k :: 0 <= k < |later| ==> later[k] in later;
    }
    NonEmptyHead(r);
    NonEmptyHead(u);
  }

  /** The filter applied to a first piece and to the rest. */
  lemma NonEmptyHead(ps: seq<string>)
    requires ps != []
    ensures NonEmptyPieces(ps) == NonEmptyPieces([ps[0]]) + NonEmptyPieces(ps[1..])
  {
    assert ps == [ps[0]] + ps[1..];
    NonEmptyConcat([ps[0]], ps[1..]);
  }
}
