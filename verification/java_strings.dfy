/**
 * The parts of java.lang.String (and of Commons Lang's StringUtils) that the
 * property-file model relies on, written out so that their edge cases are explicit:
 * indexOf / lastIndexOf, split with a one-character separator, trim, startsWith,
 * contains and an ASCII-only containsIgnoreCase.
 */
module JavaStrings {
  import opened Wrappers

  /** String.indexOf(c): the first position of `c` in `s`, or -1. */
  function IndexOf(s: string, c: char): (r: int)
    ensures -1 <= r < |s|
  {
    if s == [] then -1
    else if s[0] == c then 0
    else
      var j := IndexOf(s[1..], c);
      if j == -1 then -1 else j + 1
  }

  /** indexOf gives the first position of `c`, or -1 when there is none. */
  lemma {:induction false} IndexOfSpec(s: string, c: char)
    ensures var i := IndexOf(s, c);
      && -1 <= i < |s|
      && (i == -1 <==> c !in s)
      && (0 <= i ==> s[i] == c && c !in s[..i])
    decreases |s|
  {
    if s != [] && s[0] != c {
      IndexOfSpec(s[1..], c);
      var j := IndexOf(s[1..], c);
      if j != -1 {
        assert s[..j + 1] == [s[0]] + s[1..][..j];
      }
    }
  }

  /** A position holding `c` with no `c` before it is the one indexOf finds. */
  lemma IndexOfAt(s: string, c: char, k: nat)
    requires k < |s| && s[k] == c && c !in s[..k]
    ensures IndexOf(s, c) == k
  {
    IndexOfSpec(s, c);
    assert s[..k + 1][k] == c;
  }

  /** List.lastIndexOf(x): the last position holding `x`, or -1. */
  function LastIndexOf<T(==)>(s: seq<T>, x: T): (i: int)
    ensures -1 <= i < |s|
    ensures i == -1 <==> x !in s
    ensures 0 <= i ==> s[i] == x && x !in s[i + 1..]
  {
    if s == [] then -1
    else if s[|s| - 1] == x then |s| - 1
    else
      var i := LastIndexOf(s[..|s| - 1], x);
      assert s == s[..|s| - 1] + [s[|s| - 1]];
      assert 0 <= i ==> s[i + 1..] == s[..|s| - 1][i + 1..] + [s[|s| - 1]];
      i
  }

  /** `s` with every occurrence of `c` deleted. */
  function RemoveChar(s: string, c: char): string
  {
    if s == [] then [] else (if s[0] == c then [] else [s[0]]) + RemoveChar(s[1..], c)
  }

  /** Nothing of `c` is left, and nothing is added. */
  lemma {:induction false} RemoveCharFree(s: string, c: char)
    ensures c !in RemoveChar(s, c) && |RemoveChar(s, c)| <= |s|
    decreases |s|
  {
    if s != [] {
      RemoveCharFree(s[1..], c);
    }
  }

  lemma {:induction false} RemoveCharAppend(a: string, b: string, c: char)
    ensures RemoveChar(a + b, c) == RemoveChar(a, c) + RemoveChar(b, c)
    decreases |a|
  {
    if a == [] {
      assert a + b == b;
    } else {
      var head := if a[0] == c then [] else [a[0]];
      var ra, rb := RemoveChar(a[1..], c), RemoveChar(b, c);
      assert (a + b)[0] == a[0];
      assert (a + b)[1..] == a[1..] + b;
      RemoveCharAppend(a[1..], b, c);
      calc {
        RemoveChar(a + b, c);
        head + RemoveChar(a[1..] + b, c);
        head + (ra + rb);
        (head + ra) + rb;
      }
    }
  }

  lemma {:induction false} RemoveCharAbsent(s: string, c: char)
    requires c !in s
    ensures RemoveChar(s, c) == s
    decreases |s|
  {
    if s != [] {
      RemoveCharAbsent(s[1..], c);
    }
  }

  /** Deleting `c` leaves nothing exactly when every character is `c`. */
  lemma {:induction false} RemoveCharEmpty(s: string, c: char)
    ensures RemoveChar(s, c) == [] <==> forall i :: 0 <= i < |s| ==> s[i] == c
    decreases |s|
  {
    if s != [] {
      RemoveCharEmpty(s[1..], c);
      assert forall i :: 1 <= i < |s| ==> s[i] == s[1..][i - 1];
    }
  }

  /** Concatenation regroups freely. */
  lemma AppendAssoc<T>(a: seq<T>, b: seq<T>, c: seq<T>)
    ensures a + (b + c) == (a + b) + c
  {
  }

  /** A non-empty sequence is its prefix followed by its last element. */
  lemma InitLast<T>(s: seq<T>)
    requires s != []
    ensures s == s[..|s| - 1] + [s[|s| - 1]]
  {
  }

  /** The concatenation of a list of strings (a StringBuilder appended in order). */
  function Concat(ps: seq<string>): string
  {
    if ps == [] then [] else ps[0] + Concat(ps[1..])
  }

  lemma {:induction false} ConcatAppend(a: seq<string>, b: seq<string>)
    ensures Concat(a + b) == Concat(a) + Concat(b)
    decreases |a|
  {
    if a == [] {
      assert a + b == b;
    } else {
      assert (a + b)[1..] == a[1..] + b;
      ConcatAppend(a[1..], b);
    }
  }

  lemma {:induction false} ConcatEmpty(ps: seq<string>)
    ensures Concat(ps) == [] <==> forall i :: 0 <= i < |ps| ==> ps[i] == []
    decreases |ps|
  {
    if ps != [] {
      ConcatEmpty(ps[1..]);
      assert forall i :: 1 <= i < |ps| ==> ps[i] == ps[1..][i - 1];
    }
  }

  /** The pieces of `s` between occurrences of `sep`, empty ones included: one more piece than separators. */
  function Pieces(s: string, sep: char): (r: seq<string>)
    ensures |r| >= 1
    decreases |s|
  {
    var i := IndexOf(s, sep);
    if i == -1 then [s] else [s[..i]] + Pieces(s[i + 1..], sep)
  }

  /** No piece holds the separator. */
  lemma {:induction false} PiecesFree(s: string, sep: char)
    ensures forall i :: 0 <= i < |Pieces(s, sep)| ==> sep !in Pieces(s, sep)[i]
    decreases |s|
  {
    IndexOfSpec(s, sep);
    var i := IndexOf(s, sep);
    if i != -1 {
      PiecesFree(s[i + 1..], sep);
    }
  }

  /** Pieces unfolded once, at the first separator. */
  lemma PiecesCut(s: string, sep: char)
    requires sep in s
    ensures var i := IndexOf(s, sep);
      0 <= i < |s| && s == s[..i] + [sep] + s[i + 1..] && sep !in s[..i]
      && Pieces(s, sep) == [s[..i]] + Pieces(s[i + 1..], sep)
  {
    IndexOfSpec(s, sep);
  }

  /** The pieces joined back with the separator between them. */
  function JoinWith(ps: seq<string>, sep: char): string
    requires |ps| >= 1
  {
    if |ps| == 1 then ps[0] else ps[0] + [sep] + JoinWith(ps[1..], sep)
  }

  /** Cutting at every separator loses nothing: joining the pieces gives the string back. */
  lemma {:induction false} JoinPieces(s: string, sep: char)
    ensures JoinWith(Pieces(s, sep), sep) == s
    decreases |s|
  {
    IndexOfSpec(s, sep);
    var i := IndexOf(s, sep);
    if i != -1 {
      PiecesCut(s, sep);
      var rest := s[i + 1..];
      var ps := Pieces(s, sep);
      assert ps[1..] == Pieces(rest, sep);
      JoinPieces(rest, sep);
      assert JoinWith(ps, sep) == ps[0] + [sep] + JoinWith(ps[1..], sep);
      assert s == s[..i] + [sep] + rest;
    }
  }

  /** Gluing the pieces together without separators deletes exactly the separators. */
  lemma {:induction false} ConcatPieces(s: string, sep: char)
    ensures Concat(Pieces(s, sep)) == RemoveChar(s, sep)
    decreases |s|
  {
    IndexOfSpec(s, sep);
    var i := IndexOf(s, sep);
    if i == -1 {
      RemoveCharAbsent(s, sep);
      assert Concat([s]) == s + Concat([]);
    } else {
      PiecesCut(s, sep);
      var rest := s[i + 1..];
      var ps := Pieces(s, sep);
      assert ps[1..] == Pieces(rest, sep);
      calc {
        Concat(ps);
        ps[0] + Concat(ps[1..]);
        s[..i] + Concat(Pieces(rest, sep));
        { ConcatPieces(rest, sep); }
        s[..i] + RemoveChar(rest, sep);
        { RemoveCharAbsent(s[..i], sep); }
        RemoveChar(s[..i], sep) + RemoveChar([sep], sep) + RemoveChar(rest, sep);
        { RemoveCharAppend(s[..i], [sep], sep); }
        RemoveChar(s[..i] + [sep], sep) + RemoveChar(rest, sep);
        { RemoveCharAppend(s[..i] + [sep], rest, sep); }
        RemoveChar(s[..i] + [sep] + rest, sep);
        { assert s == s[..i] + [sep] + rest; }
        RemoveChar(s, sep);
      }
    }
  }

  /** What Java's split does with limit 0 after cutting: trailing empty pieces are removed. */
  function DropTrailingEmpty(ps: seq<string>): seq<string>
  {
    if ps == [] then []
    else if ps[|ps| - 1] == [] then DropTrailingEmpty(ps[..|ps| - 1])
    else ps
  }

  /** Dropping keeps a prefix that is empty or ends in a non-empty piece, and drops only empty pieces. */
  lemma {:induction false} DropTrailingEmptySpec(ps: seq<string>)
    ensures var r := DropTrailingEmpty(ps);
      && |r| <= |ps| && r == ps[..|r|]
      && (r == [] || r[|r| - 1] != [])
      && forall i :: |r| <= i < |ps| ==> ps[i] == []
    decreases |ps|
  {
    if ps != [] && ps[|ps| - 1] == [] {
      DropTrailingEmptySpec(ps[..|ps| - 1]);
    }
  }

  lemma ConcatDropTrailing(ps: seq<string>)
    ensures Concat(DropTrailingEmpty(ps)) == Concat(ps)
  {
    DropTrailingEmptySpec(ps);
    var r := DropTrailingEmpty(ps);
    var tail := ps[|r|..];
    assert ps == r + tail;
    ConcatAppend(r, tail);
    ConcatEmpty(tail);
  }

  /**
   * String.split(sep) for a one-character separator and no limit. Without any separator the
   * result is [s] (even for the empty string); otherwise the pieces with the trailing empty
   * ones dropped, so a string made only of separators gives the empty array.
   */
  function Split(s: string, sep: char): seq<string>
  {
    if sep !in s then [s] else DropTrailingEmpty(Pieces(s, sep))
  }

  /** `s` is non-empty and every character of it is `c`. */
  predicate OnlyOf(s: string, c: char)
  {
    s != [] && forall i :: 0 <= i < |s| ==> s[i] == c
  }

  /** How Java's string concatenation writes a value that may be null. */
  function Render(v: Option<string>): string
  {
    match v
    case None => "null"
    case Some(s) => s
  }

  /** The text before the first `sep`, or all of `s` when there is none. */
  function Before(s: string, sep: char): string
  {
    var i := IndexOf(s, sep);
    if i == -1 then s else s[..i]
  }

  /** The text after the first `sep` with every further `sep` deleted; empty when there is none. */
  function After(s: string, sep: char): string
  {
    var i := IndexOf(s, sep);
    if i == -1 then [] else RemoveChar(s[i + 1..], sep)
  }

  /** The text before the first `sep` holds no `sep`. */
  lemma BeforeFree(s: string, sep: char)
    ensures sep !in Before(s, sep)
  {
    IndexOfSpec(s, sep);
  }

  /** The text after the first `sep` holds no `sep`. */
  lemma AfterFree(s: string, sep: char)
    ensures sep !in After(s, sep)
  {
    IndexOfSpec(s, sep);
    var i := IndexOf(s, sep);
    if i != -1 {
      RemoveCharFree(s[i + 1..], sep);
    }
  }

  /** The pieces after the first one (what a loop from index 1 visits). */
  function Rest(ps: seq<string>): seq<string>
  {
    if ps == [] then [] else ps[1..]
  }

  /** split gives the empty array exactly for a non-empty string made only of the separator. */
  lemma SplitEmpty(s: string, sep: char)
    ensures Split(s, sep) == [] <==> OnlyOf(s, sep)
  {
    if sep in s {
      var ps := Pieces(s, sep);
      DropTrailingEmptySpec(ps);
      ConcatPieces(s, sep);
      ConcatEmpty(ps);
      RemoveCharEmpty(s, sep);
    } else if s != [] {
      assert s[0] != sep;
    }
  }

  /** The first element of split is the text before the first separator. */
  lemma SplitFirst(s: string, sep: char)
    requires !OnlyOf(s, sep)
    ensures Split(s, sep) != [] && Split(s, sep)[0] == Before(s, sep)
  {
    SplitEmpty(s, sep);
    IndexOfSpec(s, sep);
    if sep in s {
      PiecesCut(s, sep);
      var ps := Pieces(s, sep);
      DropTrailingEmptySpec(ps);
      var d := DropTrailingEmpty(ps);
      assert d[0] == ps[0];
    }
  }

  /** Gluing the elements of split after the first gives the text after the first separator, without separators. */
  lemma SplitRest(s: string, sep: char)
    ensures Concat(Rest(Split(s, sep))) == After(s, sep)
  {
    IndexOfSpec(s, sep);
    var i := IndexOf(s, sep);
    if i != -1 {
      PiecesCut(s, sep);
      var rest := s[i + 1..];
      var ps := Pieces(s, sep);
      var d := DropTrailingEmpty(ps);
      DropTrailingEmptySpec(ps);
      assert Split(s, sep) == d;
      assert ps[1..] == Pieces(rest, sep);
      var tailText := RemoveChar(rest, sep);
      assert Concat(ps) == s[..i] + tailText by {
        ConcatPieces(rest, sep);
      }
      ConcatDropTrailing(ps);
      if d == [] {
        assert |s[..i] + tailText| == 0;
        assert tailText == [];
      } else {
        assert d[0] == s[..i];
        assert Concat(d) == s[..i] + Concat(d[1..]);
        assert s[..i] + Concat(d[1..]) == s[..i] + tailText;
        assert Concat(d[1..]) == (s[..i] + Concat(d[1..]))[|s[..i]|..];
      }
    } else {
      assert Rest([s]) == [];
    }
  }

  /** Number of leading characters at or below U+0020, which String.trim strips at the front. */
  function LeadingBlanks(s: string): (n: nat)
    ensures n <= |s|
    ensures forall i :: 0 <= i < n ==> s[i] <= ' '
    ensures n < |s| ==> s[n] > ' '
  {
    if s == [] || s[0] > ' ' then 0
    else
      var k := LeadingBlanks(s[1..]);
      assert forall i :: 1 <= i < k + 1 ==> s[i] == s[1..][i - 1];
      1 + k
  }

  /** Length of `s` once the trailing characters at or below U+0020 are stripped. */
  function TrimmedEnd(s: string): (m: nat)
    ensures m <= |s|
    ensures forall i :: m <= i < |s| ==> s[i] <= ' '
    ensures 0 < m ==> s[m - 1] > ' '
  {
    if s == [] || s[|s| - 1] > ' ' then |s| else TrimmedEnd(s[..|s| - 1])
  }

  /** String.trim: strips the characters at or below U+0020 at both ends. */
  function Trim(s: string): (r: string)
    ensures r == [] || (r[0] > ' ' && r[|r| - 1] > ' ')
  {
    var n := LeadingBlanks(s);
    var m := TrimmedEnd(s);
    if m <= n then
      assert n == |s|;
      []
    else
      s[n..m]
  }

  /** Trimming removes only characters at or below U+0020. */
  lemma TrimKeeps(s: string)
    ensures forall c :: c > ' ' ==> (c in Trim(s) <==> c in s)
  {
    var n := LeadingBlanks(s);
    var m := TrimmedEnd(s);
    if n < m {
      assert forall i :: 0 <= i < |s| && s[i] > ' ' ==> s[n..m][i - n] == s[i];
    }
  }

  /** String.startsWith(p). */
  predicate StartsWith(s: string, p: string)
  {
    |p| <= |s| && forall i :: 0 <= i < |p| ==> s[i] == p[i]
  }

  /** `sub` occurs in `s` starting at position `j`. */
  predicate MatchesAt(s: string, sub: string, j: int)
  {
    0 <= j && j + |sub| <= |s| && s[j..j + |sub|] == sub
  }

  lemma MatchesShift(s: string, sub: string)
    requires s != []
    ensures forall j :: 0 <= j ==> (MatchesAt(s, sub, j + 1) <==> MatchesAt(s[1..], sub, j))
  {
    forall j | 0 <= j ensures MatchesAt(s, sub, j + 1) <==> MatchesAt(s[1..], sub, j) {
      if 0 <= j && j + 1 + |sub| <= |s| {
        var x, y := s[j + 1..j + 1 + |sub|], s[1..][j..j + |sub|];
        assert forall q :: 0 <= q < |sub| ==> x[q] == y[q];
      }
    }
  }

  /** String.indexOf(sub): the first position where `sub` occurs, or -1. */
  function IndexOfString(s: string, sub: string): (i: int)
    ensures -1 <= i
    ensures 0 <= i ==> MatchesAt(s, sub, i) && forall j :: 0 <= j < i ==> !MatchesAt(s, sub, j)
    ensures i == -1 ==> forall j :: !MatchesAt(s, sub, j)
    decreases |s|
  {
    if |sub| > |s| then -1
    else if s[..|sub|] == sub then 0
    else
      var k := IndexOfString(s[1..], sub);
      MatchesShift(s, sub);
      assert forall j :: MatchesAt(s, sub, j) ==> j == 0 || MatchesAt(s[1..], sub, j - 1);
      if k == -1 then -1 else k + 1
  }

  /** String.contains(sub). */
  predicate Contains(s: string, sub: string)
  {
    IndexOfString(s, sub) != -1
  }

  /** Character.toLowerCase restricted to ASCII: 'A'..'Z' become 'a'..'z', everything else is kept. */
  function ToLowerAscii(c: char): char
  {
    if 'A' <= c <= 'Z' then (c as int + 32) as char else c
  }

  function LowerAscii(s: string): string
  {
    seq(|s|, i requires 0 <= i < |s| => ToLowerAscii(s[i]))
  }

  /**
   * StringUtils.containsIgnoreCase(s, search) with ASCII case folding only; a null `s`
   * (None) contains nothing.
   */
  predicate ContainsIgnoreCase(s: Option<string>, search: string)
  {
    s.Some? && Contains(LowerAscii(s.value), LowerAscii(search))
  }
}
