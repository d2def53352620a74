/**
 * Writing the content back (writeContentAsString): every line that is not a property line, and
 * every property line whose key is still in the map, is written escaped on a line of its own.
 */
module Writer {
  import opened Wrappers
  import opened JavaStrings
  import opened LineClassifier
  import opened LinkedMaps
  import opened Selection
  import opened Codec
  import opened TargetParse

  /** Whether a line is written: comments always, property lines only when their key is in the map. */
  predicate Written(line: string, m: LinkedMap)
  {
    !IsProperty(line) || KeyOf(line) in m.entries
  }

  function WriteFrom(content: seq<string>, m: LinkedMap, i: nat): string
    requires i <= |content|
    decreases |content| - i
  {
    if i == |content| then []
    else
      var line := content[i];
      (if Written(line, m) then Escaped(line) + "\n" else []) + WriteFrom(content, m, i + 1)
  }

  /** What line `line` adds to the output. */
  function WrittenPiece(line: string, m: LinkedMap): string
  {
    if Written(line, m) then Escaped(line) + "\n" else []
  }

  /** `WrittenPiece` for the map `m`, as a function of the line. */
  function WrittenPieces(m: LinkedMap): string -> string
  {
    (line: string) => WrittenPiece(line, m)
  }

  /** The output of the first `i` lines, each giving `piece` of itself, as the loop builds it. */
  function PrefixBy(content: seq<string>, piece: string -> string, i: nat): string
    requires i <= |content|
  {
    if i == 0 then [] else PrefixBy(content, piece, i - 1) + piece(content[i - 1])
  }

  /** writeContentAsString. */
  function WriteContent(content: seq<string>, m: LinkedMap): string
  {
    WriteFrom(content, m, 0)
  }

  /**
   * The body of the loop of writeContentAsString: the escaped line and a line feed for a comment
   * line or a property line whose key is in the map (the condition of its two nested tests is
   * `Written`), nothing for any other line.
   */
  method WriteLine(line: string, m: LinkedMap) returns (piece: string)
    ensures piece == WrittenPiece(line, m)
  {
    if Written(line, m) {
      var e := EscapeUnicode(line);
      piece := e + "\n";
    } else {
      piece := [];
    }
  }

  /** The loop of writeContentAsString: a string builder that takes the piece of every line in turn. */
  method WriteLines(content: seq<string>, m: LinkedMap) returns (s: string)
    ensures s == WriteContent(content, m)
  {
    s := [];
    for i := 0 to |content|
      invariant s == PrefixBy(content, WrittenPieces(m), i)
    {
      var piece := WriteLine(content[i], m);
      s := s + piece;
    }
    WritePrefixFrom(content, m, |content|);
  }

  /** The output of the first `i` lines followed by the output of the others is the whole output. */
  lemma {:induction false} WritePrefixFrom(content: seq<string>, m: LinkedMap, i: nat)
    requires i <= |content|
    ensures PrefixBy(content, WrittenPieces(m), i) + WriteFrom(content, m, i) == WriteContent(content, m)
    decreases i
  {
    if i > 0 {
      WritePrefixFrom(content, m, i - 1);
      var before, piece, after :=
        PrefixBy(content, WrittenPieces(m), i - 1), WrittenPiece(content[i - 1], m), WriteFrom(content, m, i);
      assert PrefixBy(content, WrittenPieces(m), i) == before + piece;
      assert WriteFrom(content, m, i - 1) == piece + after;
      AppendAssoc(before, piece, after);
    }
  }

  function WrittenFilter(content: seq<string>, m: LinkedMap): nat -> bool
  {
    (j: nat) => j < |content| && Written(content[j], m)
  }

  function EscapedLines(content: seq<string>): nat -> string
  {
    (j: nat) => if j < |content| then Escaped(content[j]) else ""
  }

  /** A line without line feed, then a line feed: it is the first piece. */
  lemma PiecesLine(e: string, rest: string)
    requires '\n' !in e
    ensures Pieces(e + "\n" + rest, '\n') == [e] + Pieces(rest, '\n')
  {
    var s := e + "\n" + rest;
    assert s[|e|] == '\n';
    assert s[..|e|] == e;
    IndexOfAt(s, '\n', |e|);
    assert s[|e| + 1..] == rest;
  }

  lemma {:induction false} WriteFromAscii(content: seq<string>, m: LinkedMap, i: nat)
    requires i <= |content|
    ensures forall c :: c in WriteFrom(content, m, i) ==> c as int < 128 && c != '\r'
    decreases |content| - i
  {
    if i < |content| {
      WriteFromAscii(content, m, i + 1);
      var e := Escaped(content[i]);
      EscapedIsPlain(content[i]);
      assert forall k :: 0 <= k < |e| ==> PlainChar(e[k]);
    }
  }

  /** Terminated read from the front: the first line, a line feed, then the others. */
  lemma {:induction false} TerminatedCons(e: string, tail: seq<string>)
    ensures Terminated([e] + tail) == e + "\n" + Terminated(tail)
    decreases |tail|
  {
    var whole := [e] + tail;
    if tail == [] {
      assert whole[..0] == [];
    } else {
      var n := |tail| - 1;
      var init, last := tail[..n], tail[n];
      TerminatedCons(e, init);
      assert whole[..n + 1] == [e] + init;
      assert whole[n + 1] == last;
      assert Terminated(whole) == Terminated([e] + init) + last + "\n";
      assert Terminated(tail) == Terminated(init) + last + "\n";
    }
  }

  /** One line without line feed in front of lines that cut back into themselves. */
  lemma PiecesTerminatedCons(e: string, tail: seq<string>)
    requires '\n' !in e && Pieces(Terminated(tail), '\n') == tail + [""]
    ensures Pieces(Terminated([e] + tail), '\n') == [e] + tail + [""]
  {
    var t := Terminated(tail);
    TerminatedCons(e, tail);
    PiecesLine(e, t);
    assert Pieces(e + "\n" + t, '\n') == [e] + (tail + [""]);
  }

  /** Lines without line feeds, each followed by one, are cut back into those lines and an empty rest. */
  lemma {:induction false} PiecesTerminated(ls: seq<string>)
    requires forall k :: 0 <= k < |ls| ==> '\n' !in ls[k]
    ensures Pieces(Terminated(ls), '\n') == ls + [""]
    decreases |ls|
  {
    if ls == [] {
      assert IndexOf([], '\n') == -1;
    } else {
      var e, tail := ls[0], ls[1..];
      PiecesTerminated(tail);
      PiecesTerminatedCons(e, tail);
      assert [e] + tail == ls;
    }
  }

  /** The output is the written lines, escaped, each followed by a line feed. */
  lemma {:induction false} WriteFromTerminated(content: seq<string>, m: LinkedMap, i: nat)
    requires i <= |content|
    ensures WriteFrom(content, m, i) == Terminated(Collect(i, |content|, WrittenFilter(content, m), EscapedLines(content)))
    decreases |content| - i
  {
    var p, f := WrittenFilter(content, m), EscapedLines(content);
    if i == |content| {
      assert Collect(i, |content|, p, f) == [];
      assert WriteFrom(content, m, i) == [];
    } else {
      WriteFromTerminated(content, m, i + 1);
      var tail := Collect(i + 1, |content|, p, f);
      var rest := WriteFrom(content, m, i + 1);
      assert rest == Terminated(tail);
      if Written(content[i], m) {
        var e := Escaped(content[i]);
        assert p(i) && f(i) == e;
        assert Collect(i, |content|, p, f) == [e] + tail;
        assert WriteFrom(content, m, i) == e + "\n" + rest;
        TerminatedCons(e, tail);
      } else {
        assert !p(i);
        assert Collect(i, |content|, p, f) == tail;
        assert WriteFrom(content, m, i) == [] + rest;
      }
    }
  }

  /** Cut at its line feeds, the output gives back the escaped written lines and an empty rest. */
  lemma WriteContentPieces(content: seq<string>, m: LinkedMap)
    ensures Pieces(WriteContent(content, m), '\n')
         == Collect(0, |content|, WrittenFilter(content, m), EscapedLines(content)) + [""]
  {
    var p, f := WrittenFilter(content, m), EscapedLines(content);
    WriteFromTerminated(content, m, 0);
    CollectSpec(0, |content|, p, f);
    var lines := Collect(0, |content|, p, f);
    forall k | 0 <= k < |lines|
      ensures '\n' !in lines[k]
    {
      var e := lines[k];
      EscapedIsPlain(content[Select(0, |content|, p)[k]]);
      assert forall q :: 0 <= q < |e| ==> PlainChar(e[q]);
    }
    PiecesTerminated(lines);
  }

  /**
   * writeContentAsString: the output is ASCII without carriage returns; cut at its line feeds it
   * gives, in order, the escaped text of every written line, and nothing after the last line feed.
   * A written line free of backslashes decodes back from its output line.
   */
  lemma WriteContentSpec(content: seq<string>, m: LinkedMap)
    ensures forall c :: c in WriteContent(content, m) ==> c as int < 128 && c != '\r'
    ensures var out, sel := Pieces(WriteContent(content, m), '\n'), Select(0, |content|, WrittenFilter(content, m));
      && |out| == |sel| + 1
      && out[|sel|] == []
      && forall n :: 0 <= n < |sel| ==>
           && Written(content[sel[n]], m)
           && out[n] == Escaped(content[sel[n]])
           && ('\\' !in content[sel[n]] ==> UnescapeUnicode(out[n]) == Some(content[sel[n]]))
  {
    WriteFromAscii(content, m, 0);
    WriteContentPieces(content, m);
    var p, f := WrittenFilter(content, m), EscapedLines(content);
    CollectSpec(0, |content|, p, f);
    var out, sel := Pieces(WriteContent(content, m), '\n'), Select(0, |content|, p);
    forall n | 0 <= n < |sel| && '\\' !in content[sel[n]]
      ensures UnescapeUnicode(out[n]) == Some(content[sel[n]])
    {
      UnescapeEscape(content[sel[n]]);
    }
  }
}
