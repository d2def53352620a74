/**
 * Replaying the reference file over the values read from the file to write (loadContent, one
 * call per reference line). The reference gives the structure: every reference line gives one
 * line of `contentList`, where a property line whose key the file to write knows gets that
 * file's value. A key that the file to write holds several times gets its values one by one,
 * first to last, taken from the tail of its deque.
 */
module Reconciliation {
  import opened Wrappers
  import opened JavaStrings
  import opened LineClassifier
  import opened LinkedMaps
  import opened TargetParse

  /** The fields loadContent changes. */
  datatype Replay = Replay(
    contentList: seq<string>,
    referenceContentList: seq<string>,
    duplicatedValues: map<string, seq<string>>)

  /** Deque.pollLast: the tail element (null for an empty deque) and what remains. */
  function PollLast(d: seq<string>): (Option<string>, seq<string>)
  {
    if d == [] then (None, d) else (Some(d[|d| - 1]), d[..|d| - 1])
  }

  /** loadContent(line), with the maps the target file filled. */
  function ReplayLine(
    properties: LinkedMap, duplicatedKeys: map<string, int>, r: Replay, line: string): (r': Replay)
    requires duplicatedKeys.Keys <= r.duplicatedValues.Keys
    ensures r'.duplicatedValues.Keys == r.duplicatedValues.Keys
  {
    if IsProperty(line) && KeyOf(line) in properties.entries then
      var key := KeyOf(line);
      if key in duplicatedKeys then
        var (value, rest) := PollLast(r.duplicatedValues[key]);
        Replay(r.contentList + [key + "=" + Render(value)], r.referenceContentList + [line],
               r.duplicatedValues[key := rest])
      else
        Replay(r.contentList + [key + "=" + properties.entries[key]], r.referenceContentList + [line],
               r.duplicatedValues)
    else
      Replay(r.contentList + [line], r.referenceContentList + [line], r.duplicatedValues)
  }

  /** loadContent called on every reference line, first to last. */
  function ReplayAll(
    properties: LinkedMap, duplicatedKeys: map<string, int>, start: Replay, lines: seq<string>): (r: Replay)
    requires duplicatedKeys.Keys <= start.duplicatedValues.Keys
    ensures r.duplicatedValues.Keys == start.duplicatedValues.Keys
    decreases |lines|
  {
    if lines == [] then start
    else
      ReplayLine(properties, duplicatedKeys,
                 ReplayAll(properties, duplicatedKeys, start, lines[..|lines| - 1]), lines[|lines| - 1])
  }

  /** A deque after `c` calls of pollLast. */
  function Polled(d: seq<string>, c: nat): seq<string>
  {
    if c < |d| then d[..|d| - c] else []
  }

  /**
   * The line that reference line `j` gives, read off the maps the replay started with: the
   * `c`-th line keyed by a duplicated key (counting from 0) gets the `c`-th value from the tail
   * of its deque, or `null` once the deque is empty.
   */
  function Expected(
    properties: LinkedMap, duplicatedKeys: map<string, int>, deques: map<string, seq<string>>,
    lines: seq<string>, j: nat): string
    requires j < |lines| && duplicatedKeys.Keys <= deques.Keys
  {
    var line := lines[j];
    if IsProperty(line) && KeyOf(line) in properties.entries then
      var key := KeyOf(line);
      if key in duplicatedKeys then
        var d, c := deques[key], |Occurrences(lines[..j], key)|;
        key + "=" + (if c < |d| then d[|d| - 1 - c] else "null")
      else key + "=" + properties.entries[key]
    else line
  }

  /**
   * What the replay leaves: one content line per reference line, each as Expected says; the
   * reference lines copied; every deque of a duplicated key polled once per line with its key.
   */
  ghost predicate Replayed(
    properties: LinkedMap, duplicatedKeys: map<string, int>, start: Replay, lines: seq<string>, r: Replay)
    requires duplicatedKeys.Keys <= start.duplicatedValues.Keys
  {
    && r.duplicatedValues.Keys == start.duplicatedValues.Keys
    && |r.contentList| == |start.contentList| + |lines|
    && r.contentList[..|start.contentList|] == start.contentList
    && r.referenceContentList == start.referenceContentList + lines
    && ReplayedLines(properties, duplicatedKeys, start, lines, r)
    && ReplayedDeques(duplicatedKeys, start, lines, r)
  }

  ghost predicate ReplayedLines(
    properties: LinkedMap, duplicatedKeys: map<string, int>, start: Replay, lines: seq<string>, r: Replay)
    requires duplicatedKeys.Keys <= start.duplicatedValues.Keys
    requires |r.contentList| == |start.contentList| + |lines|
  {
    forall j :: 0 <= j < |lines| ==>
      r.contentList[|start.contentList| + j] == Expected(properties, duplicatedKeys, start.duplicatedValues, lines, j)
  }

  ghost predicate ReplayedDeques(duplicatedKeys: map<string, int>, start: Replay, lines: seq<string>, r: Replay)
    requires duplicatedKeys.Keys <= start.duplicatedValues.Keys
    requires r.duplicatedValues.Keys == start.duplicatedValues.Keys
  {
    && (forall key :: key in duplicatedKeys ==>
          r.duplicatedValues[key] == Polled(start.duplicatedValues[key], |Occurrences(lines, key)|))
    && (forall key :: key in start.duplicatedValues && key !in duplicatedKeys ==>
          r.duplicatedValues[key] == start.duplicatedValues[key])
  }

  /** One more reference line: the earlier lines keep what they gave. */
  lemma ExpectedPrefix(
    properties: LinkedMap, duplicatedKeys: map<string, int>, deques: map<string, seq<string>>,
    lines: seq<string>, line: string, j: nat)
    requires j < |lines| && duplicatedKeys.Keys <= deques.Keys
    ensures Expected(properties, duplicatedKeys, deques, lines + [line], j)
         == Expected(properties, duplicatedKeys, deques, lines, j)
  {
    var all := lines + [line];
    assert all[j] == lines[j];
    assert all[..j] == lines[..j];
  }

  /** The deque of a key after one more of its lines. */
  lemma PolledStep(d: seq<string>, c: nat)
    ensures var (value, rest) := PollLast(Polled(d, c));
      && rest == Polled(d, c + 1)
      && Render(value) == if c < |d| then d[|d| - 1 - c] else "null"
  {
  }

  /** The content line the newest reference line gives. */
  lemma ReplayLineLast(
    properties: LinkedMap, duplicatedKeys: map<string, int>, dv: map<string, seq<string>>,
    lines: seq<string>, r: Replay, line: string)
    requires duplicatedKeys.Keys <= dv.Keys && duplicatedKeys.Keys <= r.duplicatedValues.Keys
    requires forall key :: key in duplicatedKeys ==>
      r.duplicatedValues[key] == Polled(dv[key], |Occurrences(lines, key)|)
    ensures var r' := ReplayLine(properties, duplicatedKeys, r, line);
      r'.contentList == r.contentList + [Expected(properties, duplicatedKeys, dv, lines + [line], |lines|)]
  {
    var all := lines + [line];
    assert all[..|lines|] == lines;
    assert all[|lines|] == line;
    if IsProperty(line) && KeyOf(line) in properties.entries && KeyOf(line) in duplicatedKeys {
      PolledStep(dv[KeyOf(line)], |Occurrences(lines, KeyOf(line))|);
    }
  }

  lemma ReplayLineLines(
    properties: LinkedMap, duplicatedKeys: map<string, int>, start: Replay, lines: seq<string>,
    r: Replay, line: string)
    requires duplicatedKeys.Keys <= start.duplicatedValues.Keys
    requires Replayed(properties, duplicatedKeys, start, lines, r)
    ensures var r' := ReplayLine(properties, duplicatedKeys, r, line);
      |r'.contentList| == |start.contentList| + |lines| + 1
      && ReplayedLines(properties, duplicatedKeys, start, lines + [line], r')
  {
    var all := lines + [line];
    var n, m := |lines|, |start.contentList|;
    var dv := start.duplicatedValues;
    ReplayLineLast(properties, duplicatedKeys, dv, lines, r, line);
    var r' := ReplayLine(properties, duplicatedKeys, r, line);
    forall j | 0 <= j < |all|
      ensures r'.contentList[m + j] == Expected(properties, duplicatedKeys, dv, all, j)
    {
      if j < n {
        assert r'.contentList[m + j] == r.contentList[m + j];
        ExpectedPrefix(properties, duplicatedKeys, dv, lines, line, j);
      }
    }
  }

  lemma ReplayLineDeques(
    properties: LinkedMap, duplicatedKeys: map<string, int>, start: Replay, lines: seq<string>,
    r: Replay, line: string)
    requires duplicatedKeys.Keys <= properties.entries.Keys
    requires duplicatedKeys.Keys <= start.duplicatedValues.Keys
    requires Replayed(properties, duplicatedKeys, start, lines, r)
    ensures var r' := ReplayLine(properties, duplicatedKeys, r, line);
      r'.duplicatedValues.Keys == start.duplicatedValues.Keys
      && ReplayedDeques(duplicatedKeys, start, lines + [line], r')
  {
    var r' := ReplayLine(properties, duplicatedKeys, r, line);
    var dv := start.duplicatedValues;
    forall key | key in duplicatedKeys
      ensures r'.duplicatedValues[key] == Polled(dv[key], |Occurrences(lines + [line], key)|)
    {
      OccurrencesSnoc(lines, line, key);
      PolledStep(dv[key], |Occurrences(lines, key)|);
    }
  }

  lemma ReplayLineSpec(
    properties: LinkedMap, duplicatedKeys: map<string, int>, start: Replay, lines: seq<string>,
    r: Replay, line: string)
    requires duplicatedKeys.Keys <= properties.entries.Keys
    requires duplicatedKeys.Keys <= start.duplicatedValues.Keys
    requires Replayed(properties, duplicatedKeys, start, lines, r)
    ensures Replayed(properties, duplicatedKeys, start, lines + [line],
                     ReplayLine(properties, duplicatedKeys, r, line))
  {
    var r' := ReplayLine(properties, duplicatedKeys, r, line);
    var m := |start.contentList|;
    ReplayLineLines(properties, duplicatedKeys, start, lines, r, line);
    ReplayLineDeques(properties, duplicatedKeys, start, lines, r, line);
    assert r'.contentList[..m] == r.contentList[..m];
  }

  /** What replaying a list of reference lines leaves, line by line. */
  lemma {:induction false} ReplayAllSpec(
    properties: LinkedMap, duplicatedKeys: map<string, int>, start: Replay, lines: seq<string>)
    requires duplicatedKeys.Keys <= properties.entries.Keys
    requires duplicatedKeys.Keys <= start.duplicatedValues.Keys
    ensures Replayed(properties, duplicatedKeys, start, lines, ReplayAll(properties, duplicatedKeys, start, lines))
    decreases |lines|
  {
    if lines == [] {
      assert forall key :: Occurrences(lines, key) == [];
    } else {
      var n := |lines| - 1;
      var prefix := lines[..n];
      ReplayAllSpec(properties, duplicatedKeys, start, prefix);
      var r := ReplayAll(properties, duplicatedKeys, start, prefix);
      assert prefix + [lines[n]] == lines;
      ReplayLineSpec(properties, duplicatedKeys, start, prefix, r, lines[n]);
    }
  }

  /**
   * The line that reference line `j` gives, in terms of the file to write: a line that is not a
   * property line, or whose key the file to write lacks, is copied; a key that file holds once
   * gets its value; a key it holds several times gives its `c`-th line (counting from 0 among
   * the reference lines with that key) the value of its `c`-th line there, and `null` once those
   * run out.
   */
  function Reconciled(target: seq<string>, reference: seq<string>, j: nat): string
    requires j < |reference|
  {
    var line := reference[j];
    if !IsProperty(line) then line
    else
      var key := KeyOf(line);
      var occ := Occurrences(target, key);
      if |occ| == 0 then line
      else if |occ| == 1 then key + "=" + occ[0]
      else
        var c := |Occurrences(reference[..j], key)|;
        key + "=" + (if c < |occ| then occ[c] else "null")
  }

  /** The maps that loading the file to write leaves: duplicated keys are known keys. */
  lemma LoadedKeys(target: seq<string>)
    requires AllHaveKey(target)
    ensures var t := LoadAll(target);
      t.duplicatedKeys.Keys <= t.properties.entries.Keys && t.duplicatedKeys.Keys == t.duplicatedValues.Keys
  {
    var t := LoadAll(target);
    forall key | key in t.duplicatedKeys || key in t.duplicatedValues
      ensures key in t.properties.entries && key in t.duplicatedKeys && key in t.duplicatedValues
    {
      LoadAllSpec(target, key);
    }
  }

  /**
   * Loading the file to write and then replaying the reference (initialize): the reference is
   * kept as it is, and every reference line gives exactly one line of the content, the one
   * Reconciled describes.
   */
  lemma LoadThenReplay(target: seq<string>, reference: seq<string>)
    requires AllHaveKey(target)
    ensures var t := LoadAll(target);
      t.duplicatedKeys.Keys <= t.duplicatedValues.Keys
      && var r := ReplayAll(t.properties, t.duplicatedKeys, Replay([], [], t.duplicatedValues), reference);
      && r.referenceContentList == reference
      && |r.contentList| == |reference|
      && forall j :: 0 <= j < |reference| ==> r.contentList[j] == Reconciled(target, reference, j)
  {
    var t := LoadAll(target);
    LoadedKeys(target);
    var start := Replay([], [], t.duplicatedValues);
    ReplayAllSpec(t.properties, t.duplicatedKeys, start, reference);
    var r := ReplayAll(t.properties, t.duplicatedKeys, start, reference);
    forall j | 0 <= j < |reference|
      ensures r.contentList[j] == Reconciled(target, reference, j)
    {
      assert r.contentList[j] == Expected(t.properties, t.duplicatedKeys, t.duplicatedValues, reference, j);
      ExpectedReconciled(target, reference, j);
    }
  }

  lemma ReverseAt(s: seq<string>, c: nat)
    requires c < |s|
    ensures Reverse(s)[|s| - 1 - c] == s[c]
  {
    var i := |s| - 1 - c;
    assert Reverse(s)[i] == s[|s| - 1 - i];
  }

  /** Expected on a property line, for maps that track the values `occ` of its key. */
  lemma ExpectedTracked(t: Target, reference: seq<string>, j: nat, occ: seq<string>)
    requires j < |reference| && IsProperty(reference[j])
    requires t.duplicatedKeys.Keys <= t.duplicatedValues.Keys
    requires Tracks(t, KeyOf(reference[j]), occ)
    ensures var key, c := KeyOf(reference[j]), |Occurrences(reference[..j], KeyOf(reference[j]))|;
      Expected(t.properties, t.duplicatedKeys, t.duplicatedValues, reference, j) ==
        if |occ| == 0 then reference[j]
        else if |occ| == 1 then key + "=" + occ[0]
        else key + "=" + (if c < |occ| then occ[c] else "null")
  {
    var key := KeyOf(reference[j]);
    if |occ| >= 2 {
      var d, c := t.duplicatedValues[key], |Occurrences(reference[..j], key)|;
      assert d == Reverse(occ);
      if c < |d| {
        ReverseAt(occ, c);
      }
    }
  }

  /** Expected, read off the maps loading the file to write leaves, is Reconciled. */
  lemma ExpectedReconciled(target: seq<string>, reference: seq<string>, j: nat)
    requires AllHaveKey(target) && j < |reference|
    requires LoadAll(target).duplicatedKeys.Keys <= LoadAll(target).duplicatedValues.Keys
    ensures var t := LoadAll(target);
      Expected(t.properties, t.duplicatedKeys, t.duplicatedValues, reference, j) == Reconciled(target, reference, j)
  {
    var line := reference[j];
    if IsProperty(line) {
      var key := KeyOf(line);
      LoadAllSpec(target, key);
      ExpectedTracked(LoadAll(target), reference, j, Occurrences(target, key));
    }
  }

  /** One more line after two files: both gain the same values. */
  lemma OccurrencesSnocBoth(x: seq<string>, y: seq<string>, line: string, k: string) returns (e: seq<string>)
    ensures Occurrences(x + [line], k) == Occurrences(x, k) + e
    ensures Occurrences(y + [line], k) == Occurrences(y, k) + e
  {
    e := if IsProperty(line) && KeyOf(line) == k then [ValueOf(line)] else [];
    OccurrencesSnoc(x, line, k);
    OccurrencesSnoc(y, line, k);
  }

  /** One more line after `a + init` and after `init`: both gain the same values. */
  lemma OccurrencesAppendStep(a: seq<string>, init: seq<string>, last: string, k: string)
    requires Occurrences(a + init, k) == Occurrences(a, k) + Occurrences(init, k)
    ensures Occurrences(a + (init + [last]), k) == Occurrences(a, k) + Occurrences(init + [last], k)
  {
    AppendAssoc(a, init, [last]);
    var e := OccurrencesSnocBoth(a + init, init, last, k);
    AppendAssoc(Occurrences(a, k), Occurrences(init, k), e);
  }

  /** The values of the property lines keyed `k` in two pieces of a file. */
  lemma {:induction false} OccurrencesAppend(a: seq<string>, b: seq<string>, k: string)
    ensures Occurrences(a + b, k) == Occurrences(a, k) + Occurrences(b, k)
    decreases |b|
  {
    if b == [] {
      assert a + b == a;
    } else {
      var n := |b| - 1;
      InitLast(b);
      OccurrencesAppend(a, b[..n], k);
      OccurrencesAppendStep(a, b[..n], b[n], k);
    }
  }

  /**
   * A file replayed against itself: every property line becomes `key=value` with its own value,
   * duplicated keys included.
   */
  lemma ReconcileSelf(lines: seq<string>, j: nat)
    requires j < |lines| && IsProperty(lines[j])
    ensures Reconciled(lines, lines, j) == KeyOf(lines[j]) + "=" + ValueOf(lines[j])
  {
    var key := KeyOf(lines[j]);
    var before, after := lines[..j], lines[j + 1..];
    assert lines == before + [lines[j]] + after;
    OccurrencesAppend(before + [lines[j]], after, key);
    OccurrencesAppend(before, [lines[j]], key);
    assert Occurrences([lines[j]], key) == [ValueOf(lines[j])] by {
      assert [lines[j]][..0] == [];
    }
  }
}
