/**
 * Reading the file to write (loadProperties, one call per line): every line is kept for
 * versioning in `oldContent`; every property line is put in `properties`, and a key met again
 * is counted in `duplicatedKeys` while all its values are stacked in `duplicatedValues`
 * (a deque, most recent value at the head).
 */
module TargetParse {
  import opened LineClassifier
  import opened LinkedMaps

  /** The fields that loadProperties fills. A deque is a sequence whose head is element 0. */
  datatype Target = Target(
    properties: LinkedMap,
    duplicatedKeys: map<string, int>,
    duplicatedValues: map<string, seq<string>>,
    oldContent: string)

  /** The fields as initialize leaves them before the file is read. */
  function Start(): (t: Target)
    ensures t.properties.Valid()
  {
    Target(Empty(), map[], map[], [])
  }

  /**
   * loadProperties(line). The key is taken before the line is classified, so a line made
   * only of `=` cannot be read.
   */
  function LoadLine(t: Target, line: string): (r: Target)
    requires t.properties.Valid() && HasKey(line)
    ensures r.properties.Valid()
  {
    var kept := t.(oldContent := t.oldContent + line + "\n");
    if IsProperty(line) then Record(kept, KeyOf(line), ValueOf(line)) else kept
  }

  /**
   * A property line keyed `key` with value `value` goes into the map; a key already there is
   * counted (a first repeat counts 2) and its value pushed on its deque, which starts with the
   * value the map held.
   */
  function Record(t: Target, key: string, value: string): (r: Target)
    requires t.properties.Valid()
    ensures r.properties.Valid()
  {
    if key in t.properties.entries then
      var count := if key in t.duplicatedKeys then t.duplicatedKeys[key] else 1;
      var deque :=
        if key in t.duplicatedValues then [value] + t.duplicatedValues[key]
        else [value, t.properties.entries[key]];
      Target(t.properties.Put(key, value), t.duplicatedKeys[key := count + 1],
             t.duplicatedValues[key := deque], t.oldContent)
    else
      Target(t.properties.Put(key, value), t.duplicatedKeys, t.duplicatedValues, t.oldContent)
  }

  /** Recording `key` adds `value` to what the fields say about `key`. */
  lemma RecordSameKey(t: Target, key: string, value: string, occ: seq<string>)
    requires t.properties.Valid() && Tracks(t, key, occ)
    ensures Tracks(Record(t, key, value), key, occ + [value])
  {
    var r := Record(t, key, value);
    assert Reverse(occ + [value]) == [value] + Reverse(occ) by {
      assert (occ + [value])[..|occ|] == occ;
    }
    if |occ| == 1 {
      assert Reverse(occ) == [occ[0]];
      assert r.duplicatedValues[key] == [value, occ[0]];
    }
  }

  /** Recording another key leaves what the fields say about `k` as it was. */
  lemma RecordOtherKey(t: Target, key: string, value: string, k: string, occ: seq<string>)
    requires t.properties.Valid() && Tracks(t, k, occ) && key != k
    ensures Tracks(Record(t, key, value), k, occ)
  {
    var r := Record(t, key, value);
    assert (k in r.duplicatedKeys <==> k in t.duplicatedKeys) && (k in r.duplicatedKeys ==> r.duplicatedKeys[k] == t.duplicatedKeys[k]);
    assert (k in r.duplicatedValues <==> k in t.duplicatedValues) && (k in r.duplicatedValues ==> r.duplicatedValues[k] == t.duplicatedValues[k]);
  }

  /** The fields after loadProperties has been called on every line, first to last. */
  function LoadAll(lines: seq<string>): (t: Target)
    requires AllHaveKey(lines)
    ensures t.properties.Valid()
    decreases |lines|
  {
    if lines == [] then Start()
    else LoadLine(LoadAll(lines[..|lines| - 1]), lines[|lines| - 1])
  }

  /** The values of the property lines keyed `k`, in file order. */
  function Occurrences(lines: seq<string>, k: string): seq<string>
    decreases |lines|
  {
    if lines == [] then []
    else
      var last := lines[|lines| - 1];
      Occurrences(lines[..|lines| - 1], k)
        + (if IsProperty(last) && KeyOf(last) == k then [ValueOf(last)] else [])
  }

  /** The values of the property lines keyed `k` once `line` is added after `lines`. */
  lemma OccurrencesSnoc(lines: seq<string>, line: string, k: string)
    ensures Occurrences(lines + [line], k)
         == Occurrences(lines, k) + (if IsProperty(line) && KeyOf(line) == k then [ValueOf(line)] else [])
  {
    assert (lines + [line])[..|lines|] == lines;
  }

  /** A sequence read from the other end. */
  function Reverse(s: seq<string>): (r: seq<string>)
    ensures |r| == |s|
    ensures forall i :: 0 <= i < |s| ==> r[i] == s[|s| - 1 - i]
    decreases |s|
  {
    if s == [] then [] else [s[|s| - 1]] + Reverse(s[..|s| - 1])
  }

  /** Every line followed by a line feed. */
  function Terminated(lines: seq<string>): string
    decreases |lines|
  {
    if lines == [] then [] else Terminated(lines[..|lines| - 1]) + lines[|lines| - 1] + "\n"
  }

  /** The position of the first property line keyed `k`, or the number of lines when there is none. */
  function FirstLine(lines: seq<string>, k: string): (i: nat)
    ensures i <= |lines|
    ensures i < |lines| ==> IsProperty(lines[i]) && KeyOf(lines[i]) == k
    ensures forall j :: 0 <= j < i && IsProperty(lines[j]) ==> KeyOf(lines[j]) != k
    decreases |lines|
  {
    if lines == [] then 0
    else
      var n := |lines| - 1;
      var f := FirstLine(lines[..n], k);
      assert forall j :: 0 <= j < f ==> lines[j] == lines[..n][j];
      if f < n then f
      else if IsProperty(lines[n]) && KeyOf(lines[n]) == k then n
      else n + 1
  }

  /**
   * What the fields say about one key `k` whose property lines so far had the values `occ`:
   * it is in `properties` exactly when it has a property line, with the value of its last
   * one; it is in the duplicate maps exactly when it has two or more, counted in
   * `duplicatedKeys` and all stacked in `duplicatedValues`, the last one at the head and the
   * first one at the tail.
   */
  predicate Tracks(t: Target, k: string, occ: seq<string>)
  {
    && (k in t.properties.entries <==> |occ| >= 1)
    && (k in t.properties.entries ==> t.properties.entries[k] == occ[|occ| - 1])
    && (k in t.duplicatedKeys <==> |occ| >= 2)
    && (k in t.duplicatedKeys ==> t.duplicatedKeys[k] == |occ|)
    && (k in t.duplicatedValues <==> |occ| >= 2)
    && (k in t.duplicatedValues ==> t.duplicatedValues[k] == Reverse(occ))
  }

  /** A line keyed `k` adds its value to what the fields say about `k`. */
  lemma LoadLineSameKey(t: Target, line: string, k: string, occ: seq<string>)
    requires t.properties.Valid() && HasKey(line) && Tracks(t, k, occ)
    requires IsProperty(line) && KeyOf(line) == k
    ensures Tracks(LoadLine(t, line), k, occ + [ValueOf(line)])
  {
    var kept := t.(oldContent := t.oldContent + line + "\n");
    assert Tracks(kept, k, occ);
    RecordSameKey(kept, k, ValueOf(line), occ);
  }

  /** Any other line leaves what the fields say about `k` as it was. */
  lemma LoadLineOtherKey(t: Target, line: string, k: string, occ: seq<string>)
    requires t.properties.Valid() && HasKey(line) && Tracks(t, k, occ)
    requires !(IsProperty(line) && KeyOf(line) == k)
    ensures Tracks(LoadLine(t, line), k, occ)
  {
    var kept := t.(oldContent := t.oldContent + line + "\n");
    assert Tracks(kept, k, occ);
    if IsProperty(line) {
      RecordOtherKey(kept, KeyOf(line), ValueOf(line), k, occ);
    }
  }

  /** What loading a file leaves for each key, in terms of the values of its property lines. */
  lemma {:induction false} LoadAllSpec(lines: seq<string>, k: string)
    requires AllHaveKey(lines)
    ensures Tracks(LoadAll(lines), k, Occurrences(lines, k))
    decreases |lines|
  {
    if lines != [] {
      var n := |lines| - 1;
      var prefix, last := lines[..n], lines[n];
      LoadAllSpec(prefix, k);
      var t, occ := LoadAll(prefix), Occurrences(prefix, k);
      assert LoadAll(lines) == LoadLine(t, last);
      if IsProperty(last) && KeyOf(last) == k {
        assert Occurrences(lines, k) == occ + [ValueOf(last)];
        LoadLineSameKey(t, last, k, occ);
      } else {
        assert Occurrences(lines, k) == occ;
        LoadLineOtherKey(t, last, k, occ);
      }
    }
  }

  /** Every line read, whatever its kind, is kept in `oldContent` with a line feed after it. */
  lemma {:induction false} LoadAllOldContent(lines: seq<string>)
    requires AllHaveKey(lines)
    ensures LoadAll(lines).oldContent == Terminated(lines)
    decreases |lines|
  {
    if lines != [] {
      LoadAllOldContent(lines[..|lines| - 1]);
    }
  }

  /**
   * The map holds the keys that have a property line among `lines`, in the order of their
   * first property line.
   */
  ghost predicate InFirstLineOrder(m: LinkedMap, lines: seq<string>)
  {
    && (forall k :: k in m.entries <==> FirstLine(lines, k) < |lines|)
    && (forall i, j :: 0 <= i < j < |m.keys| ==> FirstLine(lines, m.keys[i]) < FirstLine(lines, m.keys[j]))
  }

  /** The first property line keyed `k` once `line` is added after `lines`. */
  lemma FirstLineAppend(lines: seq<string>, line: string, k: string)
    ensures var f := FirstLine(lines, k);
      FirstLine(lines + [line], k) ==
        if f < |lines| then f
        else if IsProperty(line) && KeyOf(line) == k then |lines|
        else |lines| + 1
  {
    assert (lines + [line])[..|lines|] == lines;
  }

  /** Reading one more line keeps the keys in the order of their first property line. */
  lemma LoadLineOrder(t: Target, lines: seq<string>, line: string)
    requires t.properties.Valid() && HasKey(line) && InFirstLineOrder(t.properties, lines)
    ensures InFirstLineOrder(LoadLine(t, line).properties, lines + [line])
  {
    var p, r := t.properties, LoadLine(t, line).properties;
    if IsProperty(line) {
      assert r == p.Put(KeyOf(line), ValueOf(line));
      PutMembers(p, lines, line, ValueOf(line));
      PutKeys(p, lines, line, ValueOf(line));
    } else {
      assert r == p;
      forall k
        ensures k in p.entries <==> FirstLine(lines + [line], k) < |lines| + 1
      {
        FirstLineAppend(lines, line, k);
      }
      forall i, j | 0 <= i < j < |p.keys|
        ensures FirstLine(lines + [line], p.keys[i]) < FirstLine(lines + [line], p.keys[j])
      {
        FirstLineAppend(lines, line, p.keys[i]);
        FirstLineAppend(lines, line, p.keys[j]);
      }
    }
  }

  /** Putting the key of a property line adds exactly the keys whose first property line is among lines + [line]. */
  lemma PutMembers(p: LinkedMap, lines: seq<string>, line: string, v: string)
    requires p.Valid() && IsProperty(line) && InFirstLineOrder(p, lines)
    ensures var r := p.Put(KeyOf(line), v);
      forall k :: k in r.entries <==> FirstLine(lines + [line], k) < |lines| + 1
  {
    var r := p.Put(KeyOf(line), v);
    forall k
      ensures k in r.entries <==> FirstLine(lines + [line], k) < |lines| + 1
    {
      FirstLineAppend(lines, line, k);
    }
  }

  /** Putting the key of a property line keeps the keys in the order of their first property line. */
  lemma PutKeys(p: LinkedMap, lines: seq<string>, line: string, v: string)
    requires p.Valid() && IsProperty(line) && InFirstLineOrder(p, lines)
    ensures var r := p.Put(KeyOf(line), v);
      forall i, j :: 0 <= i < j < |r.keys| ==> FirstLine(lines + [line], r.keys[i]) < FirstLine(lines + [line], r.keys[j])
  {
    var all := lines + [line];
    var n := |lines|;
    var k := KeyOf(line);
    var r := p.Put(k, v);
    forall i | 0 <= i < |p.keys|
      ensures FirstLine(all, r.keys[i]) == FirstLine(lines, p.keys[i]) < n
    {
      assert r.keys[i] == p.keys[i] && p.keys[i] in p.entries;
      FirstLineAppend(lines, line, p.keys[i]);
    }
    FirstLineAppend(lines, line, k);
    forall i, j | 0 <= i < j < |r.keys|
      ensures FirstLine(all, r.keys[i]) < FirstLine(all, r.keys[j])
    {
      if j == |p.keys| {
        assert r.keys[j] == k && FirstLine(all, k) == n;
      } else {
        assert FirstLine(lines, p.keys[i]) < FirstLine(lines, p.keys[j]);
      }
    }
  }

  /**
   * The keys of `properties` are the keys that have a property line, in the order of their
   * first property line: writing a key again keeps the place it was first given.
   */
  lemma {:induction false} LoadAllOrder(lines: seq<string>)
    requires AllHaveKey(lines)
    ensures InFirstLineOrder(LoadAll(lines).properties, lines)
    decreases |lines|
  {
    if lines != [] {
      var n := |lines| - 1;
      var prefix, last := lines[..n], lines[n];
      LoadAllOrder(prefix);
      var t := LoadAll(prefix);
      assert LoadAll(lines) == LoadLine(t, last);
      assert prefix + [last] == lines;
      LoadLineOrder(t, prefix, last);
    }
  }
}
