/**
 * Editing the content (insertOrUpdate and the private helpers it calls): a key that already has
 * a line gets its LAST line rewritten; a new key gets a line inserted right after the last line
 * of the anchor key, or at the top of the file when the anchor has no line. Lines are matched by
 * the key `split("=")` gives them, comments included.
 */
module Editor {
  import opened JavaStrings
  import opened LineClassifier
  import opened LinkedMaps
  import opened TargetParse

  /** List.add(index, line): `line` goes to position `at`, the lines from there on move down one. */
  function InsertAt(content: seq<string>, at: nat, line: string): (r: seq<string>)
    requires at <= |content|
    ensures |r| == |content| + 1 && r[at] == line
    ensures forall j :: 0 <= j < at ==> r[j] == content[j]
    ensures forall j :: at < j < |r| ==> r[j] == content[j - 1]
  {
    content[..at] + [line] + content[at..]
  }

  /**
   * The content after insertOrUpdate(referenceKey, key, value) with a non-empty value
   * (modifyByKey on the last line keyed `key`, or insertContentByLineNumber after the anchor).
   */
  function InsertOrUpdateContent(content: seq<string>, referenceKey: string, key: string, value: string): seq<string>
    requires AllHaveKey(content)
  {
    var index := LastKeyed(content, key);
    if index != -1 then content[index := FormContent(key, value)]
    else InsertAt(content, LastKeyed(content, referenceKey) + 1, FormContent(key, value))
  }

  /**
   * A key that has a line: its last line, and only that one, becomes `key=value`; the number of
   * lines does not change.
   */
  lemma UpdateExisting(content: seq<string>, referenceKey: string, key: string, value: string, i: nat)
    requires AllHaveKey(content) && i < |content| && KeyOf(content[i]) == key
    requires forall j :: i < j < |content| ==> KeyOf(content[j]) != key
    ensures var r := InsertOrUpdateContent(content, referenceKey, key, value);
      && |r| == |content|
      && r[i] == FormContent(key, value)
      && forall j :: 0 <= j < |content| && j != i ==> r[j] == content[j]
  {
    LastKeyedAt(content, key, i);
  }

  /**
   * A key without a line gets `key=value` right after the last line keyed `referenceKey`, or at
   * the top when there is none; the other lines keep their order.
   */
  lemma InsertNew(content: seq<string>, referenceKey: string, key: string, value: string)
    requires AllHaveKey(content)
    requires forall j :: 0 <= j < |content| ==> KeyOf(content[j]) != key
    ensures var r := InsertOrUpdateContent(content, referenceKey, key, value);
      exists at: nat :: at <= |content|
        && (at == 0 || (KeyOf(content[at - 1]) == referenceKey
                        && forall j :: at <= j < |content| ==> KeyOf(content[j]) != referenceKey))
        && (at == 0 ==> forall j :: 0 <= j < |content| ==> KeyOf(content[j]) != referenceKey)
        && r == content[..at] + [FormContent(key, value)] + content[at..]
  {
    var at := LastKeyed(content, referenceKey) + 1;
    var r := InsertOrUpdateContent(content, referenceKey, key, value);
    assert r == content[..at] + [FormContent(key, value)] + content[at..];
    assert at == 0 || (KeyOf(content[at - 1]) == referenceKey
                       && forall j :: at <= j < |content| ==> KeyOf(content[j]) != referenceKey);
  }

  /** After an insertion of a well-formed key, its line is the only line with that key. */
  lemma InsertNewOnce(content: seq<string>, referenceKey: string, key: string, value: string)
    requires AllHaveKey(content) && key != [] && Separator !in key
    requires forall j :: 0 <= j < |content| ==> KeyOf(content[j]) != key
    ensures var r := InsertOrUpdateContent(content, referenceKey, key, value);
      && AllHaveKey(r)
      && exists at :: 0 <= at < |r| && r[at] == FormContent(key, value)
           && forall j :: 0 <= j < |r| ==> (KeyOf(r[j]) == key <==> j == at)
  {
    FormContentRoundTrip(key, value);
    var at := LastKeyed(content, referenceKey) + 1;
    var r := InsertOrUpdateContent(content, referenceKey, key, value);
    assert r == InsertAt(content, at, FormContent(key, value));
  }

  /** After an edit with a well-formed key, the last line with that key is the line written. */
  lemma EditKeys(content: seq<string>, referenceKey: string, key: string, value: string)
    requires AllHaveKey(content) && key != [] && Separator !in key
    ensures var r := InsertOrUpdateContent(content, referenceKey, key, value);
      && AllHaveKey(r)
      && LastKeyed(r, key) != -1
      && r[LastKeyed(r, key)] == FormContent(key, value)
  {
    FormContentRoundTrip(key, value);
    if LastKeyed(content, key) != -1 {
      EditKeysUpdate(content, referenceKey, key, value);
    } else {
      EditKeysInsert(content, referenceKey, key, value);
    }
  }

  lemma EditKeysUpdate(content: seq<string>, referenceKey: string, key: string, value: string)
    requires AllHaveKey(content) && key != [] && Separator !in key
    requires HasKey(FormContent(key, value)) && KeyOf(FormContent(key, value)) == key
    requires LastKeyed(content, key) != -1
    ensures var r := InsertOrUpdateContent(content, referenceKey, key, value);
      && AllHaveKey(r)
      && LastKeyed(r, key) == LastKeyed(content, key)
  {
    var index := LastKeyed(content, key);
    var r := content[index := FormContent(key, value)];
    assert r == InsertOrUpdateContent(content, referenceKey, key, value);
    assert AllHaveKey(r);
    assert forall j :: index < j < |r| ==> KeyOf(r[j]) != key;
    LastKeyedAt(r, key, index);
  }

  lemma EditKeysInsert(content: seq<string>, referenceKey: string, key: string, value: string)
    requires AllHaveKey(content) && key != [] && Separator !in key
    requires HasKey(FormContent(key, value)) && KeyOf(FormContent(key, value)) == key
    requires LastKeyed(content, key) == -1
    ensures var r := InsertOrUpdateContent(content, referenceKey, key, value);
      && AllHaveKey(r)
      && LastKeyed(r, key) == LastKeyed(content, referenceKey) + 1
  {
    var at := LastKeyed(content, referenceKey) + 1;
    var r := InsertAt(content, at, FormContent(key, value));
    assert r == InsertOrUpdateContent(content, referenceKey, key, value);
    forall j | 0 <= j < |r|
      ensures HasKey(r[j])
    {
      if j < at {
        assert r[j] == content[j];
      } else if j > at {
        assert r[j] == content[j - 1];
      }
    }
    forall j | at < j < |r|
      ensures KeyOf(r[j]) != key
    {
      assert r[j] == content[j - 1];
    }
    LastKeyedAt(r, key, at);
  }

  /**
   * insertOrUpdate is idempotent: the second call finds the line the first one wrote as the last
   * line of its key and writes it again unchanged.
   */
  lemma InsertOrUpdateIdempotent(content: seq<string>, referenceKey: string, key: string, value: string)
    requires AllHaveKey(content) && key != [] && Separator !in key
    ensures AllHaveKey(InsertOrUpdateContent(content, referenceKey, key, value))
    ensures var once := InsertOrUpdateContent(content, referenceKey, key, value);
      InsertOrUpdateContent(once, referenceKey, key, value) == once
  {
    EditKeys(content, referenceKey, key, value);
  }

  /**
   * As written, insertOrUpdate is not idempotent for a key holding `=`: the line it writes has
   * the text before that `=` as its key, so no line is keyed `key` afterwards either, and every
   * further call inserts one more line.
   */
  lemma InsertOrUpdateSeparatorKey(content: seq<string>, referenceKey: string, key: string, value: string)
    requires AllHaveKey(content) && HasKey(key) && Separator in key
    requires forall j :: 0 <= j < |content| ==> KeyOf(content[j]) != key
    ensures var once := InsertOrUpdateContent(content, referenceKey, key, value);
      && AllHaveKey(once)
      && (forall j :: 0 <= j < |once| ==> KeyOf(once[j]) != key)
      && |once| == |content| + 1
      && |InsertOrUpdateContent(once, referenceKey, key, value)| == |content| + 2
  {
    var line := FormContent(key, value);
    assert line == key + line[|key|..];
    KeyOfExtended(key, line[|key|..]);
    LastKeyedSpec(content, key);
    var once := InsertAt(content, LastKeyed(content, referenceKey) + 1, line);
    assert once == InsertOrUpdateContent(content, referenceKey, key, value);
    assert forall j :: 0 <= j < |once| ==> once[j] == line || once[j] in content;
    LastKeyedSpec(once, key);
  }

  /** A key holding `=`, followed by anything: the line's key is the key's own text before its first `=`. */
  lemma KeyOfExtended(key: string, rest: string)
    requires HasKey(key) && Separator in key
    ensures HasKey(key + rest) && KeyOf(key + rest) == KeyOf(key) && |KeyOf(key)| < |key|
  {
    IndexOfSpec(key, Separator);
    var i := IndexOf(key, Separator);
    var line := key + rest;
    assert line[..i] == key[..i];
    IndexOfAt(line, Separator, i);
    var q :| 0 <= q < |key| && key[q] != Separator;
    assert line[q] != Separator;
  }

  /**
   * A prefix of a property line that reaches its first non-blank character and a `=` keeps the
   * line a property line, whatever follows it.
   */
  lemma {:induction false} IsPropertyPrefix(a: string, b: string, c: string)
    requires IsProperty(a + b) && Separator in a
    ensures IsProperty(a + c)
    decreases |a|
  {
    assert a != [];
    assert (a + b)[0] == a[0] == (a + c)[0];
    if a[0] <= ' ' {
      assert (a + b)[1..] == a[1..] + b;
      assert (a + c)[1..] == a[1..] + c;
      assert a[0] != Separator;
      IsPropertyPrefix(a[1..], b, c);
    } else {
      assert a[0] != Separator;
      assert |a| >= 2;
      assert (a + b)[1] == a[1] == (a + c)[1];
    }
  }

  /** The line `key=value` written for the key of a property line is a property line. */
  lemma FormContentIsProperty(line: string, value: string)
    requires IsProperty(line) && value != []
    ensures IsProperty(FormContent(KeyOf(line), value))
  {
    PropertyKey(line);
    KeyThenSeparator(line);
    var k := KeyOf(line);
    var a := line[..|k| + 1];
    assert line == a + line[|k| + 1..];
    IsPropertyPrefix(a, line[|k| + 1..], value);
    assert FormContent(k, value) == a + value;
  }

  /** A key that has a property line among `lines`: the position of one. */
  lemma {:induction false} OccurrenceLine(lines: seq<string>, k: string) returns (p: nat)
    requires Occurrences(lines, k) != []
    ensures p < |lines| && IsProperty(lines[p]) && KeyOf(lines[p]) == k
    decreases |lines|
  {
    var n := |lines| - 1;
    if IsProperty(lines[n]) && KeyOf(lines[n]) == k {
      p := n;
    } else {
      assert Occurrences(lines, k) == Occurrences(lines[..n], k);
      p := OccurrenceLine(lines[..n], k);
      assert lines[..n][p] == lines[p];
    }
  }

  /** The key of a property line is non-empty and free of `=`. */
  lemma OccurringKey(lines: seq<string>, k: string)
    requires Occurrences(lines, k) != []
    ensures k != [] && Separator !in k
  {
    var p := OccurrenceLine(lines, k);
    PropertyKey(lines[p]);
  }

  /** The line `key=value` written for a key that has a property line is a property line. */
  lemma OccurringKeyLine(lines: seq<string>, k: string, value: string)
    requires Occurrences(lines, k) != [] && value != []
    ensures IsProperty(FormContent(k, value))
  {
    var p := OccurrenceLine(lines, k);
    FormContentIsProperty(lines[p], value);
  }

  /**
   * iAmChinesePropertiesFile after visiting the first lines `visited` of `lines`: a line becomes
   * `key=key` when it is the last line keyed `key` (comments included, as insertOrUpdate matches
   * them) and `key` has a property line among the visited ones; every other line is unchanged.
   */
  function ChineseLine(lines: seq<string>, visited: seq<string>, j: nat): string
    requires AllHaveKey(lines) && j < |lines|
  {
    var k := KeyOf(lines[j]);
    if LastKeyed(lines, k) == j && Occurrences(visited, k) != [] then FormContent(k, k) else lines[j]
  }

  /** The content once the first `i` lines have been visited. */
  function ChineseContent(lines: seq<string>, i: nat): (r: seq<string>)
    requires AllHaveKey(lines) && i <= |lines|
    ensures |r| == |lines|
    ensures forall j :: 0 <= j < |lines| ==> r[j] == ChineseLine(lines, lines[..i], j)
  {
    seq(|lines|, j requires 0 <= j < |lines| => ChineseLine(lines, lines[..i], j))
  }

  /** The map once the lines `visited` have been visited: every property line puts `key=key`. */
  function ChineseProps(props: LinkedMap, visited: seq<string>): (r: LinkedMap)
    requires props.Valid() && AllHaveKey(visited)
    ensures r.Valid()
    decreases |visited|
  {
    if visited == [] then props
    else
      var n := |visited| - 1;
      var p := ChineseProps(props, visited[..n]);
      if IsProperty(visited[n]) then p.Put(KeyOf(visited[n]), KeyOf(visited[n])) else p
  }

  /**
   * The map after the visit: the keys with a property line are bound to themselves, the other
   * keys keep their values, and the keys already there keep their order in front.
   */
  lemma {:induction false} ChinesePropsSpec(props: LinkedMap, visited: seq<string>, k: string)
    requires props.Valid() && AllHaveKey(visited)
    ensures var r := ChineseProps(props, visited);
      && (k in r.entries <==> k in props.entries || Occurrences(visited, k) != [])
      && (Occurrences(visited, k) != [] ==> r.entries[k] == k)
      && (Occurrences(visited, k) == [] && k in props.entries ==> r.entries[k] == props.entries[k])
      && |props.keys| <= |r.keys| && r.keys[..|props.keys|] == props.keys
    decreases |visited|
  {
    if visited != [] {
      var n := |visited| - 1;
      var prefix, last := visited[..n], visited[n];
      ChinesePropsSpec(props, prefix, k);
      var p := ChineseProps(props, prefix);
      assert Occurrences(visited, k)
          == Occurrences(prefix, k) + (if IsProperty(last) && KeyOf(last) == k then [ValueOf(last)] else []);
      if IsProperty(last) {
        var r := p.Put(KeyOf(last), KeyOf(last));
        assert ChineseProps(props, visited) == r;
        assert r.keys[..|p.keys|] == p.keys;
        assert r.keys[..|props.keys|] == p.keys[..|props.keys|];
      }
    }
  }

  /** Two contents whose lines have the same keys have their last keyed lines in the same places. */
  lemma LastKeyedSameKeys(a: seq<string>, b: seq<string>, k: string)
    requires AllHaveKey(a) && AllHaveKey(b) && |a| == |b|
    requires forall j :: 0 <= j < |a| ==> KeyOf(a[j]) == KeyOf(b[j])
    ensures LastKeyed(a, k) == LastKeyed(b, k)
  {
  }

  /** A rewritten line keeps its key. */
  lemma ChineseLineKey(lines: seq<string>, visited: seq<string>, j: nat)
    requires AllHaveKey(lines) && j < |lines|
    ensures HasKey(ChineseLine(lines, visited, j))
    ensures KeyOf(ChineseLine(lines, visited, j)) == KeyOf(lines[j])
  {
    var k := KeyOf(lines[j]);
    if Occurrences(visited, k) != [] {
      OccurringKey(visited, k);
      FormContentRoundTrip(k, k);
    }
  }

  /** The visit rewrites lines without changing their keys. */
  lemma ChineseKeys(lines: seq<string>, i: nat)
    requires AllHaveKey(lines) && i <= |lines|
    ensures var cur := ChineseContent(lines, i);
      && AllHaveKey(cur)
      && (forall j :: 0 <= j < |lines| ==> KeyOf(cur[j]) == KeyOf(lines[j]))
      && forall k :: LastKeyed(cur, k) == LastKeyed(lines, k)
  {
    var cur := ChineseContent(lines, i);
    forall j | 0 <= j < |lines|
      ensures HasKey(cur[j]) && KeyOf(cur[j]) == KeyOf(lines[j])
    {
      ChineseLineKey(lines, lines[..i], j);
    }
    forall k
      ensures LastKeyed(cur, k) == LastKeyed(lines, k)
    {
      LastKeyedSameKeys(cur, lines, k);
    }
  }

  /** What one more visited line changes in the picture of line `j`. */
  lemma ChineseLineStep(lines: seq<string>, i: nat, j: nat)
    requires AllHaveKey(lines) && i < |lines| && j < |lines|
    ensures var k := KeyOf(lines[j]);
      ChineseLine(lines, lines[..i + 1], j) ==
        if IsProperty(lines[i]) && KeyOf(lines[i]) == k && LastKeyed(lines, k) == j then FormContent(k, k)
        else ChineseLine(lines, lines[..i], j)
  {
    assert lines[..i + 1] == lines[..i] + [lines[i]];
    OccurrencesSnoc(lines[..i], lines[i], KeyOf(lines[j]));
  }

  /** The visited line keeps its key, and a property line stays one. */
  lemma ChineseCurrent(lines: seq<string>, i: nat)
    requires AllHaveKey(lines) && i < |lines|
    ensures var cur := ChineseContent(lines, i);
      && AllHaveKey(cur)
      && KeyOf(cur[i]) == KeyOf(lines[i])
      && (IsProperty(lines[i]) ==> IsProperty(cur[i]))
      && (IsProperty(cur[i]) && !IsProperty(lines[i]) ==>
            Occurrences(lines[..i], KeyOf(lines[i])) != [] && LastKeyed(lines, KeyOf(lines[i])) == i
            && cur[i] == FormContent(KeyOf(lines[i]), KeyOf(lines[i])))
  {
    ChineseKeys(lines, i);
    var k := KeyOf(lines[i]);
    if IsProperty(lines[i]) {
      PropertyKey(lines[i]);
      FormContentIsProperty(lines[i], k);
    }
  }

  /** The edit the visit of line `i` makes lands on the last line keyed like it. */
  lemma ChineseEdit(lines: seq<string>, i: nat, referenceKey: string)
    requires AllHaveKey(lines) && i < |lines|
    ensures var cur, k := ChineseContent(lines, i), KeyOf(lines[i]);
      && AllHaveKey(cur)
      && LastKeyed(lines, k) >= i
      && InsertOrUpdateContent(cur, referenceKey, k, k) == cur[LastKeyed(lines, k) := FormContent(k, k)]
  {
    ChineseKeys(lines, i);
  }

  /** Writing `key=key` on the last line of a visited property line's key is the next picture. */
  lemma ChineseWrite(lines: seq<string>, i: nat)
    requires AllHaveKey(lines) && i < |lines| && IsProperty(lines[i])
    ensures var k := KeyOf(lines[i]);
      && LastKeyed(lines, k) >= i
      && ChineseContent(lines, i)[LastKeyed(lines, k) := FormContent(k, k)] == ChineseContent(lines, i + 1)
  {
    var cur, next, k := ChineseContent(lines, i), ChineseContent(lines, i + 1), KeyOf(lines[i]);
    var L := LastKeyed(lines, k);
    var r := cur[L := FormContent(k, k)];
    forall j | 0 <= j < |lines|
      ensures r[j] == next[j]
    {
      ChineseLineStep(lines, i, j);
    }
    assert r == next;
  }

  /** Visiting a line that is not a property line leaves the picture as it was. */
  lemma ChineseSkip(lines: seq<string>, i: nat)
    requires AllHaveKey(lines) && i < |lines| && !IsProperty(lines[i])
    ensures ChineseContent(lines, i + 1) == ChineseContent(lines, i)
  {
    var cur, next := ChineseContent(lines, i), ChineseContent(lines, i + 1);
    forall j | 0 <= j < |lines|
      ensures cur[j] == next[j]
    {
      ChineseLineStep(lines, i, j);
    }
  }

  /** Visiting a property line writes `key=key` on the last line with its key. */
  lemma ChineseStepProperty(lines: seq<string>, i: nat, referenceKey: string)
    requires AllHaveKey(lines) && i < |lines| && IsProperty(lines[i])
    ensures var cur, k := ChineseContent(lines, i), KeyOf(lines[i]);
      && AllHaveKey(cur)
      && IsProperty(cur[i]) && KeyOf(cur[i]) == k
      && InsertOrUpdateContent(cur, referenceKey, k, k) == ChineseContent(lines, i + 1)
  {
    ChineseCurrent(lines, i);
    ChineseEdit(lines, i, referenceKey);
    ChineseWrite(lines, i);
  }

  /** Visiting any other line changes nothing, even when an earlier visit turned it into `key=key`. */
  lemma ChineseStepOther(lines: seq<string>, i: nat, referenceKey: string)
    requires AllHaveKey(lines) && i < |lines| && !IsProperty(lines[i])
    ensures var cur, k := ChineseContent(lines, i), KeyOf(lines[i]);
      && AllHaveKey(cur)
      && KeyOf(cur[i]) == k
      && ChineseContent(lines, i + 1) == cur
      && (IsProperty(cur[i]) ==>
            && Occurrences(lines[..i], k) != []
            && InsertOrUpdateContent(cur, referenceKey, k, k) == cur)
  {
    ChineseCurrent(lines, i);
    ChineseSkip(lines, i);
    if IsProperty(ChineseContent(lines, i)[i]) {
      ChineseRevisit(lines, i, referenceKey);
    }
  }

  /** A line an earlier visit rewrote is rewritten to the same text. */
  lemma ChineseRevisit(lines: seq<string>, i: nat, referenceKey: string)
    requires AllHaveKey(lines) && i < |lines|
    requires Occurrences(lines[..i], KeyOf(lines[i])) != [] && LastKeyed(lines, KeyOf(lines[i])) == i
    requires ChineseContent(lines, i)[i] == FormContent(KeyOf(lines[i]), KeyOf(lines[i]))
    ensures var cur, k := ChineseContent(lines, i), KeyOf(lines[i]);
      AllHaveKey(cur) && InsertOrUpdateContent(cur, referenceKey, k, k) == cur
  {
    var cur, k := ChineseContent(lines, i), KeyOf(lines[i]);
    ChineseEdit(lines, i, referenceKey);
    assert cur[i := FormContent(k, k)] == cur;
  }
  /**
   * One step of the visit, as the walk sees it: the line it reads at `i` is a property line
   * exactly when the edit `key=key` it asks for takes the content and the map to their next
   * pictures; otherwise both stay as they are.
   */
  lemma ChineseStep(lines: seq<string>, props: LinkedMap, i: nat, referenceKey: string)
    requires AllHaveKey(lines) && props.Valid() && i < |lines|
    ensures var cur, k := ChineseContent(lines, i), KeyOf(lines[i]);
      && AllHaveKey(cur) && KeyOf(cur[i]) == k
      && (IsProperty(cur[i]) ==>
            && k != []
            && InsertOrUpdateContent(cur, referenceKey, k, k) == ChineseContent(lines, i + 1)
            && ChineseProps(props, lines[..i]).Put(k, k) == ChineseProps(props, lines[..i + 1]))
      && (!IsProperty(cur[i]) ==>
            && ChineseContent(lines, i + 1) == cur
            && ChineseProps(props, lines[..i + 1]) == ChineseProps(props, lines[..i]))
  {
    var cur, k := ChineseContent(lines, i), KeyOf(lines[i]);
    ChineseCurrent(lines, i);
    assert lines[..i + 1] == lines[..i] + [lines[i]];
    assert (lines[..i + 1])[..i] == lines[..i];
    if IsProperty(cur[i]) {
      PropertyKey(cur[i]);
      if IsProperty(lines[i]) {
        ChineseStepProperty(lines, i, referenceKey);
      } else {
        ChineseStepOther(lines, i, referenceKey);
        ChinesePropsSpec(props, lines[..i], k);
        PutPresent(ChineseProps(props, lines[..i]), k, k);
      }
    } else {
      ChineseSkip(lines, i);
    }
  }
}
