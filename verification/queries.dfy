/**
 * The read-only queries over the model: each walks the content, the reference or the map in
 * order, keeps some entries and reports them, often together with the key the walk saw just
 * before (`theKeyBeforeThis`). Each is written as the loop it is (a recursion from position `i`
 * carrying the previous key) and characterised by a lemma against `Select`, the increasing list
 * of the positions that pass its filter.
 */
module Queries {
  import opened Wrappers
  import opened JavaStrings
  import opened LineClassifier
  import opened LinkedMaps
  import opened Selection

  /**
   * PropertiesDifferent: a key, its value in the reference file (None for Java's null), its
   * value in the file being edited, and the key written before it.
   */
  datatype PropertiesDifferent = PropertiesDifferent(
    key: string, originalValue: Option<string>, differentValue: string, theKeyBeforeThis: string)

  /** The no-argument constructor: every field is the empty string. */
  function Blank(): (d: PropertiesDifferent)
    ensures d.key == [] && d.originalValue == Some([]) && d.differentValue == [] && d.theKeyBeforeThis == []
  {
    PropertiesDifferent("", Some(""), "", "")
  }

  /** The key a loop over `keys` saw just before position `j`: "" at the start. */
  function PreviousKey(keys: seq<string>, j: nat): string
  {
    if 0 < j <= |keys| then keys[j - 1] else ""
  }

  /** The key of the line a loop over `content` saw just before position `j`: "" at the start. */
  function PreviousLineKey(content: seq<string>, j: nat): string
  {
    if 0 < j <= |content| && HasKey(content[j - 1]) then KeyOf(content[j - 1]) else ""
  }

  /** Map.getOrDefault(key, ""). */
  function ValueOrEmpty(m: LinkedMap, key: string): string
  {
    if key in m.entries then m.entries[key] else ""
  }

  // getEmptyKeyList

  function EmptyKeysFrom(m: LinkedMap, i: nat, oldKey: string): seq<PropertiesDifferent>
    requires m.Valid() && i <= |m.keys|
    decreases |m.keys| - i
  {
    if i == |m.keys| then []
    else
      var k := m.keys[i];
      assert k in m.entries;
      (if m.entries[k] == [] then [PropertiesDifferent(k, Some(k), "", oldKey)] else [])
        + EmptyKeysFrom(m, i + 1, k)
  }

  /** getEmptyKeyList: a record for every key of the map whose value is empty. */
  function EmptyKeyList(m: LinkedMap): seq<PropertiesDifferent>
    requires m.Valid()
  {
    EmptyKeysFrom(m, 0, "")
  }

  predicate HasEmptyValue(m: LinkedMap, j: nat)
  {
    j < |m.keys| && m.keys[j] in m.entries && m.entries[m.keys[j]] == []
  }

  function EmptyFilter(m: LinkedMap): nat -> bool
  {
    (j: nat) => HasEmptyValue(m, j)
  }

  function EmptyRecords(m: LinkedMap): nat -> PropertiesDifferent
  {
    (j: nat) => if j < |m.keys| then PropertiesDifferent(m.keys[j], Some(m.keys[j]), "", PreviousKey(m.keys, j)) else Blank()
  }

  lemma {:induction false} EmptyKeysFromSpec(m: LinkedMap, i: nat)
    requires m.Valid() && i <= |m.keys|
    ensures EmptyKeysFrom(m, i, PreviousKey(m.keys, i)) == Collect(i, |m.keys|, EmptyFilter(m), EmptyRecords(m))
    decreases |m.keys| - i
  {
    if i < |m.keys| {
      EmptyKeysFromSpec(m, i + 1);
      assert m.keys[i] in m.entries;
    }
  }

  /**
   * getEmptyKeyList reports, in the order of the map, the keys whose value is empty, each as
   * (key, key, "", the key before it in the map).
   */
  lemma EmptyKeyListSpec(m: LinkedMap)
    requires m.Valid()
    ensures var sel, r := Select(0, |m.keys|, EmptyFilter(m)), EmptyKeyList(m);
      && |r| == |sel|
      && forall n :: 0 <= n < |r| ==>
           r[n] == PropertiesDifferent(m.keys[sel[n]], Some(m.keys[sel[n]]), "", PreviousKey(m.keys, sel[n]))
  {
    EmptyKeysFromSpec(m, 0);
    CollectSpec(0, |m.keys|, EmptyFilter(m), EmptyRecords(m));
  }

  // findKeysToTranslate

  function ToTranslateFrom(content: seq<string>, m: LinkedMap, i: nat, oldKey: string): seq<PropertiesDifferent>
    requires AllHaveKey(content) && i <= |content|
    decreases |content| - i
  {
    if i == |content| then []
    else
      var line := content[i];
      var key := KeyOf(line);
      (if IsProperty(line) && key !in m.entries then [PropertiesDifferent(key, Some(ValueOf(line)), "", oldKey)] else [])
        + ToTranslateFrom(content, m, i + 1, key)
  }

  /** findKeysToTranslate: a record for every property line whose key the map lacks. */
  function KeysToTranslate(content: seq<string>, m: LinkedMap): seq<PropertiesDifferent>
    requires AllHaveKey(content)
  {
    ToTranslateFrom(content, m, 0, "")
  }

  predicate IsToTranslate(content: seq<string>, m: LinkedMap, j: nat)
  {
    j < |content| && IsProperty(content[j]) && KeyOf(content[j]) !in m.entries
  }

  function ToTranslateFilter(content: seq<string>, m: LinkedMap): nat -> bool
  {
    (j: nat) => IsToTranslate(content, m, j)
  }

  function ToTranslateRecords(content: seq<string>): nat -> PropertiesDifferent
  {
    (j: nat) => if j < |content| && HasKey(content[j]) then
           PropertiesDifferent(KeyOf(content[j]), Some(ValueOf(content[j])), "", PreviousLineKey(content, j))
         else Blank()
  }

  lemma {:induction false} ToTranslateFromSpec(content: seq<string>, m: LinkedMap, i: nat)
    requires AllHaveKey(content) && i <= |content|
    ensures ToTranslateFrom(content, m, i, PreviousLineKey(content, i))
         == Collect(i, |content|, ToTranslateFilter(content, m), ToTranslateRecords(content))
    decreases |content| - i
  {
    if i < |content| {
      ToTranslateFromSpec(content, m, i + 1);
      ToTranslateStep(content, m, i);
      CollectStep(i, |content|, ToTranslateFilter(content, m), ToTranslateRecords(content));
    }
  }

  /** One step of the walk: the record of line i, when it is reported, then the rest of the walk. */
  lemma ToTranslateStep(content: seq<string>, m: LinkedMap, i: nat)
    requires AllHaveKey(content) && i < |content|
    ensures var p, f := ToTranslateFilter(content, m), ToTranslateRecords(content);
      ToTranslateFrom(content, m, i, PreviousLineKey(content, i))
      == (if p(i) then [f(i)] else []) + ToTranslateFrom(content, m, i + 1, PreviousLineKey(content, i + 1))
  {
    assert PreviousLineKey(content, i + 1) == KeyOf(content[i]);
  }

  /**
   * findKeysToTranslate reports, in file order, the property lines whose key is not in the map,
   * each as (key, value of the line, "", key of the line before).
   */
  lemma KeysToTranslateSpec(content: seq<string>, m: LinkedMap)
    requires AllHaveKey(content)
    ensures var sel, r := Select(0, |content|, ToTranslateFilter(content, m)), KeysToTranslate(content, m);
      && |r| == |sel|
      && forall n :: 0 <= n < |r| ==>
           r[n] == PropertiesDifferent(KeyOf(content[sel[n]]), Some(ValueOf(content[sel[n]])), "",
                                       PreviousLineKey(content, sel[n]))
  {
    ToTranslateFromSpec(content, m, 0);
    CollectSpec(0, |content|, ToTranslateFilter(content, m), ToTranslateRecords(content));
  }

  // getReferenceValueByKey

  /**
   * getReferenceValueByKey: the value of the LAST reference line keyed `key`, or None (null)
   * when no line has that key.
   */
  function ReferenceValueByKey(reference: seq<string>, key: string): Option<string>
    requires AllHaveKey(reference)
  {
    var index := LastKeyed(reference, key);
    if index != -1 then Some(ValueOf(reference[index])) else None
  }

  /** There is no value exactly when no line has the key; otherwise it is the value of the last such line. */
  lemma ReferenceValueByKeySpec(reference: seq<string>, key: string)
    requires AllHaveKey(reference)
    ensures var r := ReferenceValueByKey(reference, key);
      && (r.None? <==> forall j :: 0 <= j < |reference| ==> KeyOf(reference[j]) != key)
      && (r.Some? ==> exists j :: (0 <= j < |reference| && KeyOf(reference[j]) == key
            && (forall i :: j < i < |reference| ==> KeyOf(reference[i]) != key)
            && r.value == ValueOf(reference[j])))
  {
    var index := LastKeyed(reference, key);
    LastKeyedSpec(reference, key);
    if index != -1 {
      assert KeyOf(reference[index]) == key;
    }
  }

  // isBadKey, findBadKeys

  /** isBadKey: the key is missing from the map or its value is empty. */
  predicate IsBadKey(m: LinkedMap, key: string)
  {
    match m.Get(key)
    case None => true
    case Some(v) => v == []
  }

  /** Some key of the map is bad, so findBadKeys looks the reference up. */
  predicate HasBadKey(m: LinkedMap)
  {
    exists k :: k in m.entries && m.entries[k] == []
  }

  function BadKeysFrom(m: LinkedMap, reference: seq<string>, i: nat, oldKey: string): seq<PropertiesDifferent>
    requires m.Valid() && i <= |m.keys| && (HasBadKey(m) ==> AllHaveKey(reference))
    decreases |m.keys| - i
  {
    if i == |m.keys| then []
    else
      var key := m.keys[i];
      assert key in m.entries;
      (if IsBadKey(m, key) then [PropertiesDifferent(key, ReferenceValueByKey(reference, key), m.entries[key], oldKey)]
       else [])
        + BadKeysFrom(m, reference, i + 1, key)
  }

  /** findBadKeys: a record for every key of the map that isBadKey flags. */
  function BadKeys(m: LinkedMap, reference: seq<string>): seq<PropertiesDifferent>
    requires m.Valid() && (HasBadKey(m) ==> AllHaveKey(reference))
  {
    BadKeysFrom(m, reference, 0, "")
  }

  function BadFilter(m: LinkedMap): nat -> bool
  {
    (j: nat) => j < |m.keys| && IsBadKey(m, m.keys[j])
  }

  function BadRecords(m: LinkedMap, reference: seq<string>): nat -> PropertiesDifferent
  {
    (j: nat) => if j < |m.keys| && m.keys[j] in m.entries && AllHaveKey(reference) then
           PropertiesDifferent(m.keys[j], ReferenceValueByKey(reference, m.keys[j]), m.entries[m.keys[j]],
                               PreviousKey(m.keys, j))
         else Blank()
  }

  lemma {:induction false} BadKeysFromSpec(m: LinkedMap, reference: seq<string>, i: nat)
    requires m.Valid() && i <= |m.keys| && (HasBadKey(m) ==> AllHaveKey(reference))
    ensures BadKeysFrom(m, reference, i, PreviousKey(m.keys, i))
         == Collect(i, |m.keys|, BadFilter(m), BadRecords(m, reference))
    decreases |m.keys| - i
  {
    if i < |m.keys| {
      BadKeysFromSpec(m, reference, i + 1);
      BadKeysStep(m, reference, i);
      CollectStep(i, |m.keys|, BadFilter(m), BadRecords(m, reference));
    }
  }

  /** One step of the walk over the map: the record of key i, when it is reported, then the rest. */
  lemma BadKeysStep(m: LinkedMap, reference: seq<string>, i: nat)
    requires m.Valid() && i < |m.keys| && (HasBadKey(m) ==> AllHaveKey(reference))
    ensures var p, f := BadFilter(m), BadRecords(m, reference);
      BadKeysFrom(m, reference, i, PreviousKey(m.keys, i))
      == (if p(i) then [f(i)] else []) + BadKeysFrom(m, reference, i + 1, PreviousKey(m.keys, i + 1))
  {
    assert m.keys[i] in m.entries;
  }

  /** The `n`-th record findBadKeys reports. */
  lemma BadKeyAt(m: LinkedMap, reference: seq<string>, n: nat)
    requires m.Valid() && (HasBadKey(m) ==> AllHaveKey(reference))
    requires n < |Select(0, |m.keys|, BadFilter(m))|
    ensures var sel, r := Select(0, |m.keys|, BadFilter(m)), BadKeys(m, reference);
      && n < |r|
      && m.keys[sel[n]] in m.entries && m.entries[m.keys[sel[n]]] == []
      && AllHaveKey(reference)
      && r[n] == PropertiesDifferent(m.keys[sel[n]], ReferenceValueByKey(reference, m.keys[sel[n]]), "",
                                     PreviousKey(m.keys, sel[n]))
  {
    BadKeysFromSpec(m, reference, 0);
    var sel, r := Select(0, |m.keys|, BadFilter(m)), BadKeys(m, reference);
    CollectSpec(0, |m.keys|, BadFilter(m), BadRecords(m, reference));
    var j := sel[n];
    assert j < |m.keys| && BadFilter(m)(j);
    var key := m.keys[j];
    assert key in m.keys;
    assert IsBadKey(m, key);
    assert HasBadKey(m);
    assert r[n] == BadRecords(m, reference)(j);
  }

  /**
   * findBadKeys reports, in the order of the map, the keys with an empty value, each as (key,
   * its last reference value or null, its value, the key before it in the map).
   */
  lemma BadKeysSpec(m: LinkedMap, reference: seq<string>)
    requires m.Valid() && (HasBadKey(m) ==> AllHaveKey(reference))
    ensures var sel, r := Select(0, |m.keys|, BadFilter(m)), BadKeys(m, reference);
      && |r| == |sel|
      && (r != [] ==> AllHaveKey(reference))
      && forall n :: 0 <= n < |r| ==>
           && m.keys[sel[n]] in m.entries && m.entries[m.keys[sel[n]]] == []
           && r[n] == PropertiesDifferent(m.keys[sel[n]], ReferenceValueByKey(reference, m.keys[sel[n]]), "",
                                          PreviousKey(m.keys, sel[n]))
  {
    BadKeysFromSpec(m, reference, 0);
    CollectSpec(0, |m.keys|, BadFilter(m), BadRecords(m, reference));
    var sel, r := Select(0, |m.keys|, BadFilter(m)), BadKeys(m, reference);
    if r != [] {
      BadKeyAt(m, reference, 0);
    }
    forall n | 0 <= n < |r|
      ensures m.keys[sel[n]] in m.entries && m.entries[m.keys[sel[n]]] == []
      ensures r[n] == PropertiesDifferent(m.keys[sel[n]], ReferenceValueByKey(reference, m.keys[sel[n]]), "",
                                          PreviousKey(m.keys, sel[n]))
    {
      BadKeyAt(m, reference, n);
    }

  }

  // getKeysByValue

  function KeysByValueFrom(m: LinkedMap, value: string, i: nat): seq<string>
    requires m.Valid() && i <= |m.keys|
    decreases |m.keys| - i
  {
    if i == |m.keys| then []
    else
      var k := m.keys[i];
      assert k in m.entries;
      (if m.entries[k] == value then [k] else []) + KeysByValueFrom(m, value, i + 1)
  }

  /** getKeysByValue: the keys of the map bound to `value`. */
  function KeysByValue(m: LinkedMap, value: string): seq<string>
    requires m.Valid()
  {
    KeysByValueFrom(m, value, 0)
  }

  function ValueFilter(m: LinkedMap, value: string): nat -> bool
  {
    (j: nat) => j < |m.keys| && m.keys[j] in m.entries && m.entries[m.keys[j]] == value
  }

  function MapKeys(m: LinkedMap): nat -> string
  {
    (j: nat) => if j < |m.keys| then m.keys[j] else ""
  }

  lemma {:induction false} KeysByValueFromSpec(m: LinkedMap, value: string, i: nat)
    requires m.Valid() && i <= |m.keys|
    ensures KeysByValueFrom(m, value, i) == Collect(i, |m.keys|, ValueFilter(m, value), MapKeys(m))
    decreases |m.keys| - i
  {
    if i < |m.keys| {
      KeysByValueFromSpec(m, value, i + 1);
      KeysByValueStep(m, value, i);
      CollectStep(i, |m.keys|, ValueFilter(m, value), MapKeys(m));
    }
  }

  /** One step of the walk over the map: key i, when it is bound to `value`, then the rest. */
  lemma KeysByValueStep(m: LinkedMap, value: string, i: nat)
    requires m.Valid() && i < |m.keys|
    ensures var p, f := ValueFilter(m, value), MapKeys(m);
      KeysByValueFrom(m, value, i) == (if p(i) then [f(i)] else []) + KeysByValueFrom(m, value, i + 1)
  {
    assert m.keys[i] in m.entries;
  }

  /** getKeysByValue lists, in the order of the map, exactly the keys bound to `value`. */
  lemma KeysByValueSpec(m: LinkedMap, value: string)
    requires m.Valid()
    ensures var sel, r := Select(0, |m.keys|, ValueFilter(m, value)), KeysByValue(m, value);
      && |r| == |sel|
      && (forall n :: 0 <= n < |r| ==> r[n] == m.keys[sel[n]] && m.entries[r[n]] == value)
      && forall k :: k in m.entries && m.entries[k] == value ==> k in r
  {
    KeysByValueFromSpec(m, value, 0);
    CollectSpec(0, |m.keys|, ValueFilter(m, value), MapKeys(m));
    var sel, r := Select(0, |m.keys|, ValueFilter(m, value)), KeysByValue(m, value);
    forall n | 0 <= n < |r|
      ensures r[n] == m.keys[sel[n]] && m.entries[r[n]] == value
    {
      assert ValueFilter(m, value)(sel[n]);
    }
    forall k | k in m.entries && m.entries[k] == value
      ensures k in r
    {
      KeyBoundToValue(m, value, k);
    }
  }

  /** A key bound to `value` is among those getKeysByValue lists. */
  lemma KeyBoundToValue(m: LinkedMap, value: string, k: string)
    requires m.Valid() && k in m.entries && m.entries[k] == value
    ensures k in KeysByValue(m, value)
  {
    KeysByValueFromSpec(m, value, 0);
    var j :| 0 <= j < |m.keys| && m.keys[j] == k;
    CollectHas(0, |m.keys|, ValueFilter(m, value), MapKeys(m), j);
  }

  // getKeysByReferenceValue

  function KeysByReferenceValueAsWrittenFrom(reference: seq<string>, value: string, i: nat): seq<string>
    requires i <= |reference|
    decreases |reference| - i
  {
    if i == |reference| then []
    else
      var contentValue := ValueOf(reference[i]);
      (if contentValue == value then [contentValue] else []) + KeysByReferenceValueAsWrittenFrom(reference, value, i + 1)
  }

  /** getKeysByReferenceValue as written: it collects the matching VALUE of each line, not its key. */
  function KeysByReferenceValueAsWritten(reference: seq<string>, value: string): seq<string>
  {
    KeysByReferenceValueAsWrittenFrom(reference, value, 0)
  }

  lemma {:induction false} AsWrittenFromValues(reference: seq<string>, value: string, i: nat)
    requires i <= |reference|
    ensures forall x :: x in KeysByReferenceValueAsWrittenFrom(reference, value, i) ==> x == value
    decreases |reference| - i
  {
    if i < |reference| {
      AsWrittenFromValues(reference, value, i + 1);
    }
  }

  /** As written, every element of the result is `value` itself: no key is ever reported. */
  lemma KeysByReferenceValueAsWrittenOnlyValues(reference: seq<string>, value: string)
    ensures forall x :: x in KeysByReferenceValueAsWritten(reference, value) ==> x == value
  {
    AsWrittenFromValues(reference, value, 0);
  }

  /** The reference `a=1` searched for the value `1` gives ["1"], where the key `a` was meant. */
  lemma KeysByReferenceValueCounterexample()
    ensures KeysByReferenceValueAsWritten(["a=1"], "1") == ["1"]
    ensures HasKey("a=1") && KeyOf("a=1") == "a" && ValueOf("a=1") == "1"
  {
    var line := "a=1";
    assert IndexOf(line, Separator) == 1;
    assert line[2..] == "1";
    assert RemoveChar("1", Separator) == "1" by {
      RemoveCharAbsent("1", Separator);
    }
    assert ValueOf(line) == "1";
    assert KeysByReferenceValueAsWrittenFrom([line], "1", 1) == [];
  }

  /** Every reference line whose value is `value` can be split for its key. */
  predicate MatchingLinesHaveKey(reference: seq<string>, value: string)
  {
    forall j :: 0 <= j < |reference| && ValueOf(reference[j]) == value ==> HasKey(reference[j])
  }

  function KeysByReferenceValueFrom(reference: seq<string>, value: string, i: nat): seq<string>
    requires i <= |reference| && MatchingLinesHaveKey(reference, value)
    decreases |reference| - i
  {
    if i == |reference| then []
    else
      var content := reference[i];
      (if ValueOf(content) == value then [KeyOf(content)] else []) + KeysByReferenceValueFrom(reference, value, i + 1)
  }

  /** getKeysByReferenceValue as intended: the keys of the reference lines whose value is `value`. */
  function KeysByReferenceValue(reference: seq<string>, value: string): seq<string>
    requires MatchingLinesHaveKey(reference, value)
  {
    KeysByReferenceValueFrom(reference, value, 0)
  }

  function ReferenceValueFilter(reference: seq<string>, value: string): nat -> bool
  {
    (j: nat) => j < |reference| && ValueOf(reference[j]) == value
  }

  function LineKeys(lines: seq<string>): nat -> string
  {
    (j: nat) => if j < |lines| && HasKey(lines[j]) then KeyOf(lines[j]) else ""
  }

  lemma {:induction false} KeysByReferenceValueFromSpec(reference: seq<string>, value: string, i: nat)
    requires i <= |reference| && MatchingLinesHaveKey(reference, value)
    ensures KeysByReferenceValueFrom(reference, value, i)
         == Collect(i, |reference|, ReferenceValueFilter(reference, value), LineKeys(reference))
    decreases |reference| - i
  {
    if i < |reference| {
      KeysByReferenceValueFromSpec(reference, value, i + 1);
      var p, f := ReferenceValueFilter(reference, value), LineKeys(reference);
      var line := reference[i];
      var head := if ValueOf(line) == value then [KeyOf(line)] else [];
      assert KeysByReferenceValueFrom(reference, value, i) == head + KeysByReferenceValueFrom(reference, value, i + 1);
      assert Collect(i, |reference|, p, f) == (if p(i) then [f(i)] else []) + Collect(i + 1, |reference|, p, f);
      assert p(i) == (ValueOf(line) == value);
      assert p(i) ==> f(i) == KeyOf(line);
      assert head == (if p(i) then [f(i)] else []);
    }
  }

  /**
   * The corrected getKeysByReferenceValue lists, in file order, the key of every reference line
   * whose value is `value`.
   */
  lemma KeysByReferenceValueSpec(reference: seq<string>, value: string)
    requires MatchingLinesHaveKey(reference, value)
    ensures var sel, r := Select(0, |reference|, ReferenceValueFilter(reference, value)),
                          KeysByReferenceValue(reference, value);
      && |r| == |sel|
      && forall n :: 0 <= n < |r| ==>
           ValueOf(reference[sel[n]]) == value && HasKey(reference[sel[n]]) && r[n] == KeyOf(reference[sel[n]])
  {
    KeysByReferenceValueFromSpec(reference, value, 0);
    CollectSpec(0, |reference|, ReferenceValueFilter(reference, value), LineKeys(reference));
  }

  // findAllByNameLikeAndReferenceValueLike, findAllByNameLike

  /** A search value was given: not null and not empty. */
  predicate Searching(valueToSearch: Option<string>)
  {
    valueToSearch.Some? && valueToSearch.value != []
  }

  /** The filter of the keys-to-translate branch. */
  predicate DiffMatches(d: PropertiesDifferent, name: string, valueToSearch: Option<string>)
  {
    if Searching(valueToSearch) then Contains(d.key, name) && ContainsIgnoreCase(d.originalValue, valueToSearch.value)
    else Contains(d.key, name)
  }

  function FilterDiffsFrom(ds: seq<PropertiesDifferent>, name: string, valueToSearch: Option<string>, i: nat)
    : seq<PropertiesDifferent>
    requires i <= |ds|
    decreases |ds| - i
  {
    if i == |ds| then []
    else (if DiffMatches(ds[i], name, valueToSearch) then [ds[i]] else []) + FilterDiffsFrom(ds, name, valueToSearch, i + 1)
  }

  /** The filter of the branch over the whole content. */
  predicate LineMatches(line: string, referenceValue: Option<string>, name: string, valueToSearch: Option<string>)
    requires HasKey(line)
  {
    var key := KeyOf(line);
    if Searching(valueToSearch) then
      Contains(key, name) && IsProperty(line) && ContainsIgnoreCase(referenceValue, valueToSearch.value)
    else Contains(key, name) && IsProperty(line)
  }

  /** getReferenceValueByKey on a reference whose lines all have a key; never asked otherwise. */
  function ReferenceLookup(reference: seq<string>): string -> Option<string>
  {
    (key: string) => if AllHaveKey(reference) then ReferenceValueByKey(reference, key) else None
  }

  /** The loop of findAllByNameLikeAndReferenceValueLike from line i, `oldKey` being the key of line i - 1. */
  function NameLikeFrom(
    content: seq<string>, m: LinkedMap, lookup: string -> Option<string>, name: string, valueToSearch: Option<string>,
    i: nat, oldKey: string): seq<PropertiesDifferent>
    requires AllHaveKey(content) && i <= |content|
    decreases |content| - i
  {
    if i == |content| then []
    else
      var line := content[i];
      var key := KeyOf(line);
      var referenceValue := lookup(key);
      (if LineMatches(line, referenceValue, name, valueToSearch) then
         [PropertiesDifferent(key, referenceValue, ValueOrEmpty(m, key), oldKey)]
       else [])
        + NameLikeFrom(content, m, lookup, name, valueToSearch, i + 1, key)
  }

  /**
   * findAllByNameLikeAndReferenceValueLike: either the keys to translate, or every property line,
   * whose key contains `name` (case-sensitive) and, when a search value is given, whose reference
   * value contains it ignoring case.
   */
  function AllByNameLikeAndReferenceValueLike(
    content: seq<string>, m: LinkedMap, reference: seq<string>, name: string, keysToTranslateOnly: bool,
    valueToSearch: Option<string>): seq<PropertiesDifferent>
    requires AllHaveKey(content) && (!keysToTranslateOnly && content != [] ==> AllHaveKey(reference))
  {
    if keysToTranslateOnly then FilterDiffsFrom(KeysToTranslate(content, m), name, valueToSearch, 0)
    else NameLikeFrom(content, m, ReferenceLookup(reference), name, valueToSearch, 0, "")
  }

  function DiffFilter(ds: seq<PropertiesDifferent>, name: string, valueToSearch: Option<string>): nat -> bool
  {
    (j: nat) => j < |ds| && DiffMatches(ds[j], name, valueToSearch)
  }

  function DiffAt(ds: seq<PropertiesDifferent>): nat -> PropertiesDifferent
  {
    (j: nat) => if j < |ds| then ds[j] else Blank()
  }

  lemma {:induction false} FilterDiffsFromSpec(ds: seq<PropertiesDifferent>, name: string, valueToSearch: Option<string>, i: nat)
    requires i <= |ds|
    ensures FilterDiffsFrom(ds, name, valueToSearch, i) == Collect(i, |ds|, DiffFilter(ds, name, valueToSearch), DiffAt(ds))
    decreases |ds| - i
  {
    if i < |ds| {
      FilterDiffsFromSpec(ds, name, valueToSearch, i + 1);
      CollectStep(i, |ds|, DiffFilter(ds, name, valueToSearch), DiffAt(ds));
    }
  }

  function NameLikeFilter(content: seq<string>, lookup: string -> Option<string>, name: string, valueToSearch: Option<string>)
    : nat -> bool
  {
    (j: nat) => j < |content| && HasKey(content[j])
      && LineMatches(content[j], lookup(KeyOf(content[j])), name, valueToSearch)
  }

  function NameLikeRecords(content: seq<string>, m: LinkedMap, lookup: string -> Option<string>): nat -> PropertiesDifferent
  {
    (j: nat) => if j < |content| && HasKey(content[j]) then
           var key := KeyOf(content[j]);
           PropertiesDifferent(key, lookup(key), ValueOrEmpty(m, key), PreviousLineKey(content, j))
         else Blank()
  }

  lemma {:induction false} NameLikeFromSpec(
    content: seq<string>, m: LinkedMap, lookup: string -> Option<string>, name: string, valueToSearch: Option<string>, i: nat)
    requires AllHaveKey(content) && i <= |content|
    ensures NameLikeFrom(content, m, lookup, name, valueToSearch, i, PreviousLineKey(content, i))
         == Collect(i, |content|, NameLikeFilter(content, lookup, name, valueToSearch), NameLikeRecords(content, m, lookup))
    decreases |content| - i
  {
    if i < |content| {
      NameLikeFromSpec(content, m, lookup, name, valueToSearch, i + 1);
      assert PreviousLineKey(content, i + 1) == KeyOf(content[i]);
      CollectStep(i, |content|, NameLikeFilter(content, lookup, name, valueToSearch), NameLikeRecords(content, m, lookup));
    }
  }

  /**
   * findAllByNameLikeAndReferenceValueLike: with `keysToTranslateOnly` it keeps, in order, the
   * records of findKeysToTranslate that match; otherwise it reports, in file order, every
   * matching property line as (key, last reference value or null, value in the map or "", key
   * of the line before).
   */
  lemma AllByNameLikeAndReferenceValueLikeSpec(
    content: seq<string>, m: LinkedMap, reference: seq<string>, name: string, keysToTranslateOnly: bool,
    valueToSearch: Option<string>)
    requires AllHaveKey(content) && (!keysToTranslateOnly && content != [] ==> AllHaveKey(reference))
    ensures var r := AllByNameLikeAndReferenceValueLike(content, m, reference, name, keysToTranslateOnly, valueToSearch);
      keysToTranslateOnly ==>
        var ds := KeysToTranslate(content, m);
        var sel := Select(0, |ds|, DiffFilter(ds, name, valueToSearch));
        && |r| == |sel|
        && forall n :: 0 <= n < |r| ==> r[n] == ds[sel[n]] && DiffMatches(r[n], name, valueToSearch)
    ensures var r := AllByNameLikeAndReferenceValueLike(content, m, reference, name, keysToTranslateOnly, valueToSearch);
      !keysToTranslateOnly ==>
        var sel := Select(0, |content|, NameLikeFilter(content, ReferenceLookup(reference), name, valueToSearch));
        && |r| == |sel|
        && forall n :: 0 <= n < |r| ==>
             var j := sel[n];
             && AllHaveKey(reference)
             && LineMatches(content[j], ReferenceValueByKey(reference, KeyOf(content[j])), name, valueToSearch)
             && r[n] == PropertiesDifferent(KeyOf(content[j]), ReferenceValueByKey(reference, KeyOf(content[j])),
                                            ValueOrEmpty(m, KeyOf(content[j])), PreviousLineKey(content, j))
  {
    if keysToTranslateOnly {
      var ds := KeysToTranslate(content, m);
      FilterDiffsFromSpec(ds, name, valueToSearch, 0);
      CollectSpec(0, |ds|, DiffFilter(ds, name, valueToSearch), DiffAt(ds));
    } else {
      var lookup := ReferenceLookup(reference);
      NameLikeFromSpec(content, m, lookup, name, valueToSearch, 0);
      CollectSpec(0, |content|, NameLikeFilter(content, lookup, name, valueToSearch), NameLikeRecords(content, m, lookup));
    }
  }

  /** findAllByNameLike: the same search without a value, so only the key is matched. */
  function AllByNameLike(
    content: seq<string>, m: LinkedMap, reference: seq<string>, name: string, keysToTranslateOnly: bool)
    : seq<PropertiesDifferent>
    requires AllHaveKey(content) && (!keysToTranslateOnly && content != [] ==> AllHaveKey(reference))
  {
    AllByNameLikeAndReferenceValueLike(content, m, reference, name, keysToTranslateOnly, None)
  }

  /** Without a search value, every record found has a key containing `name`, and nothing else is asked. */
  lemma AllByNameLikeSpec(
    content: seq<string>, m: LinkedMap, reference: seq<string>, name: string, keysToTranslateOnly: bool)
    requires AllHaveKey(content) && (!keysToTranslateOnly && content != [] ==> AllHaveKey(reference))
    ensures forall d :: d in AllByNameLike(content, m, reference, name, keysToTranslateOnly) ==> Contains(d.key, name)
    ensures keysToTranslateOnly ==>
      forall d :: d in KeysToTranslate(content, m) ==>
        (d in AllByNameLike(content, m, reference, name, keysToTranslateOnly) <==> Contains(d.key, name))
  {
    if keysToTranslateOnly {
      KeysToTranslateNameLike(KeysToTranslate(content, m), name);
    } else {
      LinesNameLike(content, m, ReferenceLookup(reference), name);
    }
  }

  /** Among the records to translate, those found without a search value are those whose key contains `name`. */
  lemma KeysToTranslateNameLike(ds: seq<PropertiesDifferent>, name: string)
    ensures var r := FilterDiffsFrom(ds, name, None, 0);
      && (forall d :: d in r ==> Contains(d.key, name))
      && forall d :: d in ds ==> (d in r <==> Contains(d.key, name))
  {
    FilterDiffsFromSpec(ds, name, None, 0);
    FoundNameLike(ds, name);
    KeptNameLike(ds, name);
  }

  /** Every record kept has a key containing `name`. */
  lemma FoundNameLike(ds: seq<PropertiesDifferent>, name: string)
    ensures forall d :: d in Collect(0, |ds|, DiffFilter(ds, name, None), DiffAt(ds)) ==> Contains(d.key, name)
  {
    var p, f := DiffFilter(ds, name, None), DiffAt(ds);
    var r := Collect(0, |ds|, p, f);
    CollectSpec(0, |ds|, p, f);
    var sel := Select(0, |ds|, p);
    forall d | d in r
      ensures Contains(d.key, name)
    {
      var n :| 0 <= n < |r| && r[n] == d;
      var j := sel[n];
      assert p(j) && j < |ds| && d == ds[j];
      assert DiffMatches(d, name, None);
    }
  }

  /** Every record whose key contains `name` is kept. */
  lemma KeptNameLike(ds: seq<PropertiesDifferent>, name: string)
    ensures forall d :: d in ds && Contains(d.key, name) ==> d in Collect(0, |ds|, DiffFilter(ds, name, None), DiffAt(ds))
  {
    var p, f := DiffFilter(ds, name, None), DiffAt(ds);
    forall d | d in ds && Contains(d.key, name)
      ensures d in Collect(0, |ds|, p, f)
    {
      var j :| 0 <= j < |ds| && ds[j] == d;
      assert DiffMatches(d, name, None);
      assert p(j) && f(j) == d;
      CollectHas(0, |ds|, p, f, j);
    }
  }

  /** Every record the search over the content finds without a search value has a key containing `name`. */
  lemma LinesNameLike(content: seq<string>, m: LinkedMap, lookup: string -> Option<string>, name: string)
    requires AllHaveKey(content)
    ensures forall d :: d in NameLikeFrom(content, m, lookup, name, None, 0, "") ==> Contains(d.key, name)
  {
    var r := NameLikeFrom(content, m, lookup, name, None, 0, "");
    var p, f := NameLikeFilter(content, lookup, name, None), NameLikeRecords(content, m, lookup);
    NameLikeFromSpec(content, m, lookup, name, None, 0);
    CollectSpec(0, |content|, p, f);
    var sel := Select(0, |content|, p);
    forall d | d in r
      ensures Contains(d.key, name)
    {
      var n :| 0 <= n < |r| && r[n] == d;
      var j := sel[n];
      assert p(j) && d == f(j);
      var line := content[j];
      assert HasKey(line) && d.key == KeyOf(line);
      assert LineMatches(line, lookup(KeyOf(line)), name, None);
    }
  }

  // findKeysByNameLike

  function KeysByNameLikeFrom(content: seq<string>, name: string, i: nat): seq<string>
    requires AllHaveKey(content) && i <= |content|
    decreases |content| - i
  {
    if i == |content| then []
    else
      var key := KeyOf(content[i]);
      (if ContainsIgnoreCase(Some(key), name) && IsProperty(content[i]) then [key] else [])
        + KeysByNameLikeFrom(content, name, i + 1)
  }

  /** findKeysByNameLike: the keys of the property lines that contain `name`, ignoring case. */
  function KeysByNameLike(content: seq<string>, name: string): seq<string>
    requires AllHaveKey(content)
  {
    KeysByNameLikeFrom(content, name, 0)
  }

  function KeyLikeFilter(content: seq<string>, name: string): nat -> bool
  {
    (j: nat) => j < |content| && IsProperty(content[j]) && ContainsIgnoreCase(Some(KeyOf(content[j])), name)
  }

  lemma {:induction false} KeysByNameLikeFromSpec(content: seq<string>, name: string, i: nat)
    requires AllHaveKey(content) && i <= |content|
    ensures KeysByNameLikeFrom(content, name, i) == Collect(i, |content|, KeyLikeFilter(content, name), LineKeys(content))
    decreases |content| - i
  {
    if i < |content| {
      KeysByNameLikeFromSpec(content, name, i + 1);
      KeysByNameLikeStep(content, name, i);
    }
  }

  /** One step of the walk: the key of line i, when it is reported, then the rest. */
  lemma KeysByNameLikeStep(content: seq<string>, name: string, i: nat)
    requires AllHaveKey(content) && i < |content|
    ensures var p, f := KeyLikeFilter(content, name), LineKeys(content);
      && KeysByNameLikeFrom(content, name, i) == (if p(i) then [f(i)] else []) + KeysByNameLikeFrom(content, name, i + 1)
      && Collect(i, |content|, p, f) == (if p(i) then [f(i)] else []) + Collect(i + 1, |content|, p, f)
  {
    var p, f := KeyLikeFilter(content, name), LineKeys(content);
    CollectStep(i, |content|, p, f);
    var key := KeyOf(content[i]);
    var tail := KeysByNameLikeFrom(content, name, i + 1);
    if ContainsIgnoreCase(Some(key), name) && IsProperty(content[i]) {
      assert p(i) && f(i) == key;
      assert KeysByNameLikeFrom(content, name, i) == [key] + tail;
    } else {
      assert !p(i);
      assert KeysByNameLikeFrom(content, name, i) == [] + tail;
    }
  }

  /** findKeysByNameLike lists, in file order, the key of every property line whose key contains `name` ignoring case. */
  lemma KeysByNameLikeSpec(content: seq<string>, name: string)
    requires AllHaveKey(content)
    ensures var sel, r := Select(0, |content|, KeyLikeFilter(content, name)), KeysByNameLike(content, name);
      && |r| == |sel|
      && forall n :: 0 <= n < |r| ==>
           IsProperty(content[sel[n]]) && r[n] == KeyOf(content[sel[n]]) && ContainsIgnoreCase(Some(r[n]), name)
  {
    KeysByNameLikeFromSpec(content, name, 0);
    CollectSpec(0, |content|, KeyLikeFilter(content, name), LineKeys(content));
  }
}
