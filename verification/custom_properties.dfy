/**
 * The CustomProperties object: a property file to write (`properties`, the duplicate maps and
 * `oldContent`) laid out on the line structure of a reference file (`contentList`,
 * `referenceContentList`). Its methods change these fields in place; the functions of the
 * other modules say what each method leaves in them.
 */
module PropertiesFile {
  import opened Wrappers
  import opened JavaStrings
  import opened LineClassifier
  import opened LinkedMaps
  import opened Codec
  import opened TargetParse
  import opened Reconciliation
  import opened Editor
  import opened Queries
  import opened Writer

  class CustomProperties {
    /** The lines to write, one per reference line. */
    var contentList: seq<string>
    /** The reference file's lines, as read. */
    var referenceContentList: seq<string>
    /** The file to write, as read, for versioning. */
    var oldContent: string
    /** The LinkedHashMap of the file to write. */
    var properties: LinkedMap
    /** How many property lines each duplicated key has. */
    var duplicatedKeys: map<string, int>
    /** The values of each duplicated key, a deque with the last value at the head. */
    var duplicatedValues: map<string, seq<string>>

    /**
     * The map's order lists each key once, and a duplicated key is a key of the map that has
     * a deque (so loadContent can poll it).
     */
    ghost predicate Valid()
      reads this
    {
      && properties.Valid()
      && duplicatedKeys.Keys <= properties.entries.Keys
      && duplicatedKeys.Keys <= duplicatedValues.Keys
    }

    /** The fields loadProperties fills, as one value. */
    function Loaded(): Target
      reads this
    {
      Target(properties, duplicatedKeys, duplicatedValues, oldContent)
    }

    /** The fields loadContent fills, as one value. */
    function Replaying(): Replay
      reads this
    {
      Replay(contentList, referenceContentList, duplicatedValues)
    }

    /**
     * What initialize leaves, for the file to write `target` and the reference `reference`:
     * the maps and `oldContent` are those of reading `target`; the reference is kept as read;
     * the content has one line per reference line, the one Reconciled describes.
     */
    ghost predicate Initialized(target: seq<string>, reference: seq<string>)
      reads this
      requires AllHaveKey(target)
    {
      var t := LoadAll(target);
      && properties == t.properties
      && duplicatedKeys == t.duplicatedKeys
      && oldContent == Terminated(target)
      && referenceContentList == reference
      && |contentList| == |reference|
      && forall j :: 0 <= j < |reference| ==> contentList[j] == Reconciled(target, reference, j)
    }

    /** new CustomProperties(file, structureReferenceFile), the files given as their lines. */
    constructor(target: seq<string>, reference: seq<string>)
      requires AllHaveKey(target)
      ensures Valid() && Initialized(target, reference)
      ensures InFirstLineOrder(properties, target)
    {
      contentList := [];
      referenceContentList := [];
      oldContent := [];
      properties := Empty();
      duplicatedKeys := map[];
      duplicatedValues := map[];
      new;
      Initialize(target, reference);
    }

    /**
     * initialize (and refresh): every line of the file to write goes through loadProperties,
     * then every line of the reference through loadContent.
     */
    method Initialize(target: seq<string>, reference: seq<string>)
      modifies this
      requires AllHaveKey(target)
      ensures Valid() && Initialized(target, reference)
      ensures InFirstLineOrder(properties, target)
    {
      contentList := [];
      referenceContentList := [];
      oldContent := [];
      properties := Empty();
      duplicatedKeys := map[];
      duplicatedValues := map[];
      var i := 0;
      while i < |target|
        invariant i <= |target|
        invariant Loaded() == LoadAll(target[..i])
        invariant contentList == [] && referenceContentList == []
      {
        assert target[..i + 1][..i] == target[..i];
        LoadProperties(target[i]);
        i := i + 1;
      }
      assert target[..i] == target;
      var t := LoadAll(target);
      LoadedKeys(target);
      LoadAllOldContent(target);
      LoadAllOrder(target);
      var start := Replay([], [], t.duplicatedValues);
      i := 0;
      while i < |reference|
        invariant i <= |reference|
        invariant properties == t.properties && duplicatedKeys == t.duplicatedKeys && oldContent == t.oldContent
        invariant Replaying() == ReplayAll(t.properties, t.duplicatedKeys, start, reference[..i])
      {
        assert reference[..i + 1][..i] == reference[..i];
        LoadContent(reference[i]);
        i := i + 1;
      }
      assert reference[..i] == reference;
      LoadThenReplay(target, reference);
    }

    /**
     * loadProperties(line): the line is kept in `oldContent`; a property line puts its value
     * in the map, and a key already there is counted again and its value pushed on its deque
     * (which starts with the value the map held).
     */
    method LoadProperties(line: string)
      modifies this
      requires properties.Valid() && HasKey(line)
      ensures Loaded() == LoadLine(old(Loaded()), line)
      ensures contentList == old(contentList) && referenceContentList == old(referenceContentList)
    {
      var key := KeyOf(line);
      var value := GetValueFromString(line);
      var kept := Loaded().(oldContent := oldContent + line + "\n");
      var r := kept;
      if IsProperty(line) {
        var map_, counts, deques := properties, duplicatedKeys, duplicatedValues;
        if key in map_.entries {
          var count := if key in counts then counts[key] else 1;
          counts := counts[key := count + 1];
          if key in deques {
            deques := deques[key := [value] + deques[key]];
          } else {
            deques := deques[key := [value, map_.entries[key]]];
          }
        }
        map_ := map_.Put(key, value);
        r := Target(map_, counts, deques, kept.oldContent);
        assert r == Record(kept, key, value);
      }
      assert r == LoadLine(Loaded(), line);
      oldContent, properties, duplicatedKeys, duplicatedValues := r.oldContent, r.properties, r.duplicatedKeys, r.duplicatedValues;
    }

    /**
     * loadContent(line): a property line whose key the map holds gets the map's value, or,
     * for a duplicated key, the value polled from the tail of its deque; any other line is
     * copied. The line itself is kept in `referenceContentList`.
     */
    method LoadContent(line: string)
      modifies this
      requires duplicatedKeys.Keys <= duplicatedValues.Keys
      ensures Replaying() == ReplayLine(old(properties), old(duplicatedKeys), old(Replaying()), line)
      ensures properties == old(properties) && duplicatedKeys == old(duplicatedKeys) && oldContent == old(oldContent)
    {
      if IsProperty(line) && KeyOf(line) in properties.entries {
        var key := KeyOf(line);
        if key in duplicatedKeys {
          var deque := duplicatedValues[key];
          var value := if deque == [] then None else Some(deque[|deque| - 1]);
          duplicatedValues := duplicatedValues[key := if deque == [] then deque else deque[..|deque| - 1]];
          contentList := contentList + [key + "=" + Render(value)];
        } else {
          contentList := contentList + [key + "=" + properties.entries[key]];
        }
      } else {
        contentList := contentList + [line];
      }
      referenceContentList := referenceContentList + [line];
    }

    /** getContentListKey: the key of every line of the content, in order. */
    method GetContentListKey() returns (keys: seq<string>)
      requires AllHaveKey(contentList)
      ensures keys == ContentKeys(contentList)
    {
      keys := [];
      var i := 0;
      while i < |contentList|
        invariant i <= |contentList|
        invariant keys == ContentKeys(contentList[..i])
      {
        keys := keys + [KeyOf(contentList[i])];
        i := i + 1;
        assert contentList[..i][..i - 1] == contentList[..i - 1];
      }
      assert contentList[..i] == contentList;
    }

    /** getReferenceContentListKey: the key of every line of the reference, in order. */
    method GetReferenceContentListKey() returns (keys: seq<string>)
      requires AllHaveKey(referenceContentList)
      ensures keys == ContentKeys(referenceContentList)
    {
      keys := [];
      var i := 0;
      while i < |referenceContentList|
        invariant i <= |referenceContentList|
        invariant keys == ContentKeys(referenceContentList[..i])
      {
        keys := keys + [KeyOf(referenceContentList[i])];
        i := i + 1;
        assert referenceContentList[..i][..i - 1] == referenceContentList[..i - 1];
      }
      assert referenceContentList[..i] == referenceContentList;
    }

    /**
     * insertOrUpdate(referenceKey, key, value), None standing for null: nothing happens without
     * a non-empty value; otherwise the last line keyed `key` is rewritten, or a line is inserted
     * after the last line keyed `referenceKey`, and the map binds `key` to `value`.
     */
    method InsertOrUpdate(referenceKey: string, key: string, value: Option<string>) returns (ok: bool)
      modifies this
      requires Valid() && (value.Some? && value.value != [] ==> AllHaveKey(contentList))
      ensures Valid()
      ensures ok <==> value.Some? && value.value != []
      ensures ok ==> contentList == InsertOrUpdateContent(old(contentList), referenceKey, key, value.value)
      ensures ok ==> properties == old(properties).Put(key, value.value)
      ensures !ok ==> contentList == old(contentList) && properties == old(properties)
      ensures referenceContentList == old(referenceContentList) && oldContent == old(oldContent)
      ensures duplicatedKeys == old(duplicatedKeys) && duplicatedValues == old(duplicatedValues)
    {
      if value.Some? && value.value != [] {
        var keyList := GetContentListKey();
        var index := LastIndexOf(keyList, key);
        if index != -1 {
          ModifyByKey(index, key, value.value);
        } else {
          var indexToInsert := LastIndexOf(keyList, referenceKey) + 1;
          InsertContentByLineNumber(indexToInsert, key, value.value);
        }
        ok := true;
      } else {
        ok := false;
      }
    }

    /** insertContentByLineNumber: the line `key=value` goes to position `lineNumber`, and the map binds `key`. */
    method InsertContentByLineNumber(lineNumber: nat, key: string, value: string)
      modifies this
      requires Valid() && lineNumber <= |contentList|
      ensures Valid()
      ensures contentList == InsertAt(old(contentList), lineNumber, FormContent(key, value))
      ensures properties == old(properties).Put(key, value)
      ensures referenceContentList == old(referenceContentList) && oldContent == old(oldContent)
      ensures duplicatedKeys == old(duplicatedKeys) && duplicatedValues == old(duplicatedValues)
    {
      var content := FormContent(key, value);
      contentList := contentList[..lineNumber] + [content] + contentList[lineNumber..];
      InsertOrUpdatePropertiesMap(key, value);
    }

    /**
     * insertOrUpdatePropertiesMap: replace on a key already there, put otherwise; either way the
     * map is the LinkedHashMap put, which keeps the place of a key already there.
     */
    method InsertOrUpdatePropertiesMap(key: string, value: string)
      modifies this
      requires Valid()
      ensures Valid()
      ensures properties == old(properties).Put(key, value)
      ensures contentList == old(contentList) && referenceContentList == old(referenceContentList)
      ensures oldContent == old(oldContent)
      ensures duplicatedKeys == old(duplicatedKeys) && duplicatedValues == old(duplicatedValues)
    {
      if key in properties.entries {
        properties := LinkedMap(properties.keys, properties.entries[key := value]);
      } else {
        properties := properties.Put(key, value);
      }
    }

    /** modifyByKey(index, key, newValue): line `index` becomes `key=newValue`, and the map binds `key`. */
    method ModifyByKey(indexToModify: nat, key: string, newValue: string)
      modifies this
      requires Valid() && indexToModify < |contentList|
      ensures Valid()
      ensures contentList == old(contentList)[indexToModify := FormContent(key, newValue)]
      ensures properties == old(properties).Put(key, newValue)
      ensures referenceContentList == old(referenceContentList) && oldContent == old(oldContent)
      ensures duplicatedKeys == old(duplicatedKeys) && duplicatedValues == old(duplicatedValues)
    {
      var content := FormContent(key, newValue);
      contentList := contentList[indexToModify := content];
      InsertOrUpdatePropertiesMap(key, newValue);
    }

    /**
     * iAmChinesePropertiesFile: walking the content, every property line asks for `key=key`.
     * The edits land on lines still ahead or on the line itself, so the walk reads the content
     * as it is being rewritten; it ends on the content and the map the visit functions describe.
     */
    method IAmChinesePropertiesFile()
      modifies this
      requires Valid() && AllHaveKey(contentList)
      ensures Valid()
      ensures contentList == ChineseContent(old(contentList), |old(contentList)|)
      ensures properties == ChineseProps(old(properties), old(contentList))
      ensures referenceContentList == old(referenceContentList) && oldContent == old(oldContent)
      ensures duplicatedKeys == old(duplicatedKeys) && duplicatedValues == old(duplicatedValues)
    {
      ghost var lines, props := contentList, properties;
      assert contentList == ChineseContent(lines, 0);
      var oldKey := "";
      var i := 0;
      while i < |contentList|
        invariant i <= |lines| == |contentList|
        invariant contentList == ChineseContent(lines, i)
        invariant properties == ChineseProps(props, lines[..i])
        invariant Valid()
        invariant referenceContentList == old(referenceContentList) && oldContent == old(oldContent)
        invariant duplicatedKeys == old(duplicatedKeys) && duplicatedValues == old(duplicatedValues)
      {
        ChineseStep(lines, props, i, oldKey);
        var content := contentList[i];
        var key := KeyOf(content);
        if IsProperty(content) {
          var _ := InsertOrUpdate(oldKey, key, Some(key));
        }
        oldKey := key;
        i := i + 1;
      }
      assert lines[..i] == lines;
    }

    /**
     * writeContentAsString: every line of the content, escaped and followed by a line feed,
     * except the property lines whose key left the map.
     */
    method WriteContentAsString() returns (s: string)
      ensures s == WriteContent(contentList, properties)
    {
      s := WriteLines(contentList, properties);
    }

    /** getValueFromString(content): the pieces of the split after the first, glued together. */
    static method GetValueFromString(content: string) returns (value: string)
      ensures value == ValueOf(content)
    {
      ValueOfSplit(content);
      var splited := Split(content, Separator);
      value := [];
      var i := 1;
      while i < |splited|
        invariant 1 <= i
        invariant |splited| >= 1 ==> i <= |splited| && value == Concat(splited[1..i])
        invariant |splited| == 0 ==> value == []
      {
        assert splited[1..i + 1] == splited[1..i] + [splited[i]];
        ConcatAppend(splited[1..i], [splited[i]]);
        assert Concat([splited[i]]) == splited[i] + Concat([]);
        value := value + splited[i];
        i := i + 1;
      }
      if |splited| >= 1 {
        assert splited[1..i] == Rest(splited);
      }
    }
  }
}
