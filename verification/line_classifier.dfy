/**
 * How a line of a property file is read: whether it is a `key=value` line (isProperties),
 * and the key and the value Java's `split("=")` gives for it (getKeyFromString,
 * getValueFromString), and how an edited line is written back (formContent).
 */
module LineClassifier {
  import opened JavaStrings

  /** PROPERTIES_SEPARATOR. */
  const Separator: char := '='

  /**
   * getKeyFromString can take element 0 of the split: the line is not made only of `=`
   * (such a line splits into the empty array and indexing it throws).
   */
  predicate HasKey(line: string)
  {
    !OnlyOf(line, Separator)
  }

  predicate AllHaveKey(lines: seq<string>)
  {
    forall i :: 0 <= i < |lines| ==> HasKey(lines[i])
  }

  /**
   * isProperties: after trimming, a line starting with `#`, `/-` or `=` is a comment or a
   * broken line; any other line is a property line exactly when it holds a `=`. The leading
   * characters at or below U+0020 are skipped one by one; IsPropertySpec below states the
   * same test on the trimmed line.
   */
  function IsProperty(line: string): (r: bool)
    ensures r ==> HasKey(line)
    decreases |line|
  {
    if line == [] then false
    else if line[0] <= ' ' then IsProperty(line[1..])
    else
      && line[0] != '#'
      && line[0] != Separator
      && !(line[0] == '/' && |line| >= 2 && line[1] == '-')
      && Separator in line
  }

  /**
   * getKeyFromString: the text before the first `=`. The source takes element 0 of
   * `line.split("=")`, which fails for a line made only of `=`; KeyOfSplit shows the two agree.
   */
  function KeyOf(line: string): string
    requires HasKey(line)
  {
    Before(line, Separator)
  }

  /** Element 0 of `line.split("=")` is the key, and a key holds no `=`. */
  lemma KeyOfSplit(line: string)
    requires HasKey(line)
    ensures Split(line, Separator) != [] && KeyOf(line) == Split(line, Separator)[0]
    ensures Separator !in KeyOf(line)
  {
    SplitFirst(line, Separator);
    BeforeFree(line, Separator);
  }

  /**
   * getValueFromString: the text after the first `=` with every further `=` deleted, and empty
   * for a line without `=` or made only of `=`. The source glues together the elements of
   * `line.split("=")` after the first; ValueOfSplit shows the two agree.
   */
  function ValueOf(line: string): string
  {
    After(line, Separator)
  }

  /** The elements of `line.split("=")` after the first, glued together, are the value; it holds no `=`. */
  lemma ValueOfSplit(line: string)
    ensures ValueOf(line) == Concat(Rest(Split(line, Separator)))
    ensures Separator !in ValueOf(line)
  {
    SplitRest(line, Separator);
    AfterFree(line, Separator);
  }

  /** formContent: the key alone for an empty value, `key=value` otherwise. */
  function FormContent(key: string, value: string): string
  {
    if value == [] then key else key + [Separator] + value
  }

  /** The keys of all lines, in order (getContentListKey, getReferenceContentListKey). */
  function ContentKeys(lines: seq<string>): (keys: seq<string>)
    requires AllHaveKey(lines)
    ensures |keys| == |lines|
    ensures forall i :: 0 <= i < |lines| ==> keys[i] == KeyOf(lines[i])
  {
    seq(|lines|, i requires 0 <= i < |lines| => KeyOf(lines[i]))
  }

  /** The position of the last line keyed `key` (lastIndexOf on getContentListKey), -1 if none. */
  function LastKeyed(content: seq<string>, key: string): (i: int)
    requires AllHaveKey(content)
    ensures -1 <= i < |content|
  {
    LastIndexOf(ContentKeys(content), key)
  }

  /** LastKeyed finds no line exactly when no line has the key, and otherwise the last line keyed `key`. */
  lemma LastKeyedSpec(content: seq<string>, key: string)
    requires AllHaveKey(content)
    ensures var i := LastKeyed(content, key);
      && (i == -1 <==> forall j :: 0 <= j < |content| ==> KeyOf(content[j]) != key)
      && (0 <= i ==> KeyOf(content[i]) == key && forall j :: i < j < |content| ==> KeyOf(content[j]) != key)
  {
    var keys := ContentKeys(content);
    var i := LastIndexOf(keys, key);
    assert forall j :: 0 <= j < |content| && KeyOf(content[j]) == key ==> key in keys;
    assert 0 <= i ==> forall j :: i < j < |content| ==> keys[j] in keys[i + 1..];
  }

  /** A line keyed `key` with no later line keyed `key` is the one LastKeyed finds. */
  lemma LastKeyedAt(content: seq<string>, key: string, i: nat)
    requires AllHaveKey(content) && i < |content| && KeyOf(content[i]) == key
    requires forall j :: i < j < |content| ==> KeyOf(content[j]) != key
    ensures LastKeyed(content, key) == i
  {
    LastKeyedSpec(content, key);
  }

  /** The scan stops at the first character above U+0020 and tests the line from there. */
  lemma {:induction false} SkipBlanks(line: string)
    ensures var n := LeadingBlanks(line);
      IsProperty(line) <==>
        && n < |line|
        && line[n] != '#'
        && line[n] != Separator
        && !(line[n] == '/' && n + 1 < |line| && line[n + 1] == '-')
        && Separator in line[n..]
    decreases |line|
  {
    if line != [] && line[0] <= ' ' {
      var rest := line[1..];
      SkipBlanks(rest);
      var n := LeadingBlanks(line);
      assert n == LeadingBlanks(rest) + 1;
      assert rest[n - 1..] == line[n..];
    }
  }

  /**
   * isProperties as written: the trimmed line must not start with `#`, `/-` or `=`, and must
   * contain `=`; since trimming never removes a `=`, that is the same as the line containing one.
   */
  lemma IsPropertySpec(line: string)
    ensures var t := Trim(line);
      IsProperty(line) <==>
        !StartsWith(t, "#") && !StartsWith(t, "/-") && !StartsWith(t, "=") && Separator in t
    ensures var t := Trim(line);
      IsProperty(line) <==>
        !StartsWith(t, "#") && !StartsWith(t, "/-") && !StartsWith(t, "=") && Separator in line
  {
    SkipBlanks(line);
    TrimKeeps(line);
    var n, m := LeadingBlanks(line), TrimmedEnd(line);
    var t := Trim(line);
    if n < |line| {
      assert n < m;
      assert t == line[n..m];
      assert StartsWith(t, "#") <==> line[n] == '#';
      assert StartsWith(t, "=") <==> line[n] == Separator;
      assert t[0] == line[n];
      if n + 1 < |line| && line[n + 1] == '-' {
        assert n + 1 < m;
      }
      if 2 <= |t| {
        assert t[1] == line[n + 1];
      }
      assert StartsWith(t, "/-") <==> 2 <= |t| && t[0] == '/' && t[1] == '-';
      SeparatorPastBlanks(line);
    } else {
      assert t == [];
    }
  }

  /** The leading blanks hold no `=`. */
  lemma SeparatorPastBlanks(line: string)
    ensures Separator in line[LeadingBlanks(line)..] <==> Separator in line
  {
    var n := LeadingBlanks(line);
    if Separator in line {
      var q :| 0 <= q < |line| && line[q] == Separator;
      assert n <= q && line[n..][q - n] == Separator;
    }
  }

  /** In a line with a `=`, the key and that `=` start the line. */
  lemma KeyThenSeparator(line: string)
    requires HasKey(line) && Separator in line
    ensures |KeyOf(line)| < |line| && line[..|KeyOf(line)| + 1] == KeyOf(line) + [Separator]
  {
    IndexOfSpec(line, Separator);
    var i := IndexOf(line, Separator);
    assert line[..i + 1] == line[..i] + [line[i]];
  }

  /**
   * Every property line has a key that is not blank and holds no `=`; a `=` follows it in
   * the line.
   */
  lemma PropertyKey(line: string)
    requires IsProperty(line)
    ensures KeyOf(line) != [] && Trim(KeyOf(line)) != []
    ensures Separator !in KeyOf(line)
    ensures |KeyOf(line)| < |line| && line[|KeyOf(line)|] == Separator
  {
    SkipBlanks(line);
    IndexOfSpec(line, Separator);
    BeforeFree(line, Separator);
    var n := LeadingBlanks(line);
    var i := IndexOf(line, Separator);
    assert n < i;
    var k := KeyOf(line);
    assert k[n] == line[n] && line[n] > ' ';
    TrimKeeps(k);
  }

  /**
   * A line written by formContent reads back as the key it was written with, and as the value
   * with its `=` characters deleted.
   */
  lemma FormContentRoundTrip(key: string, value: string)
    requires key != [] && Separator !in key
    ensures HasKey(FormContent(key, value))
    ensures KeyOf(FormContent(key, value)) == key
    ensures ValueOf(FormContent(key, value)) == RemoveChar(value, Separator)
  {
    var line := FormContent(key, value);
    assert line[0] == key[0] && key[0] != Separator;
    IndexOfSpec(line, Separator);
    if value != [] {
      assert line == key + [Separator] + value;
      assert line[..|key|] == key;
      IndexOfAt(line, Separator, |key|);
      assert line[|key| + 1..] == value;
    }
  }
}
