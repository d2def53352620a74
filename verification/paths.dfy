/**
 * File-name helpers: the locale read from a bundle's file name (getLocaleName) and the place
 * where an older version of a file is kept (getTempParentFolder, generateTempAbsolutePath).
 * The clock is not read here: the timestamp is a parameter.
 */
module Paths {
  import opened Wrappers
  import opened JavaStrings

  /** VERSIONING_TEMP_FOLDER_NAME. */
  const TempFolderName := "temp"

  /** The message of the exception getLocaleName throws when the name cannot be read. */
  const BadPathMessage := "There is a error in file path please check : "

  /**
   * getLocaleName(fileName): the name is cut at its dots and the first part at its underscores;
   * the second of those pieces is the locale, and there is none ("") for the default bundle. A
   * name made only of dots leaves nothing to cut, which the source reports as an exception.
   */
  function LocaleName(fileName: string): (r: Result<string, string>)
    ensures r.Failure? <==> OnlyOf(fileName, '.')
    ensures r.Success? ==> '_' !in r.value
  {
    SplitEmpty(fileName, '.');
    var step1 := Split(fileName, '.');
    if step1 == [] then Failure(BadPathMessage)
    else
      var step2 := Split(step1[0], '_');
      SplitPieces(step1[0], '_');
      if |step2| >= 2 then Success(step2[1]) else Success("")
  }

  /** Every element of split is free of the separator. */
  lemma SplitPieces(s: string, sep: char)
    ensures forall i :: 0 <= i < |Split(s, sep)| ==> sep !in Split(s, sep)[i]
  {
    if sep in s {
      var ps := Pieces(s, sep);
      PiecesFree(s, sep);
      DropTrailingEmptySpec(ps);
      var r := DropTrailingEmpty(ps);
      assert forall i :: 0 <= i < |r| ==> r[i] == ps[i];
    }
  }

  /** The text before the first `sep` of `a`, `sep`, `b` is `a` when `a` has no `sep`. */
  lemma BeforeAppend(a: string, sep: char, b: string)
    requires sep !in a
    ensures Before(a + [sep] + b, sep) == a
  {
    var s := a + [sep] + b;
    assert s[..|a|] == a;
    IndexOfAt(s, sep, |a|);
  }

  /** A name written `base_locale` followed by nothing or by `.extension` gives back its locale. */
  lemma LocaleNameOf(base: string, locale: string, ext: string)
    requires '.' !in base && '_' !in base
    requires '.' !in locale && '_' !in locale && locale != []
    requires ext == [] || ext[0] == '.'
    ensures LocaleName(base + "_" + locale + ext) == Success(locale)
  {
    var stem := base + "_" + locale;
    var s := stem + ext;
    assert s[|base|] == '_';
    SplitFirst(s, '.');
    if ext == [] {
      assert Before(s, '.') == stem;
    } else {
      assert s == stem + ['.'] + ext[1..];
      BeforeAppend(stem, '.', ext[1..]);
    }
    assert Split(s, '.')[0] == stem;
    assert stem == base + ['_'] + locale;
    assert stem[..|base|] == base;
    IndexOfAt(stem, '_', |base|);
    assert stem[|base| + 1..] == locale;
    IndexOfSpec(locale, '_');
    assert Pieces(locale, '_') == [locale];
    assert Pieces(stem, '_') == [base, locale];
  }

  /** A name with no underscore before its first dot is the default bundle: its locale is "". */
  lemma LocaleNameDefault(fileName: string)
    requires !OnlyOf(fileName, '.') && '_' !in Before(fileName, '.')
    ensures LocaleName(fileName) == Success("")
  {
    SplitFirst(fileName, '.');
  }

  /** getTempParentFolder: the folder `temp` inside the file's parent (printed "null" when there is none). */
  function TempParentFolder(parent: Option<string>): string
  {
    Render(parent) + "\\" + TempFolderName
  }

  /** A folder, a backslash and a name free of backslashes: the last backslash is the one added. */
  lemma LastSeparator(folder: string, name: string)
    requires '\\' !in name
    ensures var path := folder + "\\" + name;
      && LastIndexOf(path, '\\') == |folder|
      && path[..|folder|] == folder && path[|folder| + 1..] == name
  {
    var path := folder + "\\" + name;
    assert path[|folder|] == '\\';
    assert path[|folder| + 1..] == name;
  }

  /**
   * The temp folder read back as a path: up to its last backslash is the file's parent (as
   * rendered), after it the folder name `temp`.
   */
  lemma TempParentFolderParts(parent: Option<string>)
    ensures var r := TempParentFolder(parent);
      var k := LastIndexOf(r, '\\');
      && k == |Render(parent)|
      && r[..k] == Render(parent)
      && r[k + 1..] == TempFolderName
  {
    LastSeparator(Render(parent), TempFolderName);
  }

  /** The decimal digit `d` as a character. */
  function DigitChar(d: nat): (c: char)
    requires d < 10
    ensures '0' <= c <= '9'
  {
    ('0' as int + d) as char
  }

  predicate IsDigits(s: string)
  {
    forall i :: 0 <= i < |s| ==> '0' <= s[i] <= '9'
  }

  /** The decimal digits of `n`, most significant first. */
  function Digits(n: nat): (r: string)
    ensures r != [] && IsDigits(r)
    ensures |r| > 1 ==> r[0] != '0'
    decreases n
  {
    if n < 10 then [DigitChar(n)] else Digits(n / 10) + [DigitChar(n % 10)]
  }

  /** Long.toString: a minus sign for negative numbers, then the digits. */
  function DecimalString(n: int): (r: string)
    ensures r != []
    ensures forall i :: 0 <= i < |r| ==> r[i] == '-' || '0' <= r[i] <= '9'
  {
    if n < 0 then "-" + Digits(-n) else Digits(n)
  }

  /** The number a run of decimal digits stands for. */
  function DigitsValue(s: string): nat
    requires IsDigits(s)
    decreases |s|
  {
    if s == [] then 0
    else DigitsValue(s[..|s| - 1]) * 10 + (s[|s| - 1] as int - '0' as int)
  }

  /** Long.parseLong on the strings it accepts: an optional minus sign then at least one digit. */
  function ParseDecimal(s: string): Option<int>
  {
    if s != [] && s[0] == '-' && |s| > 1 && IsDigits(s[1..]) then Some(0 - DigitsValue(s[1..]))
    else if s != [] && IsDigits(s) then Some(DigitsValue(s))
    else None
  }

  lemma {:induction false} DigitsRoundTrip(n: nat)
    ensures DigitsValue(Digits(n)) == n
    decreases n
  {
    if n >= 10 {
      DigitsRoundTrip(n / 10);
      var r := Digits(n);
      assert r[..|r| - 1] == Digits(n / 10);
    }
  }

  /** The timestamp written in a temp file name reads back as the same number. */
  lemma DecimalRoundTrip(n: int)
    ensures ParseDecimal(DecimalString(n)) == Some(n)
  {
    var s := DecimalString(n);
    if n < 0 {
      DigitsRoundTrip(-n);
      var d := Digits(-n);
      assert s == "-" + d && s[1..] == d;
      assert ParseDecimal(s) == Some(0 - DigitsValue(d));
    } else {
      DigitsRoundTrip(n);
      assert s == Digits(n) && '0' <= s[0] <= '9';
      assert ParseDecimal(s) == Some(DigitsValue(s));
    }
  }

  /**
   * generateTempAbsolutePath(currentFile) with the clock reading `timestamp`: inside the temp
   * folder, the file's name up to its first dot, an underscore, the timestamp and `.properties`.
   * A name made only of dots has no first element to take, which throws in the source.
   */
  function GenerateTempAbsolutePath(name: string, parent: Option<string>, timestamp: int): (r: Result<string, string>)
    ensures r.Failure? <==> OnlyOf(name, '.')
    ensures r.Success? ==>
      r.value == TempParentFolder(parent) + "\\" + Before(name, '.') + "_" + DecimalString(timestamp) + ".properties"
  {
    SplitEmpty(name, '.');
    var step1 := Split(name, '.');
    if step1 == [] then Failure("ArrayIndexOutOfBoundsException")
    else
      SplitFirst(name, '.');
      Success(TempParentFolder(parent) + "\\" + step1[0] + "_" + DecimalString(timestamp) + ".properties")
  }

  /** The name up to its first dot keeps no dot and no character the name does not have. */
  lemma BeforeWithout(name: string, sep: char, c: char)
    requires c !in name
    ensures sep !in Before(name, sep) && c !in Before(name, sep)
  {
    IndexOfSpec(name, sep);
    var i := IndexOf(name, sep);
    if i != -1 {
      assert forall q :: 0 <= q < i ==> Before(name, sep)[q] == name[q];
    }
  }

  /** A stem without dots followed by `.properties`: reading up to the first dot gives the stem back. */
  lemma PropertiesStem(stem: string)
    requires '.' !in stem
    ensures Before(stem + ".properties", '.') == stem
  {
    assert stem + ".properties" == stem + ['.'] + "properties";
    BeforeAppend(stem, '.', "properties");
  }

  /**
   * The temp path splits into the temp folder and a file name; read up to its first dot, that
   * file name is the original name up to its first dot, an underscore and a number that reads
   * back as the timestamp, so it keeps no other dot or backslash of the original name.
   */
  lemma TempPathParts(name: string, parent: Option<string>, timestamp: int) returns (fileName: string)
    requires !OnlyOf(name, '.') && '\\' !in name
    ensures GenerateTempAbsolutePath(name, parent, timestamp) == Success(TempParentFolder(parent) + "\\" + fileName)
    ensures '\\' !in fileName
    ensures Before(fileName, '.') == Before(name, '.') + "_" + DecimalString(timestamp)
    ensures ParseDecimal(Before(fileName, '.')[|Before(name, '.')| + 1..]) == Some(timestamp)
  {
    var base := Before(name, '.');
    var digits := DecimalString(timestamp);
    var stem := base + "_" + digits;
    fileName := stem + ".properties";
    BeforeWithout(name, '.', '\\');
    assert '.' !in stem && '\\' !in stem;
    PropertiesStem(stem);
    assert stem[|base| + 1..] == digits;
    DecimalRoundTrip(timestamp);
    assert '\\' !in fileName;
    var folder := TempParentFolder(parent) + "\\";
    Regroup(folder, base, "_", digits, ".properties");
    assert GenerateTempAbsolutePath(name, parent, timestamp).value == folder + base + "_" + digits + ".properties";
  }

  lemma Regroup(a: string, b: string, c: string, d: string, e: string)
    ensures a + b + c + d + e == a + (b + c + d + e)
  {
  }
}
