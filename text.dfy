/** The handful of Python string operations the application relies on,
    written out over `string` (a sequence of characters): `startswith`,
    `find`/`rfind`, `split(sep)`, `strip()`, and ASCII `lower()`/`upper()`. */
module Text {

  datatype Option<T> = None | Some(value: T)

  /** `s.startswith(p)` */
  predicate IsPrefix(p: string, s: string) {
    |p| <= |s| && s[..|p|] == p
  }

  /** The index of the first occurrence of `c` in `s` (`s.find(c)`). */
  function FirstIndex(s: string, c: char): (r: Option<nat>)
    ensures r.None? <==> c !in s
    ensures r.Some? ==> r.value < |s| && s[r.value] == c && c !in s[..r.value]
  {
    if s == [] then None
    else if s[0] == c then Some(0)
    else
      match FirstIndex(s[1..], c)
      case None => None
      case Some(i) =>
        assert s[..i + 1] == [s[0]] + s[1..][..i];
        Some(i + 1)
  }

  /** The index of the last occurrence of `c` in `s` (`s.rfind(c)`). */
  function LastIndex(s: string, c: char): (r: Option<nat>)
    ensures r.None? <==> c !in s
    ensures r.Some? ==> r.value < |s| && s[r.value] == c && c !in s[r.value + 1..]
  {
    if s == [] then None
    else if s[|s| - 1] == c then Some(|s| - 1)
    else
      match LastIndex(s[..|s| - 1], c)
      case None =>
        assert s == s[..|s| - 1] + [s[|s| - 1]];
        None
      case Some(i) =>
        assert s[i + 1..] == s[..|s| - 1][i + 1..] + [s[|s| - 1]];
        Some(i)
  }

  /** `s.split(sep)`: the fields between the occurrences of `sep`. */
  function Split(s: string, sep: char): (fields: seq<string>)
    ensures |fields| >= 1
    ensures forall i :: 0 <= i < |fields| ==> sep !in fields[i]
    decreases |s|
  {
    match FirstIndex(s, sep)
    case None => [s]
    case Some(i) => [s[..i]] + Split(s[i + 1..], sep)
  }

  /** A split has one more field than the string has separators. */
  lemma {:induction false} SplitCount(s: string, sep: char)
    ensures |Split(s, sep)| == multiset(s)[sep] + 1
    decreases |s|
  {
    match FirstIndex(s, sep)
    case None =>
    case Some(i) =>
      SplitCount(s[i + 1..], sep);
      assert s == s[..i] + [sep] + s[i + 1..];
      assert multiset(s[..i])[sep] == 0;
  }

  /** `sep.join(fields)`, the inverse of `Split`. */
  function Join(fields: seq<string>, sep: char): string
    requires |fields| >= 1
  {
    if |fields| == 1 then fields[0] else fields[0] + [sep] + Join(fields[1..], sep)
  }

  lemma {:induction false} JoinSplit(s: string, sep: char)
    ensures Join(Split(s, sep), sep) == s
    decreases |s|
  {
    match FirstIndex(s, sep)
    case None =>
    case Some(i) =>
      var rest := Split(s[i + 1..], sep);
      assert Split(s, sep) == [s[..i]] + rest;
      JoinSplit(s[i + 1..], sep);
      calc {
        Join(Split(s, sep), sep);
        s[..i] + [sep] + Join(rest, sep);
        s[..i] + [sep] + s[i + 1..];
        s;
      }
  }

  /** The first separator of `a + [sep] + b` is the one after `a` when `a` has none. */
  lemma FirstIndexAfter(a: string, sep: char, b: string)
    requires sep !in a
    ensures FirstIndex(a + [sep] + b, sep) == Some(|a|)
  {
    var s := a + [sep] + b;
    assert s[|a|] == sep;
  }

  lemma {:induction false} SplitJoin(fields: seq<string>, sep: char)
    requires |fields| >= 1
    requires forall i :: 0 <= i < |fields| ==> sep !in fields[i]
    ensures Split(Join(fields, sep), sep) == fields
  {
    if |fields| > 1 {
      var rest := Join(fields[1..], sep);
      var s := fields[0] + [sep] + rest;
      assert Join(fields, sep) == s;
      FirstIndexAfter(fields[0], sep, rest);
      assert s[..|fields[0]|] == fields[0];
      assert s[|fields[0]| + 1..] == rest;
      SplitJoin(fields[1..], sep);
      calc {
        Split(s, sep);
        [s[..|fields[0]|]] + Split(s[|fields[0]| + 1..], sep);
        [fields[0]] + fields[1..];
        fields;
      }
    } else {
      assert FirstIndex(fields[0], sep).None?;
    }
  }

  /** The characters for which Python's `str.isspace()` holds. */
  predicate IsSpace(c: char) {
    c in {' ', '\t', '\n', '\r', '\U{B}', '\U{C}', '\U{1C}', '\U{1D}', '\U{1E}', '\U{1F}',
          '\U{85}', '\U{A0}', '\U{1680}', '\U{2000}', '\U{2001}', '\U{2002}', '\U{2003}',
          '\U{2004}', '\U{2005}', '\U{2006}', '\U{2007}', '\U{2008}', '\U{2009}', '\U{200A}',
          '\U{2028}', '\U{2029}', '\U{202F}', '\U{205F}', '\U{3000}'}
  }

  function StripLeft(s: string): (r: string)
    ensures |r| <= |s|
    decreases |s|
  {
    if s != [] && IsSpace(s[0]) then StripLeft(s[1..]) else s
  }

  function StripRight(s: string): (r: string)
    ensures |r| <= |s|
    decreases |s|
  {
    if s != [] && IsSpace(s[|s| - 1]) then StripRight(s[..|s| - 1]) else s
  }

  /** `s.strip()`: leading and trailing whitespace removed. */
  function Strip(s: string): string {
    StripLeft(StripRight(s))
  }

  /** Stripping a string that starts and ends with non-whitespace, followed by
      one line terminator, gives back the string. */
  lemma StripLine(s: string)
    requires s != [] && !IsSpace(s[0]) && !IsSpace(s[|s| - 1])
    ensures Strip(s + "\n") == s
  {
    assert (s + "\n")[..|s + "\n"| - 1] == s;
    assert StripRight(s + "\n") == StripRight(s) == s;
  }

  predicate IsAsciiDigit(c: char) {
    '0' <= c <= '9'
  }

  function LowerChar(c: char): char {
    if 'A' <= c <= 'Z' then (c as int - 'A' as int + 'a' as int) as char else c
  }

  function UpperChar(c: char): char {
    if 'a' <= c <= 'z' then (c as int - 'a' as int + 'A' as int) as char else c
  }

  /** `s.lower()` on ASCII letters. */
  function Lower(s: string): (r: string)
    ensures |r| == |s|
  {
    seq(|s|, i requires 0 <= i < |s| => LowerChar(s[i]))
  }

  /** `s.upper()` on ASCII letters. */
  function Upper(s: string): (r: string)
    ensures |r| == |s|
  {
    seq(|s|, i requires 0 <= i < |s| => UpperChar(s[i]))
  }
}
