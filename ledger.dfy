/** The per-class attendance file `Attendance_<class>.csv`: one line
    `NAME,YYYY-MM-DD HH:MM:SS` per person, appended by `mark_attendance` only
    when the name is not yet the first field of a line, and read back by
    `attendance_data` as (name, time) pairs.  The file is the sequence of
    its lines, each without its "\n" terminator; the clock is a parameter. */
module Ledger {
  import opened Text

  type Year = y: int | 1000 <= y <= 9999 witness 1000
  type Month = m: int | 1 <= m <= 12 witness 1
  type Day = d: int | 1 <= d <= 31 witness 1
  type Hour = h: int | 0 <= h <= 23
  type Minute = m: int | 0 <= m <= 59
  type Second = s: int | 0 <= s <= 59

  /** The value `datetime.now()` returns, to the second. */
  datatype DateTime = DateTime(year: Year, month: Month, day: Day, hour: Hour, minute: Minute, second: Second)

  function Digit(d: int): (c: char)
    requires 0 <= d <= 9
    ensures IsAsciiDigit(c) && c as int - '0' as int == d
  {
    (d + '0' as int) as char
  }

  /** Two decimal digits, zero-padded (`%m`, `%d`, `%H`, `%M`, `%S`). */
  function Pad2(n: int): string
    requires 0 <= n <= 99
  {
    [Digit(n / 10), Digit(n % 10)]
  }

  /** The value of a string of decimal digits. */
  function DigitsValue(s: string): int {
    if s == [] then 0 else 10 * DigitsValue(s[..|s| - 1]) + (s[|s| - 1] as int - '0' as int)
  }

  lemma Pad2Value(n: int)
    requires 0 <= n <= 99
    ensures DigitsValue(Pad2(n)) == n
  {
    var s := Pad2(n);
    assert s[..1] == [Digit(n / 10)] && s[..1][..0] == [];
    assert DigitsValue(s[..1]) == n / 10;
  }

  /** `now.strftime('%Y-%m-%d %H:%M:%S')` for a four-digit year. */
  function Timestamp(t: DateTime): (s: string)
    ensures |s| == 19
    ensures ',' !in s
    ensures IsAsciiDigit(s[0]) && IsAsciiDigit(s[18])
  {
    Pad2(t.year / 100) + Pad2(t.year % 100) + "-" + Pad2(t.month) + "-" + Pad2(t.day) + " "
      + Pad2(t.hour) + ":" + Pad2(t.minute) + ":" + Pad2(t.second)
  }

  /** Distinct instants (to the second) give distinct timestamps. */
  lemma TimestampInjective(t: DateTime, u: DateTime)
    requires Timestamp(t) == Timestamp(u)
    ensures t == u
  {
    var s := Timestamp(t);
    assert s[0..2] == Pad2(t.year / 100) && s[2..4] == Pad2(t.year % 100);
    assert s[5..7] == Pad2(t.month) && s[8..10] == Pad2(t.day);
    assert s[11..13] == Pad2(t.hour) && s[14..16] == Pad2(t.minute) && s[17..19] == Pad2(t.second);
    var s' := Timestamp(u);
    assert s'[0..2] == Pad2(u.year / 100) && s'[2..4] == Pad2(u.year % 100);
    assert s'[5..7] == Pad2(u.month) && s'[8..10] == Pad2(u.day);
    assert s'[11..13] == Pad2(u.hour) && s'[14..16] == Pad2(u.minute) && s'[17..19] == Pad2(u.second);
    Pad2Value(t.year / 100); Pad2Value(u.year / 100);
    Pad2Value(t.year % 100); Pad2Value(u.year % 100);
    Pad2Value(t.month); Pad2Value(u.month);
    Pad2Value(t.day); Pad2Value(u.day);
    Pad2Value(t.hour); Pad2Value(u.hour);
    Pad2Value(t.minute); Pad2Value(u.minute);
    Pad2Value(t.second); Pad2Value(u.second);
  }

  /** The line `mark_attendance` writes: `f'{name},{dt_string}'`. */
  function RecordLine(name: string, ts: string): (line: string)
    ensures |line| == |name| + 1 + |ts|
    ensures line[..|name|] == name && line[|name|] == ',' && line[|name| + 1..] == ts
  {
    name + "," + ts
  }

  /** `line.split(',')[0]` for a line as `readlines` returns it, terminator included. */
  function NameKey(line: string): (key: string)
    ensures ',' !in key && IsPrefix(key, line + "\n")
    ensures |key| < |line| + 1 ==> (line + "\n")[|key|] == ','
  {
    Split(line + "\n", ',')[0]
  }

  /** `name_list`: the first field of every line, in file order. */
  function NameList(lines: seq<string>): seq<string> {
    seq(|lines|, i requires 0 <= i < |lines| => NameKey(lines[i]))
  }

  /** `name in name_list` */
  predicate Recorded(lines: seq<string>, name: string) {
    name in NameList(lines)
  }

  /** The body of `mark_attendance` on the file's lines, stamped `ts`. */
  function Mark(lines: seq<string>, name: string, ts: string): (marked: seq<string>)
    ensures lines <= marked && |marked| <= |lines| + 1
    ensures marked == lines <==> Recorded(lines, name)
  {
    if Recorded(lines, name) then lines else lines + [RecordLine(name, ts)]
  }

  /** No two lines share their first field. */
  predicate DistinctKeys(lines: seq<string>) {
    forall i, j :: 0 <= i < j < |lines| ==> NameKey(lines[i]) != NameKey(lines[j])
  }

  /** A comma-free name is the first field of the line written for it. */
  lemma NameKeyOfRecord(name: string, ts: string)
    requires ',' !in name
    ensures NameKey(RecordLine(name, ts)) == name
  {
    assert RecordLine(name, ts) + "\n" == name + [','] + (ts + "\n");
    FirstIndexAfter(name, ',', ts + "\n");
  }

  /** A name with a comma is never the first field of the line written for it. */
  lemma NameKeyOfCommaName(name: string, ts: string)
    requires ',' in name
    ensures NameKey(RecordLine(name, ts)) != name
  {
    var line := RecordLine(name, ts) + "\n";
    var i := FirstIndex(line, ',').value;
    assert line[..|name|] == name;
    assert i < |name|;
    assert |NameKey(RecordLine(name, ts))| == i;
  }

  /** A comma-free name is on record after `mark_attendance`. */
  lemma MarkRecords(lines: seq<string>, name: string, ts: string)
    requires ',' !in name
    ensures name in NameList(Mark(lines, name, ts))
  {
    if name !in NameList(lines) && ',' !in name {
      NameKeyOfRecord(name, ts);
      assert NameList(Mark(lines, name, ts))[|lines|] == name;
    }
  }

  /** Marking a comma-free name twice is marking it once: the first timestamp wins. */
  lemma MarkIdempotent(lines: seq<string>, name: string, ts1: string, ts2: string)
    requires ',' !in name
    ensures Mark(Mark(lines, name, ts1), name, ts2) == Mark(lines, name, ts1)
  {
    MarkRecords(lines, name, ts1);
  }

  /** A name containing a comma is appended again on every call. */
  lemma CommaNameAppendsAgain(lines: seq<string>, name: string, ts1: string, ts2: string)
    requires ',' in name && name !in NameList(lines)
    ensures Mark(Mark(lines, name, ts1), name, ts2) == Mark(lines, name, ts1) + [RecordLine(name, ts2)]
  {
    var once := Mark(lines, name, ts1);
    NameKeyOfCommaName(name, ts1);
    assert NameList(once) == NameList(lines) + [NameKey(RecordLine(name, ts1))];
  }

  /** Marking a comma-free name keeps the first fields pairwise distinct. */
  lemma MarkKeepsDistinct(lines: seq<string>, name: string, ts: string)
    requires ',' !in name && DistinctKeys(lines)
    ensures DistinctKeys(Mark(lines, name, ts))
  {
    if name !in NameList(lines) {
      NameKeyOfRecord(name, ts);
      var r := Mark(lines, name, ts);
      forall i, j | 0 <= i < j < |r| ensures NameKey(r[i]) != NameKey(r[j]) {
        if j == |lines| {
          assert NameList(lines)[i] == NameKey(r[i]);
        }
      }
    }
  }

  /** One identification: the uppercased label and the clock reading when it was made. */
  datatype Sighting = Sighting(name: string, at: DateTime)

  /** The file after `mark_attendance` is called for each sighting in turn. */
  function MarkAll(lines: seq<string>, sightings: seq<Sighting>): seq<string> {
    if sightings == [] then lines
    else
      var last := sightings[|sightings| - 1];
      Mark(MarkAll(lines, sightings[..|sightings| - 1]), last.name, Timestamp(last.at))
  }

  predicate CommaFreeNames(sightings: seq<Sighting>) {
    forall k :: 0 <= k < |sightings| ==> ',' !in sightings[k].name
  }

  lemma {:induction false} MarkAllAppend(lines: seq<string>, a: seq<Sighting>, b: seq<Sighting>)
    ensures MarkAll(lines, a + b) == MarkAll(MarkAll(lines, a), b)
    decreases |b|
  {
    if b == [] {
      assert a + b == a;
    } else {
      assert (a + b)[..|a + b| - 1] == a + b[..|b| - 1];
      MarkAllAppend(lines, a, b[..|b| - 1]);
    }
  }

  /** Earlier lines survive every later call. */
  lemma {:induction false} MarkAllExtends(lines: seq<string>, sightings: seq<Sighting>)
    ensures lines <= MarkAll(lines, sightings)
  {
    if sightings != [] {
      MarkAllExtends(lines, sightings[..|sightings| - 1]);
    }
  }

  /** With comma-free names, a first field on record afterwards was on record
      before or belongs to one of the sightings. */
  lemma {:induction false} MarkAllKeys(lines: seq<string>, sightings: seq<Sighting>, key: string)
    requires CommaFreeNames(sightings)
    requires key in NameList(MarkAll(lines, sightings))
    ensures key in NameList(lines) || exists k :: 0 <= k < |sightings| && sightings[k].name == key
  {
    if sightings != [] {
      var init := sightings[..|sightings| - 1];
      var last := sightings[|sightings| - 1];
      var before := MarkAll(lines, init);
      if key in NameList(before) {
        MarkAllKeys(lines, init, key);
        if key !in NameList(lines) {
          var k :| 0 <= k < |init| && init[k].name == key;
          assert sightings[k].name == key;
        }
      } else {
        NameKeyOfRecord(last.name, Timestamp(last.at));
        assert NameList(MarkAll(lines, sightings)) == NameList(before) + [last.name];
      }
    }
  }

  /** Every sighting of a comma-free name leaves that name on record, and the
      first fields stay pairwise distinct. */
  lemma {:induction false} MarkAllRecordsOnce(lines: seq<string>, sightings: seq<Sighting>)
    requires CommaFreeNames(sightings) && DistinctKeys(lines)
    ensures DistinctKeys(MarkAll(lines, sightings))
    ensures forall k :: 0 <= k < |sightings| ==> sightings[k].name in NameList(MarkAll(lines, sightings))
  {
    if sightings != [] {
      var init := sightings[..|sightings| - 1];
      var last := sightings[|sightings| - 1];
      var before := MarkAll(lines, init);
      MarkAllRecordsOnce(lines, init);
      MarkKeepsDistinct(before, last.name, Timestamp(last.at));
      MarkRecords(before, last.name, Timestamp(last.at));
      var after := MarkAll(lines, sightings);
      forall k | 0 <= k < |sightings| ensures sightings[k].name in NameList(after) {
        if k < |init| {
          assert init[k] == sightings[k];
          var i :| 0 <= i < |before| && NameList(before)[i] == sightings[k].name;
          assert NameList(after)[i] == sightings[k].name;
        }
      }
    }
  }

  /** First timestamp wins: a comma-free name not on record is recorded with
      the time of its first sighting. */
  lemma {:induction false} MarkAllFirstWins(lines: seq<string>, sightings: seq<Sighting>, k: nat)
    requires CommaFreeNames(sightings)
    requires k < |sightings| && sightings[k].name !in NameList(lines)
    requires forall j :: 0 <= j < k ==> sightings[j].name != sightings[k].name
    ensures RecordLine(sightings[k].name, Timestamp(sightings[k].at)) in MarkAll(lines, sightings)
  {
    var init := sightings[..|sightings| - 1];
    if k < |init| {
      MarkAllFirstWins(lines, init, k);
    } else if sightings[k].name in NameList(MarkAll(lines, init)) {
      MarkAllKeys(lines, init, sightings[k].name);
    }
  }

  /** With pairwise-distinct first fields, the line holding a comma-free name is unique. */
  lemma OnlyLineFor(lines: seq<string>, name: string, ts: string, i: nat)
    requires DistinctKeys(lines) && ',' !in name
    requires RecordLine(name, ts) in lines
    requires i < |lines| && NameKey(lines[i]) == name
    ensures lines[i] == RecordLine(name, ts)
  {
    NameKeyOfRecord(name, ts);
  }

  /** One record as `attendance_data` returns it. */
  datatype Entry = Entry(name: string, time: string)

  /** `name, time = line.strip().split(',')`: exactly two fields, else the
      unpacking fails.  A line parses exactly when its stripped text holds one
      comma, and then it is the name and the time joined by that comma. */
  function ParseLine(line: string): (r: Option<Entry>)
    ensures r.Some? <==> multiset(Strip(line + "\n"))[','] == 1
    ensures r.Some? ==> ',' !in r.value.name && ',' !in r.value.time
    ensures r.Some? ==> Strip(line + "\n") == r.value.name + "," + r.value.time
  {
    var stripped := Strip(line + "\n");
    var fields := Split(stripped, ',');
    SplitCount(stripped, ',');
    if |fields| == 2 then
      JoinSplit(stripped, ',');
      assert Join(fields, ',') == fields[0] + [','] + fields[1];
      Some(Entry(fields[0], fields[1]))
    else None
  }

  /** Write/read round trip: the line written for a comma-free name that does
      not start with whitespace parses back to that name and timestamp. */
  /** The line written for a name that does not start with whitespace has no
      whitespace at either end, so `strip()` gives it back. */
  lemma StripRecordLine(name: string, t: DateTime)
    requires ',' !in name && (name == "" || !IsSpace(name[0]))
    ensures Strip(RecordLine(name, Timestamp(t)) + "\n") == RecordLine(name, Timestamp(t))
  {
    var ts := Timestamp(t);
    var line := RecordLine(name, ts);
    assert line[|line| - 1] == ts[18];
    assert line[0] == if name == "" then ',' else name[0];
    StripLine(line);
  }

  /** A line made of two comma-free fields around one comma, which `strip()`
      leaves alone, parses back to those two fields. */
  lemma ParseCommaFreeLine(name: string, ts: string)
    requires ',' !in name && ',' !in ts
    requires Strip(RecordLine(name, ts) + "\n") == RecordLine(name, ts)
    ensures ParseLine(RecordLine(name, ts)) == Some(Entry(name, ts))
  {
    var line := RecordLine(name, ts);
    assert line == Join([name, ts], ',');
    SplitJoin([name, ts], ',');
    assert Split(Strip(line + "\n"), ',') == [name, ts];
  }

  lemma ParseRecordLine(name: string, t: DateTime)
    requires ',' !in name && (name == "" || !IsSpace(name[0]))
    ensures ParseLine(RecordLine(name, Timestamp(t))) == Some(Entry(name, Timestamp(t)))
  {
    StripRecordLine(name, t);
    ParseCommaFreeLine(name, Timestamp(t));
  }



  /** The attendance file of one class. */
  class AttendanceLedger {
    var lines: seq<string>

    constructor (existing: seq<string>)
      ensures lines == existing
    {
      lines := existing;
    }

    /** `mark_attendance(name, class_name)` with `now` read from the clock. */
    method MarkAttendance(name: string, now: DateTime)
      modifies this
      ensures Recorded(old(lines), name) ==> lines == old(lines)
      ensures !Recorded(old(lines), name) ==> lines == old(lines) + [RecordLine(name, Timestamp(now))]
      ensures lines == Mark(old(lines), name, Timestamp(now))
    {
      var nameList := NameList(lines);
      if name !in nameList {
        lines := lines + [RecordLine(name, Timestamp(now))];
      }
    }

    /** `attendance_data`: parse every line into (name, time); one malformed
        line makes the whole request fail (`None`). */
    method AttendanceData() returns (data: Option<seq<Entry>>)
      ensures data.Some? <==> forall i :: 0 <= i < |lines| ==> ParseLine(lines[i]).Some?
      ensures data.Some? ==> |data.value| == |lines|
      ensures data.Some? ==> forall i :: 0 <= i < |lines| ==> Some(data.value[i]) == ParseLine(lines[i])
    {
      var entries: seq<Entry> := [];
      var i := 0;
      while i < |lines|
        invariant 0 <= i <= |lines| && |entries| == i
        invariant forall j :: 0 <= j < i ==> Some(entries[j]) == ParseLine(lines[j])
      {
        var parsed := ParseLine(lines[i]);
        if parsed.None? {
          return None;
        }
        entries := entries + [parsed.value];
        i := i + 1;
      }
      return Some(entries);
    }
  }
}
