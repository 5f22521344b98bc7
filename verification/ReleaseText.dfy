/** The two text files of a release pack: the pins and the checksum manifest. */
module ReleaseText {
  import opened Wrappers
  import Wire

  /** File contents, one character per byte. */
  type Content = string

  predicate Ascii(data: Content) {
    forall c :: c in data ==> c as int < 128
  }

  lemma {:induction false} AsciiIsSevenBits(data: Content)
    ensures Ascii(data) <==> forall i :: 0 <= i < |data| ==> data[i] as int <= 0x7F
  {
    if i :| 0 <= i < |data| && data[i] as int > 0x7F { assert data[i] in data; }
  }

  // ---------------------------------------------------------------------- lines

  /** The characters at which text of this encoding breaks into lines. */
  predicate Break(c: char) {
    c == '\n' || c == '\r' || c as int == 11 || c as int == 12 || c as int == 28 || c as int == 29 || c as int == 30
  }

  ghost predicate Unbroken(line: string) {
    forall c :: c in line ==> !Break(c)
  }

  function FirstBreak(s: string): (k: nat)
    ensures k <= |s| && Unbroken(s[..k]) && (k < |s| ==> Break(s[k]))
  {
    if s == "" then 0
    else if Break(s[0]) then 0
    else
      var k := 1 + FirstBreak(s[1..]);
      assert s[..k] == [s[0]] + s[1..][..k - 1];
      k
  }

  /** Lines without their breaks; a carriage return and newline together are one break. */
  function SplitLines(s: string): seq<string>
    decreases |s|
  {
    if s == "" then []
    else
      var k := FirstBreak(s);
      if k == |s| then [s]
      else
        var skip := if s[k] == '\r' && k + 1 < |s| && s[k + 1] == '\n' then 2 else 1;
        [s[..k]] + SplitLines(s[k + skip..])
  }

  /** The eight ways a line may end. */
  ghost predicate Terminator(end: string) {
    end == "\r\n" || (|end| == 1 && end[0] as int in {10, 11, 12, 13, 28, 29, 30})
  }

  lemma {:induction false} FirstBreakOf(line: string, rest: string)
    requires Unbroken(line) && rest != "" && Break(rest[0])
    ensures FirstBreak(line + rest) == |line|
  {
    var s := line + rest;
    if line == "" {
      assert s == rest;
    } else {
      assert !Break(line[0]);
      FirstBreakOf(line[1..], rest);
      assert s[0] == line[0] && s[1..] == line[1..] + rest;
    }
  }

  lemma {:induction false} UnbrokenHasNoBreak(line: string)
    requires Unbroken(line)
    ensures FirstBreak(line) == |line|
  {
    if line != "" { UnbrokenHasNoBreak(line[1..]); }
  }

  /** Everything there is to line splitting: no text has no line, text free of the seven break characters is
      one line, and a line with its terminator is cut off the front; a carriage return right before a newline
      never stands alone. */
  lemma {:induction false} SplitsExactly(line: string, end: string, rest: string)
    requires forall i :: 0 <= i < |line| ==> line[i] as int !in {10, 11, 12, 13, 28, 29, 30}
    requires Terminator(end) && !(end == "\r" && "\n" <= rest)
    ensures SplitLines("") == [] && (line != "" ==> SplitLines(line) == [line])
    ensures SplitLines(line + end + rest) == [line] + SplitLines(rest)
  {
    UnbrokenHasNoBreak(line);
    EndSplits(line, end, rest);
  }

  lemma {:induction false} EndSplits(line: string, end: string, rest: string)
    requires Unbroken(line) && Terminator(end) && !(end == "\r" && "\n" <= rest)
    ensures SplitLines(line + end + rest) == [line] + SplitLines(rest)
  {
    hide Unbroken;
    var s := line + end + rest;
    assert s == line + (end + rest);
    FirstBreakOf(line, end + rest);
    assert s[|line|] == end[0] && s[..|line|] == line && s[|line| + |end|..] == rest;
    if end[0] == '\r' && |end| == 1 && rest != "" { assert s[|line| + 1] == rest[0]; }
  }

  function JoinLines(lines: seq<string>): string {
    if lines == [] then "" else lines[0] + "\n" + JoinLines(lines[1..])
  }

  /** Newline-terminated lines come back as they went in. */
  lemma {:induction false} SplitJoined(lines: seq<string>)
    requires forall i :: 0 <= i < |lines| ==> Unbroken(lines[i])
    ensures SplitLines(JoinLines(lines)) == lines
  {
    if lines != [] {
      var line, rest := lines[0], JoinLines(lines[1..]);
      assert forall i :: 0 <= i < |line| ==> line[i] in line && !Break(line[i]);
      SplitsExactly(line, "\n", rest);
      SplitJoined(lines[1..]);
      assert lines == [line] + lines[1..];
    }
  }

  // ------------------------------------------------------------------------ hex

  predicate Hex(s: string, width: nat) {
    |s| == width && forall c :: c in s ==> Wire.HexDigit(c)
  }

  lemma {:induction false} HexIs(s: string, width: nat)
    ensures Hex(s, width) <==> |s| == width && forall i :: 0 <= i < |s| ==> s[i] in "0123456789abcdef"
  {
    forall i | 0 <= i < |s| ensures s[i] in s && (Wire.HexDigit(s[i]) <==> s[i] in "0123456789abcdef") {
      Wire.HexDigitIs(s[i]);
    }
  }

  // ----------------------------------------------------------------------- pins

  predicate Skipped(line: string) {
    line == "" || line[0] == '#'
  }

  /** Where the first separator stands. */
  function Separator(line: string): (k: nat)
    ensures k <= |line| && '=' !in line[..k] && (k < |line| ==> line[k] == '=')
  {
    if line == "" then 0
    else if line[0] == '=' then 0
    else
      var k := 1 + Separator(line[1..]);
      assert line[..k] == [line[0]] + line[1..][..k - 1];
      k
  }

  datatype PinRead = SkippedLine | Malformed | Pin(name: string)

  /** A line names a required pin, separates it, and gives it the right number of hex digits. */
  function ReadPin(required: map<string, nat>, line: string): PinRead {
    if Skipped(line) then SkippedLine
    else
      var k := Separator(line);
      if line[..k] !in required || k == |line| || !Hex(line[k + 1..], required[line[..k]]) then Malformed
      else Pin(line[..k])
  }

  /** A line pins a name exactly if it is that required name, a first `=` and as many hexadecimal digits as the
      name requires; blank lines and comments are passed over, and every other line is malformed. */
  lemma {:induction false} PinExactly(required: map<string, nat>, line: string, name: string)
    ensures ReadPin(required, line) == Pin(name) <==>
            && name in required && name + "=" <= line && '=' !in name && !("#" <= line)
            && |line| == |name| + 1 + required[name]
            && forall i :: |name| < i < |line| ==> line[i] in "0123456789abcdef"
    ensures ReadPin(required, line).SkippedLine? <==> line == "" || "#" <= line
  {
    var k := Separator(line);
    if name + "=" <= line && '=' !in name { SeparatorAt(line, name); }
    if k < |line| && line[..k] in required {
      var digits := line[k + 1..];
      HexIs(digits, required[line[..k]]);
      assert forall i :: k < i < |line| ==> line[i] == digits[i - k - 1];
      assert forall i :: 0 <= i < |digits| ==> digits[i] == line[i + k + 1];
      assert line[..k] + "=" == line[..k + 1];
    }
  }

  lemma {:induction false} SeparatorAt(line: string, name: string)
    requires name + "=" <= line && '=' !in name
    ensures Separator(line) == |name| && line[..|name|] == name
  {
    var k := Separator(line);
    assert line[|name|] == '=' && line[..|name|] == name;
    assert k <= |name|;
  }

  /** No malformed line, and every required name pinned exactly once. */
  ghost predicate PinsOk(required: map<string, nat>, lines: seq<string>) {
    && (forall i :: 0 <= i < |lines| ==> !ReadPin(required, lines[i]).Malformed?)
    && (forall i, j :: 0 <= i < j < |lines| && ReadPin(required, lines[i]).Pin? ==>
          ReadPin(required, lines[i]) != ReadPin(required, lines[j]))
    && (forall name :: name in required ==> exists i :: 0 <= i < |lines| && ReadPin(required, lines[i]) == Pin(name))
  }

  /** Collects names as it goes; the first malformed or repeated pin stops it. */
  method ValidatePins(data: Content, required: map<string, nat>) returns (ok: bool)
    ensures ok <==> Ascii(data) && PinsOk(required, SplitLines(data))
  {
    hide SplitLines, ReadPin;
    if !Ascii(data) {
      return false;
    }
    var lines := SplitLines(data);
    var pins: set<string> := {};
    for n := 0 to |lines|
      invariant forall i :: 0 <= i < n ==> !ReadPin(required, lines[i]).Malformed?
      invariant forall i :: 0 <= i < n && ReadPin(required, lines[i]).Pin? ==> ReadPin(required, lines[i]).name in pins
      invariant forall i, j :: 0 <= i < j < n && ReadPin(required, lines[i]).Pin? ==>
                  ReadPin(required, lines[i]) != ReadPin(required, lines[j])
      invariant forall name :: name in pins ==> exists i :: 0 <= i < n && ReadPin(required, lines[i]) == Pin(name)
    {
      var pin := ReadPin(required, lines[n]);
      if pin.Malformed? {
        return false;
      }
      if pin.Pin? {
        if pin.name in pins {
          return false;
        }
        pins := pins + {pin.name};
      }
    }
    PinsKnown(required, lines);
    ok := pins == required.Keys;
  }

  lemma {:induction false} PinsKnown(required: map<string, nat>, lines: seq<string>)
    ensures forall i :: 0 <= i < |lines| && ReadPin(required, lines[i]).Pin? ==>
              ReadPin(required, lines[i]).name in required
  {
    hide Separator, Skipped, Hex;
  }

  // ------------------------------------------------------------------- manifest

  /** `digest, two spaces, name`, as name and digest. */
  function ParseEntry(line: string): Option<(string, string)> {
    if |line| > 66 && Hex(line[..64], 64) && line[64..66] == "  " then Some((line[66..], line[..64])) else None
  }

  function EntryLine(name: string, digest: string): string {
    digest + "  " + name
  }

  lemma {:induction false} EntryRoundTrip(name: string, digest: string)
    requires name != "" && Hex(digest, 64)
    ensures ParseEntry(EntryLine(name, digest)) == Some((name, digest))
  {
    var line := EntryLine(name, digest);
    assert line[..64] == digest && line[64..66] == "  " && line[66..] == name;
  }

  /** The format both ways: a line is the entry of a name and a digest exactly if it is 64 hexadecimal digits,
      two spaces and a name that is not empty. */
  lemma {:induction false} EntryExactly(line: string, name: string, digest: string)
    ensures ParseEntry(line) == Some((name, digest)) <==>
            && line == digest + [' ', ' '] + name && name != ""
            && |digest| == 64 && forall i :: 0 <= i < 64 ==> digest[i] in "0123456789abcdef"
  {
    HexIs(digest, 64);
    if |line| > 66 { assert line == line[..64] + line[64..66] + line[66..]; }
    if line == digest + [' ', ' '] + name && |digest| == 64 {
      assert line[..64] == digest && line[64..66] == "  " && line[66..] == name;
    }
  }

  function EntryName(line: string): Option<string> {
    match ParseEntry(line)
    case None => None
    case Some((name, _)) => Some(name)
  }

  /** Every line is an entry for one of the files, no file twice. */
  ghost predicate Clean(files: set<string>, lines: seq<string>) {
    && (forall i :: 0 <= i < |lines| ==> EntryName(lines[i]).Some? && EntryName(lines[i]).value in files)
    && (forall i, j :: 0 <= i < j < |lines| ==> EntryName(lines[i]) != EntryName(lines[j]))
  }

  ghost predicate Named(lines: seq<string>, name: string) {
    exists i :: 0 <= i < |lines| && EntryName(lines[i]) == Some(name)
  }

  /** ... and every file exactly once. */
  ghost predicate EntriesOk(files: set<string>, lines: seq<string>) {
    Clean(files, lines) && forall name :: name in files ==> Named(lines, name)
  }

  /** The manifest lists this name under this digest. */
  ghost predicate Lists(lines: seq<string>, name: string, digest: string) {
    exists i :: 0 <= i < |lines| && ParseEntry(lines[i]) == Some((name, digest))
  }

  /** The entries by name; the first bad, unknown or repeated one stops the reading. */
  function Collect(files: set<string>, lines: seq<string>): Option<map<string, string>> {
    if lines == [] then Some(map[])
    else
      match (Collect(files, lines[..|lines| - 1]), ParseEntry(lines[|lines| - 1]))
      case (Some(entries), Some((name, digest))) =>
        if name !in files || name in entries then None else Some(entries[name := digest])
      case _ => None
  }

  ghost predicate Collected(entries: map<string, string>, lines: seq<string>) {
    && (forall name :: name in entries <==> Named(lines, name))
    && (forall name :: name in entries ==> Lists(lines, name, entries[name]))
  }

  lemma {:induction false} NamedSnoc(front: seq<string>, last: string, name: string)
    ensures Named(front + [last], name) <==> Named(front, name) || EntryName(last) == Some(name)
  {
    hide EntryName;
    var all := front + [last];
    if Named(front, name) {
      var i :| 0 <= i < |front| && EntryName(front[i]) == Some(name);
      assert all[i] == front[i];
    }
    if EntryName(last) == Some(name) { assert all[|front|] == last; }
  }

  lemma {:induction false} ListsSnoc(front: seq<string>, last: string, name: string, digest: string)
    requires Lists(front, name, digest) || ParseEntry(last) == Some((name, digest))
    ensures Lists(front + [last], name, digest)
  {
    hide ParseEntry;
    var all := front + [last];
    if Lists(front, name, digest) {
      var i :| 0 <= i < |front| && ParseEntry(front[i]) == Some((name, digest));
      assert all[i] == front[i];
    } else {
      assert all[|front|] == last;
    }
  }

  lemma {:induction false} CleanSnoc(files: set<string>, front: seq<string>, last: string)
    ensures Clean(files, front + [last]) <==>
            && Clean(files, front) && EntryName(last).Some? && EntryName(last).value in files
            && !Named(front, EntryName(last).value)
  {
    hide EntryName;
    var all := front + [last];
    assert all[|front|] == last && forall i :: 0 <= i < |front| ==> all[i] == front[i];
  }

  lemma {:induction false} CollectExact(files: set<string>, lines: seq<string>)
    ensures Collect(files, lines).Some? <==> Clean(files, lines)
    ensures Collect(files, lines).Some? ==> Collected(Collect(files, lines).value, lines)
  {
    if lines != [] {
      hide ParseEntry, EntryName, Clean, Named, Lists;
      var n := |lines| - 1;
      var front, last := lines[..n], lines[n];
      assert lines == front + [last];
      CollectExact(files, front);
      CleanSnoc(files, front, last);
      NameOfEntry(last);
      if Collect(files, lines).Some? {
        var before, after := Collect(files, front).value, Collect(files, lines).value;
        forall name ensures name in after <==> Named(lines, name) { NamedSnoc(front, last, name); }
        forall name | name in after ensures Lists(lines, name,
                                                  after[name]) { ListsSnoc(front, last, name, after[name]); }
      }
    }
  }

  lemma {:induction false} NameOfEntry(line: string)
    ensures EntryName(line) == if ParseEntry(line).None? then None else Some(ParseEntry(line).value.0)
  {
    hide ParseEntry;
  }

  lemma {:induction false} CollectStep(files: set<string>, lines: seq<string>, n: nat)
    requires n < |lines|
    ensures Collect(files, lines[..n + 1]) ==
            match (Collect(files, lines[..n]), ParseEntry(lines[n]))
            case (Some(entries), Some((name, digest))) =>
              if name !in files || name in entries then None else Some(entries[name := digest])
            case _ => None
  {
    hide ParseEntry;
    assert lines[..n + 1][..n] == lines[..n] && lines[..n + 1][n] == lines[n];
  }

  lemma {:induction false} CollectFails(files: set<string>, lines: seq<string>, n: nat)
    requires n <= |lines| && Collect(files, lines[..n]).None?
    ensures Collect(files, lines).None?
    decreases |lines| - n
  {
    hide ParseEntry;
    if n == |lines| {
      assert lines[..n] == lines;
    } else {
      CollectStep(files, lines, n);
      CollectFails(files, lines, n + 1);
    }
  }

  method ReadEntries(text: Content, files: set<string>) returns (entries: Option<map<string, string>>)
    ensures entries.Some? <==> Ascii(text) && EntriesOk(files, SplitLines(text))
    ensures entries.Some? ==>
              && entries.value.Keys == files
              && forall name :: name in files ==> Lists(SplitLines(text), name, entries.value[name])
  {
    hide SplitLines, ParseEntry, Collect, Clean, Named, Lists;
    if !Ascii(text) {
      return None;
    }
    var lines := SplitLines(text);
    var found: map<string, string> := map[];
    CollectExact(files, lines);
    CollectNone(files);
    assert lines[..0] == [];
    for n := 0 to |lines|
      invariant Collect(files, lines[..n]) == Some(found)
    {
      CollectStep(files, lines, n);
      var entry := ParseEntry(lines[n]);
      if entry.None? || entry.value.0 !in files || entry.value.0 in found {
        CollectFails(files, lines, n + 1);
        return None;
      }
      found := found[entry.value.0 := entry.value.1];
    }
    assert lines[..|lines|] == lines;
    NamesKnown(files, lines);
    if found.Keys != files {
      return None;
    }
    return Some(found);
  }

  lemma {:induction false} CollectNone(files: set<string>)
    ensures Collect(files, []) == Some(map[])
  {
  }

  lemma {:induction false} NamesKnown(files: set<string>, lines: seq<string>)
    requires Clean(files, lines)
    ensures forall name :: Named(lines, name) ==> name in files
  {
    hide EntryName;
  }
}
