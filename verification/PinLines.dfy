/** tools/checkToolchainPinDrift.py: the pins of one block, line by line. */
module PinLines {
  import opened Numerals
  import opened Cuts
  import opened Text

  datatype Pin = Pin(package: string, version: string)

  predicate Alphanumeric(c: char) { '0' <= c <= '9' || 'a' <= c <= 'z' || 'A' <= c <= 'Z' }

  predicate PackageChar(c: char) { Alphanumeric(c) || c == '+' || c == '.' || c == '-' }

  predicate PackageName(s: string) { s != "" && Alphanumeric(s[0]) && forall i | 0 <= i < |s| :: PackageChar(s[i]) }

  predicate NoSpace(s: string) { forall i | 0 <= i < |s| :: !IsSpace(s[i]) }

  function IndentOf(line: string): (n: nat)
    ensures n <= |line|
  {
    if line != "" && IsSpace(line[0]) then 1 + IndentOf(line[1..]) else 0
  }

  predicate BlankLine(line: string) { IndentOf(line) == |line| }

  /** `(\S+?)(?: \\)?$`: the version up to the end of the line or a continuation. */
  function VersionOf(rest: string): Option<string> {
    if rest != "" && NoSpace(rest) then Some(rest)
    else if |rest| >= 3 && rest[|rest| - 2..] == " \\" && NoSpace(rest[..|rest| - 2]) then Some(rest[..|rest| - 2])
    else None
  }

  function PinOf(body: string): Option<Pin> {
    var e := FirstIndex(body, '=');
    if e == |body| || !PackageName(body[..e]) || VersionOf(body[e + 1..]).None? then None
    else Some(Pin(body[..e], VersionOf(body[e + 1..]).value))
  }

  /** Whether line `i` can start a match of `^\s+`: it is indented, or a blank line before it supplies the white space. */
  predicate CanMatch(lines: seq<string>, i: nat)
    requires i < |lines|
  {
    IndentOf(lines[i]) > 0 || (i > 0 && BlankLine(lines[i - 1]))
  }

  function PinAt(lines: seq<string>, i: nat): Option<Pin>
    requires i < |lines|
  {
    if CanMatch(lines, i) then PinOf(lines[i][IndentOf(lines[i])..]) else None
  }

  /** `dict(REGEX_PIN.findall(block))`, over the first `n` lines. */
  function Pins(lines: seq<string>, n: nat): map<string, string>
    requires n <= |lines|
  {
    if n == 0 then map[]
    else
      var p := PinAt(lines, n - 1);
      if p.Some? then Pins(lines, n - 1)[p.value.package := p.value.version] else Pins(lines, n - 1)
  }

  /** `REGEX_PIN_SHAPED.match(line)` */
  predicate Shaped(line: string) {
    var body := line[IndentOf(line)..];
    var e := FirstIndex(body, '=');
    IndentOf(line) > 0 && e + 1 < |body| && PackageName(body[..e]) && !IsSpace(body[e + 1])
  }

  function ShapedCount(lines: seq<string>, n: nat): nat
    requires n <= |lines|
  {
    if n == 0 then 0 else ShapedCount(lines, n - 1) + if Shaped(lines[n - 1]) then 1 else 0
  }

  datatype Parsed = Versions(pins: map<string, string>) | ZeroPins | Unparsed

  /** `fdictParsePinnedVersions`, given the block. */
  function ParseBlock(block: string): Parsed {
    var lines := SplitChar(block, '\n');
    var pins := Pins(lines, |lines|);
    if pins == map[] then ZeroPins
    else if |pins| != ShapedCount(lines, |lines|) then Unparsed
    else Versions(pins)
  }

  // ----- One line -----

  /** Every pin is indented with a space, and no version holds an `=`. */
  ghost predicate Tidy(lines: seq<string>) {
    forall i | 0 <= i < |lines| && PinAt(lines, i).Some? :: TidyLine(lines[i]) && '=' !in PinAt(lines, i).value.version
  }

  predicate TidyLine(line: string) { IndentOf(line) > 0 && line[IndentOf(line) - 1] == ' ' }

  lemma {:induction false} IndentIsSpace(line: string)
    ensures forall i | 0 <= i < IndentOf(line) :: IsSpace(line[i])
    ensures IndentOf(line) < |line| ==> !IsSpace(line[IndentOf(line)])
  {
    if line != "" && IsSpace(line[0]) { IndentIsSpace(line[1..]); }
  }

  lemma {:induction false} IndentOfJoin(indent: string, body: string)
    requires (forall i | 0 <= i < |indent| :: IsSpace(indent[i])) && body != "" && !IsSpace(body[0])
    ensures IndentOf(indent + body) == |indent| && (indent + body)[|indent|..] == body
  {
    if indent == "" {
      assert indent + body == body;
    } else {
      assert (indent + body)[1..] == indent[1..] + body;
      IndentOfJoin(indent[1..], body);
    }
  }

  predicate Tail(t: string) { t == "" || t == " \\" }

  lemma VersionParts(rest: string) returns (tail: string)
    requires VersionOf(rest).Some?
    ensures rest == VersionOf(rest).value + tail && Tail(tail)
  {
    tail := rest[|VersionOf(rest).value|..];
  }

  lemma BodyParts(body: string) returns (tail: string)
    requires PinOf(body).Some?
    ensures var p := PinOf(body).value; body == p.package + "=" + p.version + tail
    ensures Tail(tail)
  {
    hide VersionOf, PackageName, FirstIndex, Tail;
    var e := FirstIndex(body, '=');
    FirstIndexHere(body, '=');
    tail := VersionParts(body[e + 1..]);
    assert body == body[..e] + "=" + body[e + 1..];
  }

  /** A pin line taken apart. */
  lemma PinLineParts(line: string) returns (indent: string, tail: string)
    requires PinOf(line[IndentOf(line)..]).Some?
    ensures var p := PinOf(line[IndentOf(line)..]).value; line == indent + (p.package + "=" + p.version + tail)
    ensures Tail(tail) && indent == line[..IndentOf(line)]
  {
    hide PinOf;
    indent := line[..IndentOf(line)];
    tail := BodyParts(line[IndentOf(line)..]);
  }

  lemma {:induction false} FirstIndexHere(s: string, c: char)
    ensures FirstIndex(s, c) < |s| ==> s[FirstIndex(s, c)] == c
    ensures c !in s[..FirstIndex(s, c)]
  {
    if s != "" && s[0] != c {
      FirstIndexHere(s[1..], c);
      assert s[..FirstIndex(s, c)] == [s[0]] + s[1..][..FirstIndex(s[1..], c)];
    }
  }

  lemma VersionIsRead(v: string, tail: string)
    requires v != "" && NoSpace(v) && Tail(tail)
    ensures VersionOf(v + tail) == Some(v)
  {
    if tail == "" {
      assert v + tail == v;
    } else {
      assert (v + tail)[|v|] == ' ';
      assert (v + tail)[..|v + tail| - 2] == v && (v + tail)[|v + tail| - 2..] == " \\";
    }
  }

  lemma NameHasNoEquals(name: string)
    requires PackageName(name)
    ensures '=' !in name && ' ' !in name && NoSpace(name)
  {
  }

  /** A line built from its parts is read back. */
  lemma PinIsRead(indent: string, name: string, v: string, tail: string)
    requires PackageName(name) && v != "" && NoSpace(v) && Tail(tail)
    requires indent != "" && forall i | 0 <= i < |indent| :: IsSpace(indent[i])
    ensures var line := indent + (name + "=" + v + tail);
      IndentOf(line) == |indent| && PinOf(line[|indent|..]) == Some(Pin(name, v)) && Shaped(line) && !BlankLine(line)
  {
    hide VersionOf;
    NameHasNoEquals(name);
    var body := name + "=" + v + tail;
    assert body == name + ['='] + (v + tail);
    FirstIndexOfJoin(name, '=', v + tail);
    JoinParts(name, '=', v + tail);
    assert body[0] == name[0];
    IndentOfJoin(indent, body);
    VersionIsRead(v, tail);
    assert body[|name| + 1] == v[0];
  }

  lemma PinIsNamed(body: string)
    requires PinOf(body).Some?
    ensures PackageName(PinOf(body).value.package) && PinOf(body).value.version != "" && NoSpace(PinOf(body).value.version)
  {
  }

  // ----- One pin rewritten -----

  /** The last line that pins a package. */
  lemma {:induction false} LastPin(lines: seq<string>, n: nat, name: string) returns (i: nat)
    requires n <= |lines| && name in Pins(lines, n)
    ensures i < n && PinAt(lines, i) == Some(Pin(name, Pins(lines, n)[name]))
    ensures forall j | i < j < n :: PinAt(lines, j).None? || PinAt(lines, j).value.package != name
  {
    hide PinAt;
    var p := PinAt(lines, n - 1);
    if p.Some? && p.value.package == name { i := n - 1; } else { i := LastPin(lines, n - 1, name); }
  }

  /** Two lists of lines that read alike but for the version of one pin. */
  ghost predicate OneVersionDiffers(lines: seq<string>, lines': seq<string>, i: nat, name: string, version: string) {
    && |lines'| == |lines| && i < |lines|
    && (forall j | 0 <= j < |lines| && j != i :: PinAt(lines', j) == PinAt(lines, j) && lines'[j] == lines[j])
    && PinAt(lines, i).Some? && PinAt(lines, i).value.package == name && PinAt(lines', i) == Some(Pin(name, version))
    && Shaped(lines[i]) && Shaped(lines'[i])
  }

  lemma {:induction false} PinsWithOneVersion(lines: seq<string>, lines': seq<string>, i: nat, name: string, version: string, n: nat)
    requires OneVersionDiffers(lines, lines', i, name, version) && n <= |lines|
    requires forall j | i < j < |lines| && PinAt(lines, j).Some? :: PinAt(lines, j).value.package != name
    ensures n <= i ==> Pins(lines', n) == Pins(lines, n)
    ensures n > i ==> name in Pins(lines, n) && Pins(lines', n) == Pins(lines, n)[name := version]
    ensures ShapedCount(lines', n) == ShapedCount(lines, n)
  {
    hide PinAt, Shaped;
    if n > 0 { PinsWithOneVersion(lines, lines', i, name, version, n - 1); }
  }

  /** The condition a rewritten line meets where its neighbours are read. */
  lemma SameReading(lines: seq<string>, i: nat, line: string)
    requires i < |lines| && !BlankLine(lines[i]) && !BlankLine(line)
    ensures forall j | 0 <= j < |lines| && j != i :: PinAt(lines[i := line], j) == PinAt(lines, j)
  {
    hide PinOf, IndentOf;
  }

  /** Putting another version into line `i` changes that reading alone. */
  lemma RewriteLine(lines: seq<string>, i: nat, indent: string, tail: string, version: string)
    requires i < |lines| && PinAt(lines, i).Some? && TidyLine(lines[i]) && Tail(tail)
    requires version != "" && NoSpace(version)
    requires var p := PinAt(lines, i).value;
      lines[i] == indent + (p.package + "=" + p.version + tail) && |indent| == IndentOf(lines[i])
    ensures var p := PinAt(lines, i).value; var line := indent + (p.package + "=" + version + tail);
      OneVersionDiffers(lines, lines[i := line], i, p.package, version) && TidyLine(line)
  {
    hide PinOf, Shaped, BlankLine;
    var p := PinAt(lines, i).value;
    var line := indent + (p.package + "=" + version + tail);
    IndentIsSpace(lines[i]);
    PinIsNamed(lines[i][IndentOf(lines[i])..]);
    assert indent == lines[i][..|indent|];
    PinIsRead(indent, p.package, p.version, tail);
    PinIsRead(indent, p.package, version, tail);
    SameReading(lines, i, line);
    ReadWhenIndented(lines[i := line], i, p.package, version);
  }

  lemma ReadWhenIndented(lines: seq<string>, i: nat, name: string, version: string)
    requires i < |lines| && IndentOf(lines[i]) > 0 && PinOf(lines[i][IndentOf(lines[i])..]) == Some(Pin(name, version))
    ensures PinAt(lines, i) == Some(Pin(name, version))
  {
  }

  lemma StaysTidy(lines: seq<string>, lines': seq<string>, i: nat, name: string, version: string)
    requires Tidy(lines) && OneVersionDiffers(lines, lines', i, name, version) && TidyLine(lines'[i]) && '=' !in version
    ensures Tidy(lines')
  {
    hide PinAt, Shaped, TidyLine;
    forall j | 0 <= j < |lines'| && PinAt(lines', j).Some? ensures TidyLine(lines'[j]) && '=' !in PinAt(lines', j).value.version {
      if j != i { assert PinAt(lines', j) == PinAt(lines, j); }
    }
  }
}
