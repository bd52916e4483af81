/** What tools/checkToolchainPinDrift.py takes for a pin, told by how a line is put together, and
    when its count of pin-shaped lines catches a line that is not read. */
module PinMeaning {
  import opened Numerals
  import opened NumeralMeaning
  import opened Cuts
  import opened Text
  import opened PinText
  import opened PinLines

  // ----- One line -----

  predicate LetterOrDigit(c: char) {
    var n := c as int;
    48 <= n <= 57 || 65 <= n <= 90 || 97 <= n <= 122
  }

  predicate IsPackage(s: string) {
    s != "" && LetterOrDigit(s[0]) && forall c | c in s :: LetterOrDigit(c) || c in "+.-"
  }

  predicate IsVersion(v: string) { v != "" && forall c | c in v :: c as int !in WHITE }

  predicate IsTail(t: string) { t == "" || t == " \\" }

  /** White space, a package, an equals sign, a version, and at most a continuation. */
  ghost predicate PinLine(line: string, indent: string, package: string, version: string, tail: string) {
    line == indent + (package + "=" + version + tail) && White(indent) && IsPackage(package) && IsVersion(version) && IsTail(tail)
  }

  /** Line `i` pins the package: it is such a line, indented or after a line of white space. */
  ghost predicate PinsAt(lines: seq<string>, i: nat, package: string, version: string)
    requires i < |lines|
  {
    exists indent, tail :: PinLine(lines[i], indent, package, version, tail) && (indent != "" || (i > 0 && White(lines[i - 1])))
  }

  /** White space, a package, an equals sign and something that is no white space. */
  ghost predicate LooksLikePin(line: string) {
    exists indent, package, rest ::
      line == indent + (package + "=" + rest) && indent != "" && White(indent) && IsPackage(package) && rest != "" && rest[0] as int !in WHITE
  }

  lemma PackageMeans(s: string)
    ensures PackageName(s) <==> IsPackage(s)
  {
    assert forall i | 0 <= i < |s| :: s[i] in s;
  }

  lemma VersionMeans(s: string)
    ensures IsVersion(s) <==> s != "" && NoSpace(s)
  {
    hide IsSpace;
    SpacesAreWhite();
    assert forall i | 0 <= i < |s| :: s[i] in s;
  }

  lemma {:induction false} IndentIsWhite(line: string)
    ensures White(line[..IndentOf(line)])
    ensures IndentOf(line) == |line| <==> White(line)
  {
    SpacesAreWhite();
    hide IsSpace;
    if line != "" && IsSpace(line[0]) {
      IndentIsWhite(line[1..]);
      assert line[..IndentOf(line)] == [line[0]] + line[1..][..IndentOf(line[1..])];
      assert line == [line[0]] + line[1..];
      if White(line) { forall c | c in line[1..] ensures c as int in WHITE { assert c in line; } }
    } else if line != "" {
      assert line[0] in line;
    }
  }

  lemma WhiteIndent(indent: string, body: string)
    requires White(indent) && body != "" && body[0] as int !in WHITE
    ensures IndentOf(indent + body) == |indent| && (indent + body)[|indent|..] == body
  {
    hide White, IndentOf;
    SpacesAreWhite();
    WhiteIsSpaces(indent);
    IndentOfJoin(indent, body);
  }

  lemma LettersAreNotWhite(package: string)
    requires IsPackage(package)
    ensures package[0] as int !in WHITE && '=' !in package
  {
  }

  /** A line is read as a pin exactly when it is put together so, and the two parts are what is read. */
  lemma PinMeans(lines: seq<string>, i: nat, package: string, version: string)
    requires i < |lines|
    ensures PinAt(lines, i) == Some(Pin(package, version)) <==> PinsAt(lines, i, package, version)
  {
    hide White, PinOf, IndentOf, VersionOf, PackageName, IsPackage, IsVersion;
    IndentIsWhite(lines[i]);
    if i > 0 { IndentIsWhite(lines[i - 1]); }
    if PinAt(lines, i) == Some(Pin(package, version)) {
      var indent, tail := PinLineParts(lines[i]);
      PinIsNamed(lines[i][IndentOf(lines[i])..]);
      PackageMeans(package);
      VersionMeans(version);
      assert PinLine(lines[i], indent, package, version, tail);
    }
    forall indent, tail | PinLine(lines[i], indent, package, version, tail) && (indent != "" || (i > 0 && White(lines[i - 1])))
      ensures PinAt(lines, i) == Some(Pin(package, version))
    {
      PackageMeans(package);
      VersionMeans(version);
      LettersAreNotWhite(package);
      BodyIsRead(package, version, tail);
      WhiteIndent(indent, package + "=" + version + tail);
    }
  }

  lemma BodyIsRead(package: string, version: string, tail: string)
    requires PackageName(package) && version != "" && NoSpace(version) && Tail(tail)
    ensures PinOf(package + "=" + version + tail) == Some(Pin(package, version))
    ensures package != "" && (package + "=" + version + tail)[0] == package[0]
  {
    hide VersionOf;
    NameHasNoEquals(package);
    var body := package + "=" + version + tail;
    assert body == package + ['='] + (version + tail);
    FirstIndexOfJoin(package, '=', version + tail);
    JoinParts(package, '=', version + tail);
    VersionIsRead(version, tail);
  }

  /** The lines counted as pin-shaped. */
  lemma ShapedMeans(line: string)
    ensures Shaped(line) <==> LooksLikePin(line)
  {
    hide White, IndentOf, IsPackage, IsSpace, PackageName;
    SpacesAreWhite();
    IndentIsWhite(line);
    var indent, body := line[..IndentOf(line)], line[IndentOf(line)..];
    if Shaped(line) {
      var e := FirstIndex(body, '=');
      var package, rest := body[..e], body[e + 1..];
      PackageMeans(package);
      FirstIndexHere(body, '=');
      assert body == package + "=" + rest;
      assert line == indent + (package + "=" + rest) && rest[0] == body[e + 1];
    }
    forall indent, package, rest | line == indent + (package + "=" + rest) && indent != "" && White(indent) &&
      IsPackage(package) && rest != "" && rest[0] as int !in WHITE ensures Shaped(line)
    {
      ShapedIsCounted(line, indent, package, rest);
    }
  }

  lemma ShapedIsCounted(line: string, indent: string, package: string, rest: string)
    requires line == indent + (package + "=" + rest) && indent != "" && White(indent)
    requires IsPackage(package) && rest != "" && rest[0] as int !in WHITE
    ensures Shaped(line)
  {
    PackageMeans(package);
    LettersAreNotWhite(package);
    hide White, IndentOf, IsSpace, PackageName;
    SpacesAreWhite();
    var b := package + "=" + rest;
    assert b[0] == package[0];
    WhiteIndent(indent, b);
    assert b == package + ['='] + rest;
    FirstIndexOfJoin(package, '=', rest);
    assert b[..|package|] == package && b[|package| + 1] == rest[0];
  }

  // ----- One block -----

  /** The pins of a block: each package with the version of the last line that pins it. */
  lemma {:induction false} PinsMean(lines: seq<string>, n: nat, package: string)
    requires n <= |lines|
    ensures package in Pins(lines, n) <==> exists i: nat | i < n :: PinAt(lines, i).Some? && PinAt(lines, i).value.package == package
    ensures forall i: nat | i < n && PinAt(lines, i).Some? && PinAt(lines, i).value.package == package &&
      (forall j | i < j < n && PinAt(lines, j).Some? :: PinAt(lines, j).value.package != package) ::
      package in Pins(lines, n) && Pins(lines, n)[package] == PinAt(lines, i).value.version
  {
    hide PinAt;
    if n > 0 { PinsMean(lines, n - 1, package); }
  }

  /** No pin owes its white space to the line before. */
  ghost predicate AllIndented(lines: seq<string>) {
    forall i | 0 <= i < |lines| && PinAt(lines, i).Some? :: IndentOf(lines[i]) > 0
  }

  /** Every pin-shaped line is read, and no package twice. */
  ghost predicate NothingExempt(lines: seq<string>, n: nat)
    requires n <= |lines|
  {
    (forall i | 0 <= i < n && Shaped(lines[i]) :: PinAt(lines, i).Some?) &&
    forall i, j | 0 <= i < j < n && PinAt(lines, i).Some? && PinAt(lines, j).Some? ::
      PinAt(lines, i).value.package != PinAt(lines, j).value.package
  }

  lemma IndentedIsShaped(lines: seq<string>, i: nat)
    requires i < |lines| && PinAt(lines, i).Some? && IndentOf(lines[i]) > 0
    ensures Shaped(lines[i])
  {
  }

  lemma {:induction false} CountsAgree(lines: seq<string>, n: nat)
    requires n <= |lines| && AllIndented(lines)
    ensures |Pins(lines, n)| <= ShapedCount(lines, n)
    ensures |Pins(lines, n)| == ShapedCount(lines, n) <==> NothingExempt(lines, n)
  {
    hide PinAt, Shaped;
    if n > 0 {
      CountsAgree(lines, n - 1);
      var p := PinAt(lines, n - 1);
      if p.Some? {
        IndentedIsShaped(lines, n - 1);
        PinsMean(lines, n - 1, p.value.package);
      }
      OneMoreLine(lines, n);
    }
  }

  lemma OneMoreLine(lines: seq<string>, n: nat)
    requires 0 < n <= |lines|
    ensures NothingExempt(lines, n) <==>
      NothingExempt(lines, n - 1) && (Shaped(lines[n - 1]) ==> PinAt(lines, n - 1).Some?) &&
      (PinAt(lines, n - 1).Some? ==>
        forall i | 0 <= i < n - 1 && PinAt(lines, i).Some? :: PinAt(lines, i).value.package != PinAt(lines, n - 1).value.package)
  {
    hide PinAt, Shaped;
  }

  /** What the count guards against: when every pin is indented, a block with pins is accepted
      exactly when every pin-shaped line of it is read, and no package twice. */
  lemma AcceptedExactly(block: string)
    requires var lines := SplitChar(block, '\n'); AllIndented(lines) && Pins(lines, |lines|) != map[]
    ensures var lines := SplitChar(block, '\n'); ParseBlock(block).Versions? <==> NothingExempt(lines, |lines|)
    ensures ParseBlock(block).Versions? ==> ParseBlock(block).pins == Pins(SplitChar(block, '\n'), |SplitChar(block, '\n')|)
  {
    hide PinAt, Shaped, SplitChar, AllIndented, NothingExempt, Pins, ShapedCount;
    var lines := SplitChar(block, '\n');
    CountsAgree(lines, |lines|);
  }

  ghost function ShapedLines(lines: seq<string>, n: nat): set<nat>
    requires n <= |lines|
  {
    set i: nat | i < n && LooksLikePin(lines[i])
  }

  lemma {:induction false} ShapedAreCounted(lines: seq<string>, n: nat)
    requires n <= |lines|
    ensures |ShapedLines(lines, n)| == ShapedCount(lines, n)
  {
    hide Shaped, LooksLikePin;
    if n == 0 {
      assert ShapedLines(lines, n) == {};
    } else {
      ShapedAreCounted(lines, n - 1);
      ShapedMeans(lines[n - 1]);
      var before := ShapedLines(lines, n - 1);
      assert ShapedLines(lines, n) == if LooksLikePin(lines[n - 1]) then before + {n - 1} else before;
    }
  }

  /** A block is refused for having no pins when no line of it pins anything, and else for
      having more or fewer pin-shaped lines than pinned packages. */
  lemma ParseMeans(block: string)
    ensures var lines, parsed := SplitChar(block, '\n'), ParseBlock(block);
      (parsed.ZeroPins? <==> forall i: nat, package, version | i < |lines| :: !PinsAt(lines, i, package, version)) &&
      (parsed.Unparsed? <==> !parsed.ZeroPins? && |Pins(lines, |lines|)| != |ShapedLines(lines, |lines|)|) &&
      (parsed.Versions? ==> parsed.pins == Pins(lines, |lines|))
  {
    hide PinAt, SplitChar, Pins, ShapedCount, ShapedLines, PinsAt;
    var lines := SplitChar(block, '\n');
    ShapedAreCounted(lines, |lines|);
    NoPinsMean(lines);
    assert ParseBlock(block).ZeroPins? <==> Pins(lines, |lines|) == map[];
  }

  lemma NoPinsMean(lines: seq<string>)
    ensures Pins(lines, |lines|) == map[] <==> forall i: nat, package, version | i < |lines| :: !PinsAt(lines, i, package, version)
  {
    hide PinAt, Pins, PinsAt;
    var pins := Pins(lines, |lines|);
    if pins == map[] {
      forall i: nat, package, version | i < |lines| ensures !PinsAt(lines, i, package, version) {
        PinMeans(lines, i, package, version);
        PinsMean(lines, |lines|, package);
      }
    }
    if forall i: nat, package, version | i < |lines| :: !PinsAt(lines, i, package, version) {
      forall package ensures package !in pins {
        PinsMean(lines, |lines|, package);
        forall i: nat | i < |lines| && PinAt(lines, i).Some? ensures PinAt(lines, i).value.package != package {
          PinMeans(lines, i, PinAt(lines, i).value.package, PinAt(lines, i).value.version);
        }
      }
      assert pins.Keys == {};
    }
  }

  /** Without that: an unindented pin after an empty line is read but not counted, and makes up
      for an indented one that is counted but, for the word after it, not read. */
  lemma BrokenPinUnnoticed()
    ensures ParseBlock("\na=1\n b=2 x") == Versions(map["a" := "1"])
    ensures SplitChar("\na=1\n b=2 x", '\n') == ["", "a=1", " b=2 x"] && LooksLikePin(" b=2 x")
  {
    var lines := ["", "a=1", " b=2 x"];
    ThreeLines();
    LastIsShaped();
    FirstTwo(lines);
    LastIsUnread(lines);
    hide *;
    ShapedMeans(lines[2]);
    OneOfThree(lines);
    Accepted("\na=1\n b=2 x", lines);
  }

  lemma Accepted(block: string, lines: seq<string>)
    requires SplitChar(block, '\n') == lines && Pins(lines, |lines|) == map["a" := "1"] && ShapedCount(lines, |lines|) == 1
    ensures ParseBlock(block) == Versions(map["a" := "1"])
  {
    hide SplitChar, Pins, ShapedCount;
    assert "a" in Pins(lines, |lines|);
  }

  lemma OneOfThree(lines: seq<string>)
    requires |lines| == 3 && PinAt(lines, 0).None? && PinAt(lines, 1) == Some(Pin("a", "1"))
    requires PinAt(lines, 2).None? && !Shaped(lines[0]) && !Shaped(lines[1]) && Shaped(lines[2])
    ensures Pins(lines, 3) == map["a" := "1"] && ShapedCount(lines, 3) == 1
  {
    hide PinAt, Shaped;
    assert Pins(lines, 1) == map[] && Pins(lines, 2) == map["a" := "1"];
    assert ShapedCount(lines, 1) == 0 && ShapedCount(lines, 2) == 0;
  }

  lemma LastIsShaped()
    ensures LooksLikePin(" b=2 x")
  {
    assert " b=2 x" == " " + ("b" + "=" + "2 x");
    assert White(" ") && IsPackage("b") && "2 x"[0] as int == 50;
  }

  lemma ThreeLines()
    ensures SplitChar("\na=1\n b=2 x", '\n') == ["", "a=1", " b=2 x"]
  {
    hide SplitChar;
    assert "\na=1\n b=2 x" == "" + "\n" + ("a=1" + "\n" + " b=2 x");
    SplitCons("", "a=1" + "\n" + " b=2 x");
    SplitCons("a=1", " b=2 x");
    SplitAlone(" b=2 x");
  }

  lemma FirstTwo(lines: seq<string>)
    requires |lines| == 3 && lines[0] == "" && lines[1] == "a=1"
    ensures PinAt(lines, 0).None? && !Shaped(lines[0]) && !Shaped(lines[1])
    ensures PinAt(lines, 1) == Some(Pin("a", "1"))
  {
    assert PinLine(lines[1], "", "a", "1", "") by { assert "a=1" == "" + ("a" + "=" + "1" + ""); }
    assert PinsAt(lines, 1, "a", "1");
    PinMeans(lines, 1, "a", "1");
  }

  lemma LastIsUnread(lines: seq<string>)
    requires |lines| == 3 && lines[2] == " b=2 x"
    ensures PinAt(lines, 2).None?
  {
    var line, body, rest := " b=2 x", "b=2 x", "2 x";
    assert line[1..] == body && line[0] == ' ' && body[0] == 'b' && IndentOf(body) == 0;
    assert body[1..] == "=2 x" && FirstIndex("=2 x", '=') == 0 && FirstIndex(body, '=') == 1;
    assert body[2..] == rest && rest[1] == ' ' && rest[1..][1] == 'x';
    assert VersionOf(rest).None?;
  }
}
