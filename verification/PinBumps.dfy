/** tools/checkToolchainPinDrift.py: rewriting pins inside the toolchain blocks, and reading them back. */
module PinBumps {
  import opened Numerals
  import opened Text
  import opened PinText
  import opened PinLines

  datatype Bump = Bump(package: string, was: string, now: string)

  const ARCHITECTURES: seq<string> := ["amd64", "arm64"]
  const THEN := "; then"

  function Marker(architecture: string): string {
    "[ \"${sArchitecture}\" = \"" + architecture + "\" ] && ! apt-get install"
  }

  datatype Extracted = Block(text: string) | NotPinned | NoBlock

  /** `fsExtractToolchainBlock` */
  function Extract(text: string, architecture: string): Extracted {
    if architecture !in ARCHITECTURES then NotPinned
    else
      var m := Find(text, Marker(architecture));
      if m.None? then NoBlock
      else
        var rest := text[m.value + |Marker(architecture)|..];
        var t := Find(rest, THEN);
        Block(if t.None? then rest else rest[..t.value])
  }

  predicate Stands(s: string, p: string) { exists k: nat | k <= |s| :: FirstAt(s, p, k) }

  /** Which text is cut out for an architecture: what follows the first test for it, up to the
      first closing word, or to the end. Other architectures have no pins. */
  lemma ExtractMeans(text: string, a: string)
    ensures var marker, e := "[ \"${sArchitecture}\" = \"" + a + "\" ] && ! apt-get install", Extract(text, a);
      (e == NotPinned <==> a != "amd64" && a != "arm64") &&
      (e == NoBlock <==> (a == "amd64" || a == "arm64") && !Stands(text, marker)) &&
      (forall k: nat | FirstAt(text, marker, k) && (a == "amd64" || a == "arm64") ::
        var rest := text[k + |marker|..];
        (!Stands(rest, "; then") ==> e == Block(rest)) &&
        (forall n: nat | FirstAt(rest, "; then", n) :: e == Block(rest[..n])))
  {
    hide FirstAt, Find;
    var marker := "[ \"${sArchitecture}\" = \"" + a + "\" ] && ! apt-get install";
    forall k: nat ensures FirstAt(text, marker, k) <==> Find(text, marker) == Some(k) { FirstIsFound(text, marker, k); }
    var m := Find(text, marker);
    if m.Some? && (a == "amd64" || a == "arm64") {
      var rest := text[m.value + |marker|..];
      forall n: nat ensures FirstAt(rest, "; then", n) <==> Find(rest, "; then") == Some(n) { FirstIsFound(rest, "; then", n); }
    }
  }

  // ----- Bumping one block -----

  predicate Mentions(block: string, name: string) { Find(block, " " + name + "=").Some? }

  function PinString(name: string, version: string): string { name + "=" + version }

  /** One round of the inner loop; None where the source raises. */
  function BumpOne(block: string, b: Bump): Option<string> {
    if !Mentions(block, b.package) then Some(block)
    else if Count(block, PinString(b.package, b.was)) != 1 then None
    else Some(Replace(block, PinString(b.package, b.was), PinString(b.package, b.now)))
  }

  function BumpBlock(block: string, bumps: seq<Bump>): Option<string> {
    if bumps == [] then Some(block)
    else
      var r := BumpBlock(block, bumps[..|bumps| - 1]);
      if r.None? then None else BumpOne(r.value, bumps[|bumps| - 1])
  }

  /** One round of the outer loop. */
  function BumpArchitecture(text: string, architecture: string, bumps: seq<Bump>): Option<string> {
    var block := Extract(text, architecture);
    if !block.Block? then None
    else
      var r := BumpBlock(block.text, bumps);
      if r.None? then None else Some(ReplaceFirst(text, block.text, r.value))
  }

  function Bumped(text: string, bumps: seq<Bump>): Option<string> {
    var first := BumpArchitecture(text, "amd64", bumps);
    if first.None? then None else BumpArchitecture(first.value, "arm64", bumps)
  }

  method BumpBlockPins(block: string, bumps: seq<Bump>) returns (r: Option<string>)
    ensures r == BumpBlock(block, bumps)
  {
    hide Mentions, Count, Replace;
    var updated := block;
    for i := 0 to |bumps|
      invariant BumpBlock(block, bumps[..i]) == Some(updated)
    {
      assert bumps[..i + 1][..i] == bumps[..i];
      var b := bumps[i];
      if Mentions(updated, b.package) {
        var pin := PinString(b.package, b.was);
        if Count(updated, pin) != 1 {
          StaysNone(block, bumps, i + 1);
          return None;
        }
        updated := Replace(updated, pin, PinString(b.package, b.now));
      }
    }
    assert bumps[..|bumps|] == bumps;
    return Some(updated);
  }

  lemma {:induction false} StaysNone(block: string, bumps: seq<Bump>, i: nat)
    requires i <= |bumps| && BumpBlock(block, bumps[..i]).None?
    ensures BumpBlock(block, bumps).None?
    decreases |bumps|
  {
    if i < |bumps| {
      assert bumps[..|bumps| - 1][..i] == bumps[..i];
      StaysNone(block, bumps[..|bumps| - 1], i);
    } else {
      assert bumps[..i] == bumps;
    }
  }

  /** `fsApplyPinBumps`; None where it raises. */
  method ApplyPinBumps(text: string, bumps: seq<Bump>) returns (r: Option<string>)
    ensures r == Bumped(text, bumps)
  {
    hide Extract, ReplaceFirst, BumpBlock;
    var updated := text;
    var i := 0;
    while i < 2
      invariant 0 <= i <= 2
      invariant i == 0 ==> updated == text
      invariant i == 1 ==> BumpArchitecture(text, "amd64", bumps) == Some(updated)
      invariant i == 2 ==> Bumped(text, bumps) == Some(updated)
    {
      var block := Extract(updated, ARCHITECTURES[i]);
      if !block.Block? { return None; }
      var bumped := BumpBlockPins(block.text, bumps);
      if bumped.None? { return None; }
      updated := ReplaceFirst(updated, block.text, bumped.value);
      i := i + 1;
    }
    return Some(updated);
  }

  // ----- What a bump does to the pins of a block -----

  predicate VersionChar(c: char) { Alphanumeric(c) || c == '.' || c == '+' || c == '-' || c == '~' || c == ':' }

  /** The alphabet Debian allows in a version. */
  predicate DebianVersion(v: string) { v != "" && forall i | 0 <= i < |v| :: VersionChar(v[i]) }

  lemma VersionIsPlain(v: string)
    requires DebianVersion(v)
    ensures NoSpace(v) && ' ' !in v && '=' !in v && ';' !in v && '[' !in v
  {
  }

  function PinsOf(block: string): map<string, string> {
    Pins(SplitChar(block, '\n'), |SplitChar(block, '\n')|)
  }

  function ShapedIn(block: string): nat {
    ShapedCount(SplitChar(block, '\n'), |SplitChar(block, '\n')|)
  }

  ghost predicate TidyBlock(block: string) { Tidy(SplitChar(block, '\n')) }

  /** Two texts that differ in one value after an `=`. */
  ghost predicate OneValue(s: string, s': string, a: string, was: string, now: string, b: string) {
    s == a + was + b && s' == a + now + b && a != "" && a[|a| - 1] == '='
  }

  /** A line number, the text around the line, and the line's own ends. */
  datatype Place = Place(i: nat, before: string, after: string, indent: string, tail: string)

  function PinLine(pl: Place, name: string, version: string): string { pl.indent + (name + "=" + version + pl.tail) }

  /** The last line that pins `name`, taken apart. */
  ghost predicate OnLine(lines: seq<string>, name: string, version: string, pl: Place) {
    && pl.i < |lines| && PinAt(lines, pl.i) == Some(Pin(name, version)) && TidyLine(lines[pl.i]) && PackageName(name)
    && lines[pl.i] == PinLine(pl, name, version) && pl.indent == lines[pl.i][..IndentOf(lines[pl.i])] && Tail(pl.tail)
    && forall j | pl.i < j < |lines| :: PinAt(lines, j).None? || PinAt(lines, j).value.package != name
  }

  ghost predicate Placed(block: string, name: string, version: string, pl: Place) {
    LineAt(block, pl.i, pl.before, pl.after) && OnLine(SplitChar(block, '\n'), name, version, pl)
  }

  lemma TidyPin(lines: seq<string>, i: nat)
    requires Tidy(lines) && i < |lines| && PinAt(lines, i).Some?
    ensures TidyLine(lines[i]) && PinOf(lines[i][IndentOf(lines[i])..]) == PinAt(lines, i)
  {
  }

  lemma PinPlace(block: string, name: string) returns (pl: Place)
    requires TidyBlock(block) && name in PinsOf(block)
    ensures Placed(block, name, PinsOf(block)[name], pl)
  {
    var lines := SplitChar(block, '\n');
    var i := LastPin(lines, |lines|, name);
    hide PinOf, Pins, SplitChar, PinAt, Tidy, TidyLine;
    TidyPin(lines, i);
    var indent, tail := PinLineParts(lines[i]);
    var u, w := CutLine(block, i);
    PinIsNamed(lines[i][IndentOf(lines[i])..]);
    pl := Place(i, u, w, indent, tail);
  }

  lemma PlacedText(block: string, name: string, version: string, pl: Place)
    requires Placed(block, name, version, pl)
    ensures var c := pl.before + pl.indent; c != "" && c[|c| - 1] == ' ' && block == c + (name + "=" + version) + (pl.tail + pl.after)
  {
    hide SplitChar, PinAt;
    var lines := SplitChar(block, '\n');
    IndentEnds(lines[pl.i]);
    assert block == pl.before + PinLine(pl, name, version) + pl.after;
    Regroup(pl.before, pl.indent, name + "=" + version, pl.tail, pl.after);
  }

  lemma IndentEnds(line: string)
    requires TidyLine(line)
    ensures var indent := line[..IndentOf(line)]; indent != "" && indent[|indent| - 1] == ' '
  {
  }

  lemma Regroup(a: string, b: string, c: string, d: string, e: string)
    ensures a + (b + (c + d)) + e == (a + b) + c + (d + e)
  {
  }

  /** Rewriting the only counted occurrence of `name=was` in a block whose pin of `name` reads `was + extra`
      gives a block whose pin reads `now + extra`, and no other pin changes. */
  lemma RewritePin(block: string, name: string, was: string, now: string, extra: string)
    returns (a: string, b: string)
    requires TidyBlock(block) && name in PinsOf(block) && PinsOf(block)[name] == was + extra
    requires Count(block, PinString(name, was)) == 1 && ' ' !in was
    requires now + extra != "" && NoSpace(now + extra) && '=' !in now + extra
    ensures var block' := Replace(block, PinString(name, was), PinString(name, now));
      OneValue(block, block', a, was, now, b) && TidyBlock(block')
      && PinsOf(block') == PinsOf(block)[name := now + extra] && ShapedIn(block') == ShapedIn(block)
    ensures EndsWith(a, " " + name + "=") && ' ' !in name
  {
    hide TidyBlock, PinsOf, ShapedIn, Count, Replace, NoSpace, EndsWith;
    var pl := PinPlace(block, name);
    PlacedText(block, name, was + extra, pl);
    var c := pl.before + pl.indent;
    a, b := c + (name + "="), extra + (pl.tail + pl.after);
    PlacedName(block, name, was + extra, pl);
    hide Placed;
    ReplacedPin(block, name, was, now, extra, c, pl.tail + pl.after);
    RewriteInPlace(block, name, was + extra, now + extra, pl);
    RegroupPin(pl, name, now, extra);
    EndsInMention(c, name);
  }

  lemma EndsInMention(c: string, name: string)
    requires c != "" && c[|c| - 1] == ' '
    ensures EndsWith(c + (name + "="), " " + name + "=")
  {
    assert c + (name + "=") == c[..|c| - 1] + (" " + name + "=");
  }

  lemma PlacedName(block: string, name: string, version: string, pl: Place)
    requires Placed(block, name, version, pl)
    ensures ' ' !in name
  {
    NameHasNoEquals(name);
  }

  lemma RegroupPin(pl: Place, name: string, now: string, extra: string)
    ensures pl.before + PinLine(pl, name, now + extra) + pl.after
      == (pl.before + pl.indent + (name + "=")) + now + (extra + (pl.tail + pl.after))
  {
    var c := pl.before + pl.indent;
    Regroup(pl.before, pl.indent, name + "=" + (now + extra), pl.tail, pl.after);
    assert c + (name + "=" + (now + extra)) == (c + (name + "=")) + now + extra;
    assert ((c + (name + "=")) + now + extra) + (pl.tail + pl.after) == (c + (name + "=")) + now + (extra + (pl.tail + pl.after));
  }

  lemma ReplacedPin(block: string, name: string, was: string, now: string, extra: string, c: string, rest: string)
    requires block == c + (name + "=" + (was + extra)) + rest && c != "" && c[|c| - 1] == ' '
    requires ' ' !in name && ' ' !in was && Count(block, PinString(name, was)) == 1
    ensures block == (c + (name + "=")) + was + (extra + rest)
    ensures Replace(block, PinString(name, was), PinString(name, now)) == (c + (name + "=")) + now + (extra + rest)
    ensures (c + (name + "="))[|c + (name + "=")| - 1] == '='
  {
    hide Count, Replace;
    var p, q := PinString(name, was), PinString(name, now);
    RegroupValue(c, name, was, extra, rest);
    RegroupAround(c, name, was, extra + rest);
    RegroupAround(c, name, now, extra + rest);
    assert ' ' !in p;
    OnlyOccurrence(c, p, extra + rest, q);
  }

  lemma RegroupValue(c: string, name: string, v: string, extra: string, rest: string)
    ensures c + (name + "=" + (v + extra)) + rest == (c + (name + "=")) + v + (extra + rest)
  {
    assert c + (name + "=" + (v + extra)) == (c + (name + "=")) + v + extra;
  }

  lemma RegroupAround(c: string, name: string, v: string, rest: string)
    ensures c + (name + "=" + v) + rest == (c + (name + "=")) + v + rest
  {
  }

  lemma RewriteInPlace(block: string, name: string, was: string, now: string, pl: Place)
    requires Placed(block, name, was, pl) && TidyBlock(block)
    requires now != "" && NoSpace(now) && '=' !in now
    ensures var block' := pl.before + PinLine(pl, name, now) + pl.after;
      TidyBlock(block') && PinsOf(block') == PinsOf(block)[name := now] && ShapedIn(block') == ShapedIn(block)
  {
    var lines, line := SplitChar(block, '\n'), PinLine(pl, name, now);
    LinesHoldNoBreak(block);
    assert lines[pl.i] in lines;
    hide SplitChar;
    LineHasNoBreak(pl, name, was, now);
    assert SplitChar(pl.before + line + pl.after, '\n') == lines[pl.i := line];
    hide PinAt, Tidy, Pins, ShapedCount, LineAt;
    RewriteOnLine(lines, name, was, now, pl);
  }

  lemma RewriteOnLine(lines: seq<string>, name: string, was: string, now: string, pl: Place)
    requires OnLine(lines, name, was, pl) && Tidy(lines) && now != "" && NoSpace(now) && '=' !in now
    ensures var lines' := lines[pl.i := PinLine(pl, name, now)];
      Tidy(lines') && Pins(lines', |lines'|) == Pins(lines, |lines|)[name := now]
      && ShapedCount(lines', |lines'|) == ShapedCount(lines, |lines|)
  {
    hide PinAt, Tidy, Pins, ShapedCount, TidyLine, NoSpace, Tail, Shaped;
    RewriteLine(lines, pl.i, pl.indent, pl.tail, now);
    StaysTidy(lines, lines[pl.i := PinLine(pl, name, now)], pl.i, name, now);
    PinsWithOneVersion(lines, lines[pl.i := PinLine(pl, name, now)], pl.i, name, now, |lines|);
  }

  lemma LineHasNoBreak(pl: Place, name: string, was: string, now: string)
    requires '\n' !in PinLine(pl, name, was) && NoSpace(now) && Tail(pl.tail)
    ensures '\n' !in PinLine(pl, name, now)
  {
    var line := PinLine(pl, name, was);
    assert forall k | 0 <= k < |pl.indent| :: pl.indent[k] == line[k];
    assert forall k | 0 <= k < |name| :: name[k] == line[|pl.indent| + k];
    assert '\n' !in pl.indent && '\n' !in name;
    assert forall k | 0 <= k < |now| :: !IsSpace(now[k]);
  }

  // ----- All bumps of one block -----

  ghost predicate GoodBump(b: Bump) { PackageName(b.package) && DebianVersion(b.now) }

  /** The bumps carry the versions this block pins, and name nothing here that is not a pin. */
  ghost predicate Fits(block: string, bumps: seq<Bump>) {
    && (forall i, j | 0 <= i < j < |bumps| :: bumps[i].package != bumps[j].package)
    && forall b | b in bumps :: GoodBump(b) && FitsOne(block, b)
  }

  ghost predicate FitsOne(block: string, b: Bump) {
    Mentions(block, b.package) ==> b.package in PinsOf(block) && PinsOf(block)[b.package] == b.was && ' ' !in b.was
  }

  /** The old pins with the bumps that name one of them applied. */
  function Overridden(pins: map<string, string>, bumps: seq<Bump>): (r: map<string, string>)
    ensures r.Keys == pins.Keys
  {
    if bumps == [] then pins
    else
      var b, r := bumps[|bumps| - 1], Overridden(pins, bumps[..|bumps| - 1]);
      if b.package in r then r[b.package := b.now] else r
  }

  lemma {:induction false} OverriddenMeans(pins: map<string, string>, bumps: seq<Bump>, name: string)
    requires name in pins && forall i, j | 0 <= i < j < |bumps| :: bumps[i].package != bumps[j].package
    ensures (forall b | b in bumps :: b.package != name) ==> Overridden(pins, bumps)[name] == pins[name]
    ensures forall b | b in bumps && b.package == name :: Overridden(pins, bumps)[name] == b.now
  {
    if bumps != [] {
      OverriddenMeans(pins, bumps[..|bumps| - 1], name);
      assert bumps == bumps[..|bumps| - 1] + [bumps[|bumps| - 1]];
    }
  }

  lemma PinnedIsMentioned(block: string, name: string)
    requires TidyBlock(block) && name in PinsOf(block)
    ensures Mentions(block, name)
  {
    hide TidyBlock, PinsOf, Placed, Find;
    var pl := PinPlace(block, name);
    PlacedText(block, name, PinsOf(block)[name], pl);
    var c := pl.before + pl.indent;
    MentionedHere(c, name, PinsOf(block)[name], pl.tail + pl.after);
  }

  lemma MentionedHere(c: string, name: string, version: string, rest: string)
    requires c != "" && c[|c| - 1] == ' '
    ensures Mentions(c + (name + "=" + version) + rest, name)
  {
    hide Find;
    var before, t := c[..|c| - 1], " " + name + "=";
    assert c + (name + "=" + version) + rest == before + t + (version + rest);
    OccursInside(before, t, version + rest);
    FoundBefore(before + t + (version + rest), t, |before|);
  }

  /** Rewriting a value mentions no package anew. */
  lemma NothingNewMentioned(s: string, s': string, a: string, was: string, now: string, b: string, name: string)
    requires OneValue(s, s', a, was, now, b) && DebianVersion(now) && PackageName(name) && Mentions(s', name)
    ensures Mentions(s, name)
  {
    var t := " " + name + "=";
    VersionIsPlain(now);
    NameHasNoEquals(name);
    assert Guarded(t, now);
    var k := Find(s', t).value;
    assert OccursAt(s', t, k);
    hide Guarded, Find;
    NoNewMatch(a, was, now, b, t, k);
    if k + |t| <= |a| && OccursAt(s, t, k) { FoundBefore(s, t, k); } else { FoundBefore(s, t, k - |now| + |was|); }
  }

  /** What a chain of bumps keeps: the pins follow the bumps, and nothing is mentioned that was not before. */
  ghost predicate Follows(block: string, r: string, bumps: seq<Bump>) {
    && TidyBlock(r) && PinsOf(r) == Overridden(PinsOf(block), bumps) && ShapedIn(r) == ShapedIn(block)
    && forall name: string :: PackageName(name) && Mentions(r, name) ==> Mentions(block, name)
  }

  lemma {:induction false} BumpsFollow(block: string, bumps: seq<Bump>)
    requires TidyBlock(block) && Fits(block, bumps) && BumpBlock(block, bumps).Some?
    ensures Follows(block, BumpBlock(block, bumps).value, bumps)
  {
    hide TidyBlock, PinsOf, ShapedIn, Mentions, BumpOne, Follows, FitsOne, GoodBump;
    if bumps == [] {
      NoBumpsFollow(block);
    } else {
      FitsPrefix(block, bumps);
      BumpsFollow(block, bumps[..|bumps| - 1]);
      assert bumps[|bumps| - 1] in bumps;
      BumpFollows(block, BumpBlock(block, bumps[..|bumps| - 1]).value, bumps);
    }
  }

  lemma NoBumpsFollow(block: string)
    requires TidyBlock(block)
    ensures Follows(block, block, [])
  {
  }

  lemma FitsPrefix(block: string, bumps: seq<Bump>)
    requires Fits(block, bumps) && bumps != []
    ensures Fits(block, bumps[..|bumps| - 1])
    ensures forall b | b in bumps[..|bumps| - 1] :: b.package != bumps[|bumps| - 1].package
  {
    hide FitsOne, GoodBump;
    assert bumps == bumps[..|bumps| - 1] + [bumps[|bumps| - 1]];
  }

  /** The next bump finds the package still at its old version. */
  lemma StillOld(block: string, r: string, bumps: seq<Bump>)
    requires bumps != [] && Fits(block, bumps) && Follows(block, r, bumps[..|bumps| - 1])
    requires Mentions(r, bumps[|bumps| - 1].package)
    ensures var b := bumps[|bumps| - 1]; b.package in PinsOf(r) && PinsOf(r)[b.package] == b.was && ' ' !in b.was
  {
    hide PinsOf, TidyBlock, ShapedIn, Mentions;
    var b := bumps[|bumps| - 1];
    assert b in bumps;
    FitsPrefix(block, bumps);
    assert Mentions(block, b.package);
    OverriddenMeans(PinsOf(block), bumps[..|bumps| - 1], b.package);
  }

  /** A bump either leaves the block as it is or rewrites one value in it. */
  lemma BumpEffect(block: string, r: string, bumps: seq<Bump>) returns (a: string, w: string)
    requires bumps != [] && Fits(block, bumps) && Follows(block, r, bumps[..|bumps| - 1])
    requires BumpOne(r, bumps[|bumps| - 1]).Some? && Mentions(r, bumps[|bumps| - 1].package)
    ensures var b, r' := bumps[|bumps| - 1], BumpOne(r, bumps[|bumps| - 1]).value;
      OneValue(r, r', a, b.was, b.now, w) && TidyBlock(r') && PinsOf(r') == PinsOf(r)[b.package := b.now]
      && ShapedIn(r') == ShapedIn(r) && b.package in PinsOf(r) && GoodBump(b)
      && EndsWith(a, " " + b.package + "=") && PinsOf(r)[b.package] == b.was
  {
    var b := bumps[|bumps| - 1];
    assert b in bumps;
    StillOld(block, r, bumps);
    hide PinsOf, TidyBlock, ShapedIn, Mentions, Fits, FitsOne, Count, Replace;
    VersionIsPlain(b.now);
    assert b.was + "" == b.was && b.now + "" == b.now;
    a, w := RewritePin(r, b.package, b.was, b.now, "");
  }

  lemma BumpFollows(block: string, r: string, bumps: seq<Bump>)
    requires bumps != [] && Fits(block, bumps) && Follows(block, r, bumps[..|bumps| - 1])
    requires BumpOne(r, bumps[|bumps| - 1]).Some?
    ensures Follows(block, BumpOne(r, bumps[|bumps| - 1]).value, bumps)
  {
    hide PinsOf, TidyBlock, ShapedIn, Mentions, Fits, OneValue, Count, Replace, GoodBump;
    var b := bumps[|bumps| - 1];
    if Mentions(r, b.package) {
      var a, w := BumpEffect(block, r, bumps);
      NewMentions(r, BumpOne(r, b).value, a, b, w);
    } else if b.package in PinsOf(r) {
      PinnedIsMentioned(r, b.package);
    }
  }

  lemma NewMentions(r: string, r': string, a: string, b: Bump, w: string)
    requires OneValue(r, r', a, b.was, b.now, w) && GoodBump(b)
    ensures forall name: string :: PackageName(name) && Mentions(r', name) ==> Mentions(r, name)
  {
    hide Mentions, OneValue, PackageName, DebianVersion;
    forall name: string | PackageName(name) && Mentions(r', name) ensures Mentions(r, name) {
      NothingNewMentioned(r, r', a, b.was, b.now, w, name);
    }
  }

  function OverriddenParse(p: Parsed, bumps: seq<Bump>): Parsed {
    if p.Versions? then Versions(Overridden(p.pins, bumps)) else p
  }

  /** Bumping commutes with parsing, block by block: failures to parse stay what they were. */
  lemma BlockCommutes(block: string, bumps: seq<Bump>)
    requires TidyBlock(block) && Fits(block, bumps) && BumpBlock(block, bumps).Some?
    ensures ParseBlock(BumpBlock(block, bumps).value) == OverriddenParse(ParseBlock(block), bumps)
  {
    BumpsFollow(block, bumps);
    hide TidyBlock, Fits, Pins, ShapedCount, BumpBlock, SplitChar;
    var pins, pins' := PinsOf(block), PinsOf(BumpBlock(block, bumps).value);
    assert pins'.Keys == pins.Keys && |pins'| == |pins'.Keys| && |pins| == |pins.Keys|;
    assert pins == map[] <==> pins.Keys == {};
    assert pins' == map[] <==> pins'.Keys == {};
  }

  /** A version that merely begins with the bumped one is rewritten too, to a version nobody chose:
      the bump gives the new version exactly when the old one was the whole pin. */
  lemma PrefixIsRewritten(block: string, b: Bump, extra: string)
    requires TidyBlock(block) && b.package in PinsOf(block) && PinsOf(block)[b.package] == b.was + extra && ' ' !in b.was
    requires GoodBump(b) && NoSpace(extra) && '=' !in extra && BumpOne(block, b).Some?
    ensures PinsOf(BumpOne(block, b).value) == PinsOf(block)[b.package := b.now + extra]
    ensures PinsOf(BumpOne(block, b).value)[b.package] == b.now <==> extra == ""
  {
    hide PinsOf, TidyBlock, Mentions, Count, Replace;
    VersionIsPlain(b.now);
    PinnedIsMentioned(block, b.package);
    var a, w := RewritePin(block, b.package, b.was, b.now, extra);
    assert |b.now + extra| == |b.now| + |extra|;
  }

  // ----- The whole file -----

  /** The marker's first occurrence ends at `at`. */
  predicate MarkerEnds(text: string, architecture: string, at: nat) {
    at >= |Marker(architecture)| && Find(text, Marker(architecture)) == Some(at - |Marker(architecture)|)
  }

  /** The first closing word stands at `at`. */
  predicate Closes(text: string, at: nat) { Find(text, THEN) == Some(at) }

  /** The two blocks in file order: each marker's first occurrence ends where its block begins, and
      each block runs to the first closing word after that. */
  ghost predicate LaidOut(u: string, amd: string, between: string, arm: string, v: string) {
    && MarkerEnds(u + amd + between + arm + v, "amd64", |u|)
    && MarkerEnds(u + amd + between + arm + v, "arm64", |u + amd + between|)
    && Closes(amd + (between + arm + v), |amd|) && Closes(arm + v, |arm|)
    && |between| >= |THEN| + |Marker("arm64")|
  }

  lemma ExtractsOne(before: string, block: string, after: string, architecture: string)
    requires architecture in ARCHITECTURES && MarkerEnds(before + block + after, architecture, |before|) && Closes(block + after, |block|)
    ensures Extract(before + block + after, architecture) == Block(block)
  {
    hide Find, Marker;
    assert (before + block + after)[|before|..] == block + after;
    assert (block + after)[..|block|] == block;
  }

  lemma ExtractsBlocks(u: string, amd: string, between: string, arm: string, v: string)
    requires LaidOut(u, amd, between, arm, v)
    ensures var text := u + amd + between + arm + v; Extract(text, "amd64") == Block(amd) && Extract(text, "arm64") == Block(arm)
  {
    hide MarkerEnds, Closes, Extract, Marker;
    assert u + amd + between + arm + v == u + amd + (between + arm + v);
    assert "amd64" == ARCHITECTURES[0] && "arm64" == ARCHITECTURES[1];
    ExtractsOne(u, amd, between + arm + v, "amd64");
    ExtractsOne(u + amd + between, arm, v, "arm64");
  }

  lemma MarkersAreGuarded(now: string)
    requires DebianVersion(now)
    ensures Guarded(Marker("amd64"), now) && Guarded(Marker("arm64"), now) && Guarded(THEN, now)
  {
    VersionIsPlain(now);
    MarkerIsGuarded("amd64", now);
    MarkerIsGuarded("arm64", now);
  }

  lemma MarkerIsGuarded(architecture: string, now: string)
    requires now != "" && ' ' !in now && '[' !in now && '=' !in architecture
    ensures Guarded(Marker(architecture), now)
  {
    var head, tail := "[ \"${sArchitecture}\" = \"", "\" ] && ! apt-get install";
    var m := Marker(architecture);
    assert m == head + architecture + tail;
    assert forall j | 0 <= j < |head| :: m[j] == head[j];
    assert forall j | |head| <= j < |head| + |architecture| :: m[j] == architecture[j - |head|];
    assert forall j | |head| + |architecture| <= j < |m| :: m[j] == tail[j - |head| - |architecture|];
  }

  lemma MarkerKept(a: string, was: string, now: string, b: string, architecture: string, at: nat)
    requires a != "" && a[|a| - 1] == '=' && Guarded(Marker(architecture), now) && MarkerEnds(a + was + b, architecture, at)
    requires at <= |a| || at - |Marker(architecture)| >= |a| + |was|
    ensures at <= |a| ==> MarkerEnds(a + now + b, architecture, at)
    ensures at > |a| ==> at - |was| + |now| >= 0 && MarkerEnds(a + now + b, architecture, at - |was| + |now|)
  {
    hide Find, Marker, Guarded;
    FirstMatchKept(a, was, now, b, Marker(architecture));
  }

  lemma CloseKept(a: string, was: string, now: string, b: string, at: nat)
    requires a != "" && a[|a| - 1] == '=' && Guarded(THEN, now) && Closes(a + was + b, at)
    requires at + |THEN| <= |a| || at >= |a| + |was|
    ensures at + |THEN| <= |a| ==> Closes(a + now + b, at)
    ensures at >= |a| + |was| ==> Closes(a + now + b, at - |was| + |now|)
  {
    hide Find, Guarded;
    FirstMatchKept(a, was, now, b, THEN);
  }

  /** A value rewritten in the first block keeps the layout. */
  lemma RewriteFirst(u: string, amd: string, amd': string, between: string, arm: string, v: string, a: string, was: string, now: string, b: string)
    requires LaidOut(u, amd, between, arm, v) && OneValue(amd, amd', a, was, now, b) && DebianVersion(now)
    ensures LaidOut(u, amd', between, arm, v)
  {
    hide MarkerEnds, Closes, Marker, Guarded;
    MarkersAreGuarded(now);
    var rest := between + arm + v;
    assert u + amd + between + arm + v == (u + a) + was + (b + rest);
    assert u + amd' + between + arm + v == (u + a) + now + (b + rest);
    MarkerKept(u + a, was, now, b + rest, "amd64", |u|);
    MarkerKept(u + a, was, now, b + rest, "arm64", |u + amd + between|);
    assert amd + rest == a + was + (b + rest) && amd' + rest == a + now + (b + rest);
    CloseKept(a, was, now, b + rest, |amd|);
  }

  /** A value rewritten in the second block keeps the layout. */
  lemma RewriteSecond(u: string, amd: string, between: string, arm: string, arm': string, v: string, a: string, was: string, now: string, b: string)
    requires LaidOut(u, amd, between, arm, v) && OneValue(arm, arm', a, was, now, b) && DebianVersion(now)
    ensures LaidOut(u, amd, between, arm', v)
  {
    hide MarkerEnds, Closes, Marker, Guarded;
    MarkersAreGuarded(now);
    SecondMarkers(u + amd + between, arm, arm', v, a, was, now, b, |u|);
    assert amd + (between + arm + v) == (amd + between + a) + was + (b + v);
    assert amd + (between + arm' + v) == (amd + between + a) + now + (b + v);
    CloseKept(amd + between + a, was, now, b + v, |amd|);
    assert arm + v == a + was + (b + v) && arm' + v == a + now + (b + v);
    CloseKept(a, was, now, b + v, |arm|);
  }

  lemma SecondMarkers(before: string, arm: string, arm': string, v: string, a: string, was: string, now: string, b: string, at: nat)
    requires OneValue(arm, arm', a, was, now, b) && at <= |before|
    requires Guarded(Marker("amd64"), now) && Guarded(Marker("arm64"), now)
    requires MarkerEnds(before + arm + v, "amd64", at) && MarkerEnds(before + arm + v, "arm64", |before|)
    ensures MarkerEnds(before + arm' + v, "amd64", at) && MarkerEnds(before + arm' + v, "arm64", |before|)
  {
    hide MarkerEnds, Marker, Guarded;
    assert before + arm + v == (before + a) + was + (b + v) && before + arm' + v == (before + a) + now + (b + v);
    MarkerKept(before + a, was, now, b + v, "amd64", at);
    MarkerKept(before + a, was, now, b + v, "arm64", |before|);
  }

  lemma {:induction false} FirstStaysLaidOut(u: string, amd: string, between: string, arm: string, v: string, bumps: seq<Bump>)
    requires LaidOut(u, amd, between, arm, v) && TidyBlock(amd) && Fits(amd, bumps) && BumpBlock(amd, bumps).Some?
    ensures LaidOut(u, BumpBlock(amd, bumps).value, between, arm, v)
  {
    hide LaidOut, TidyBlock, Fits, Mentions, OneValue, DebianVersion, Follows, Count, Replace;
    if bumps != [] {
      FitsPrefix(amd, bumps);
      var r := BumpBlock(amd, bumps[..|bumps| - 1]).value;
      FirstStaysLaidOut(u, amd, between, arm, v, bumps[..|bumps| - 1]);
      BumpsFollow(amd, bumps[..|bumps| - 1]);
      if Mentions(r, bumps[|bumps| - 1].package) {
        var a, w := BumpEffect(amd, r, bumps);
        RewriteFirst(u, r, BumpOne(r, bumps[|bumps| - 1]).value, between, arm, v, a, bumps[|bumps| - 1].was, bumps[|bumps| - 1].now, w);
      }
    }
  }

  lemma {:induction false} SecondStaysLaidOut(u: string, amd: string, between: string, arm: string, v: string, bumps: seq<Bump>)
    requires LaidOut(u, amd, between, arm, v) && TidyBlock(arm) && Fits(arm, bumps) && BumpBlock(arm, bumps).Some?
    ensures LaidOut(u, amd, between, BumpBlock(arm, bumps).value, v)
  {
    hide LaidOut, TidyBlock, Fits, Mentions, OneValue, DebianVersion, Follows, Count, Replace;
    if bumps != [] {
      FitsPrefix(arm, bumps);
      var r := BumpBlock(arm, bumps[..|bumps| - 1]).value;
      SecondStaysLaidOut(u, amd, between, arm, v, bumps[..|bumps| - 1]);
      BumpsFollow(arm, bumps[..|bumps| - 1]);
      if Mentions(r, bumps[|bumps| - 1].package) {
        var a, w := BumpEffect(arm, r, bumps);
        RewriteSecond(u, amd, between, r, BumpOne(r, bumps[|bumps| - 1]).value, v, a, bumps[|bumps| - 1].was, bumps[|bumps| - 1].now, w);
      }
    }
  }

  /** The block's text is met first at the block's own place. */
  predicate OwnPlace(text: string, block: string, at: nat) { Find(text, block) == Some(at) }

  lemma ReplacesBlock(before: string, block: string, block': string, after: string)
    requires OwnPlace(before + block + after, block, |before|)
    ensures ReplaceFirst(before + block + after, block, block') == before + block' + after
  {
    hide Find;
    var s := before + block + after;
    assert s[..|before|] == before && s[|before| + |block|..] == after;
  }

  /** `fdictParsePinnedVersions` on the whole text. */
  function ParsePinned(text: string, architecture: string): Option<Parsed> {
    var block := Extract(text, architecture);
    if block.Block? then Some(ParseBlock(block.text)) else None
  }

  /** What the rewriter is promised: a laid-out file, tidy blocks, bumps that carry each block's own versions,
      and each block's text met first in its own place when it is replaced. */
  ghost predicate Promised(u: string, amd: string, between: string, arm: string, v: string, bumps: seq<Bump>) {
    && LaidOut(u, amd, between, arm, v) && TidyBlock(amd) && TidyBlock(arm) && Fits(amd, bumps) && Fits(arm, bumps)
    && OwnPlace(u + amd + between + arm + v, amd, |u|)
    && forall amd': string :: BumpBlock(amd, bumps) == Some(amd') ==> OwnPlace(u + amd' + between + arm + v, arm, |u + amd' + between|)
  }

  lemma FirstStage(u: string, amd: string, between: string, arm: string, v: string, bumps: seq<Bump>)
    requires LaidOut(u, amd, between, arm, v) && OwnPlace(u + amd + between + arm + v, amd, |u|)
    ensures BumpArchitecture(u + amd + between + arm + v, "amd64", bumps) ==
      if BumpBlock(amd, bumps).None? then None else Some(u + BumpBlock(amd, bumps).value + between + arm + v)
  {
    hide Find, LaidOut, TidyBlock, Fits, BumpBlock, ReplaceFirst, Extract;
    ExtractsBlocks(u, amd, between, arm, v);
    if BumpBlock(amd, bumps).Some? {
      var amd' := BumpBlock(amd, bumps).value;
      assert u + amd + between + arm + v == u + amd + (between + arm + v);
      ReplacesBlock(u, amd, amd', between + arm + v);
      assert u + amd' + (between + arm + v) == u + amd' + between + arm + v;
    }
  }

  lemma SecondStage(u: string, amd: string, between: string, arm: string, v: string, bumps: seq<Bump>)
    requires LaidOut(u, amd, between, arm, v) && OwnPlace(u + amd + between + arm + v, arm, |u + amd + between|)
    ensures BumpArchitecture(u + amd + between + arm + v, "arm64", bumps) ==
      if BumpBlock(arm, bumps).None? then None else Some(u + amd + between + BumpBlock(arm, bumps).value + v)
  {
    hide Find, LaidOut, BumpBlock, ReplaceFirst, Extract;
    ExtractsBlocks(u, amd, between, arm, v);
    if BumpBlock(arm, bumps).Some? {
      ReplacesBlock(u + amd + between, arm, BumpBlock(arm, bumps).value, v);
    }
  }

  /** When the rewriter returns, only the blocks have changed, and each architecture's block parses to its old
      pins overridden by the bumps. */
  lemma BumpingCommutesWithParsing(u: string, amd: string, between: string, arm: string, v: string, bumps: seq<Bump>)
    requires Promised(u, amd, between, arm, v, bumps)
    requires Bumped(u + amd + between + arm + v, bumps).Some?
    ensures var text, text' := u + amd + between + arm + v, Bumped(u + amd + between + arm + v, bumps).value;
      && BumpBlock(amd, bumps).Some? && BumpBlock(arm, bumps).Some?
      && text' == u + BumpBlock(amd, bumps).value + between + BumpBlock(arm, bumps).value + v
      && ParsePinned(text, "amd64").Some? && ParsePinned(text, "arm64").Some?
      && ParsePinned(text', "amd64") == Some(OverriddenParse(ParsePinned(text, "amd64").value, bumps))
      && ParsePinned(text', "arm64") == Some(OverriddenParse(ParsePinned(text, "arm64").value, bumps))
  {
    hide LaidOut, TidyBlock, Fits, BumpBlock, Extract, ParseBlock, OwnPlace, BumpArchitecture, OverriddenParse;
    FirstStage(u, amd, between, arm, v, bumps);
    var amd' := BumpBlock(amd, bumps).value;
    FirstStaysLaidOut(u, amd, between, arm, v, bumps);
    SecondStage(u, amd', between, arm, v, bumps);
    var arm' := BumpBlock(arm, bumps).value;
    SecondStaysLaidOut(u, amd', between, arm, v, bumps);
    ExtractsBlocks(u, amd, between, arm, v);
    ExtractsBlocks(u, amd', between, arm', v);
    BlockCommutes(amd, bumps);
    BlockCommutes(arm, bumps);
  }

  /** Where the second block's text is met first inside the rewritten first block, the first is rewritten again
      and the second keeps its stale pins. */
  lemma SecondBlockMissed(u: string, rest: string, between: string, arm: string, v: string, bumps: seq<Bump>)
    requires LaidOut(u, arm + rest, between, arm, v)
    requires Find(u + (arm + rest) + between + arm + v, arm) == Some(|u|)
    requires BumpBlock(arm, bumps).Some?
    ensures BumpArchitecture(u + (arm + rest) + between + arm + v, "arm64", bumps)
      == Some(u + (BumpBlock(arm, bumps).value + rest) + between + arm + v)
  {
    hide Find, LaidOut, BumpBlock, ReplaceFirst, Extract;
    ExtractsBlocks(u, arm + rest, between, arm, v);
    var after, arm' := rest + between + arm + v, BumpBlock(arm, bumps).value;
    assert u + (arm + rest) + between + arm + v == u + arm + after;
    ReplacesBlock(u, arm, arm', after);
    assert u + arm' + after == u + (arm' + rest) + between + arm + v;
  }
}
