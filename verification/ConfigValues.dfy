/** tools/inventoryRepositoryGitSurface.py: decoding config values and joining continued lines. */
module ConfigValues {
  import opened Numerals
  import opened Orders

  const BACKSPACE := 8 as char

  function Unescape(c: char): char {
    if c == 'n' then '\n' else if c == 't' then '\t' else if c == 'b' then BACKSPACE else c
  }

  /** The characters of a raw value, before stripping: escapes resolved, quotes dropped, comment cut. */
  function Characters(raw: string, quoted: bool): string {
    if raw == "" then ""
    else if raw[0] == '\\' && |raw| > 1 then [Unescape(raw[1])] + Characters(raw[2..], quoted)
    else if raw[0] == '"' then Characters(raw[1..], !quoted)
    else if (raw[0] == '#' || raw[0] == ';') && !quoted then ""
    else [raw[0]] + Characters(raw[1..], quoted)
  }

  function Decoded(raw: string): string { Strip(Characters(raw, false)) }

  /** `fsDecodeConfigValue` */
  method DecodeConfigValue(raw: string) returns (value: string)
    ensures value == Decoded(raw)
  {
    var characters, quoted, index := "", false, 0;
    assert raw[0..] == raw;
    while index < |raw|
      invariant 0 <= index <= |raw|
      invariant Characters(raw, false) == characters + Characters(raw[index..], quoted)
    {
      var c := raw[index];
      var rest := raw[index..];
      assert rest[0] == c && rest[1..] == raw[index + 1..];
      if c == '\\' && index + 1 < |raw| {
        assert rest[1] == raw[index + 1] && rest[2..] == raw[index + 2..];
        Associative(characters, [Unescape(raw[index + 1])], Characters(raw[index + 2..], quoted));
        characters := characters + [Unescape(raw[index + 1])];
        index := index + 2;
      } else {
        if c == '"' {
          quoted := !quoted;
        } else if (c == '#' || c == ';') && !quoted {
          assert characters + "" == characters;
          return Strip(characters);
        } else {
          Associative(characters, [c], Characters(raw[index + 1..], quoted));
          characters := characters + [c];
        }
        index := index + 1;
      }
    }
    assert characters + "" == characters;
    return Strip(characters);
  }

  // ----- Quoting -----

  function Escaped(c: char): string {
    if c == '\\' then "\\\\" else if c == '"' then "\\\"" else if c == '\n' then "\\n"
    else if c == '\t' then "\\t" else if c == BACKSPACE then "\\b" else [c]
  }

  function EscapeAll(v: string): string { if v == "" then "" else Escaped(v[0]) + EscapeAll(v[1..]) }

  /** A value written between double quotes, the way git writes one that needs them. */
  function Quote(v: string): string { "\"" + EscapeAll(v) + "\"" }

  lemma {:induction false} EscapesAreRead(v: string, tail: string)
    ensures Characters(EscapeAll(v) + "\"" + tail, true) == v + Characters(tail, false)
  {
    if v == "" {
      assert EscapeAll(v) + "\"" + tail == "\"" + tail;
      assert "" + Characters(tail, false) == Characters(tail, false);
    } else {
      var rest := EscapeAll(v[1..]) + "\"" + tail;
      EscapesAreRead(v[1..], tail);
      assert EscapeAll(v) + "\"" + tail == Escaped(v[0]) + rest;
      OneEscape(v[0], rest);
      assert v == [v[0]] + v[1..];
      Associative([v[0]], v[1..], Characters(tail, false));
    }
  }

  lemma OneEscape(c: char, rest: string)
    ensures Characters(Escaped(c) + rest, true) == [c] + Characters(rest, true)
  {
    var s := Escaped(c) + rest;
    if |Escaped(c)| == 2 {
      assert s[0] == '\\' && s[1] == Escaped(c)[1] && s[2..] == rest;
    } else {
      assert s[0] == c && s[1..] == rest;
    }
  }

  predicate AllWhite(s: string) { forall i | 0 <= i < |s| :: IsSpace(s[i]) }

  /** White space, then nothing or a comment. */
  predicate Trailing(s: string) {
    if s == "" then true else if s[0] == '#' || s[0] == ';' then true else IsSpace(s[0]) && Trailing(s[1..])
  }

  lemma {:induction false} TrailingIsSpaces(s: string)
    requires Trailing(s)
    ensures AllWhite(Characters(s, false))
  {
    if s != "" && s[0] != '#' && s[0] != ';' { TrailingIsSpaces(s[1..]); }
  }

  lemma {:induction false} StripRightDropsSpaces(v: string, pad: string)
    requires AllWhite(pad)
    ensures StripRight(v + pad) == StripRight(v)
  {
    if pad == "" {
      assert v + pad == v;
    } else {
      assert (v + pad)[..|v + pad| - 1] == v + pad[..|pad| - 1];
      StripRightDropsSpaces(v, pad[..|pad| - 1]);
    }
  }

  lemma {:induction false} StripDropsTrailing(v: string, pad: string)
    requires AllWhite(pad)
    ensures Strip(v + pad) == Strip(v)
  {
    if v == "" {
      assert v + pad == pad;
      StripAllSpaces(pad);
    } else if IsSpace(v[0]) {
      assert (v + pad)[1..] == v[1..] + pad;
      StripDropsTrailing(v[1..], pad);
    } else {
      StripRightDropsSpaces(v, pad);
    }
  }

  /** Decoding undoes quoting up to the final strip, with any comment after it. */
  lemma DecodeUndoesQuote(v: string, tail: string)
    requires Trailing(tail)
    ensures Decoded(Quote(v) + tail) == Strip(v)
  {
    var inner := EscapeAll(v) + "\"" + tail;
    assert Quote(v) + tail == "\"" + inner;
    assert ("\"" + inner)[1..] == inner;
    EscapesAreRead(v, tail);
    TrailingIsSpaces(tail);
    StripDropsTrailing(v, Characters(tail, false));
  }

  /** The exact values that survive: those that neither begin nor end with white space. */
  lemma QuotedValueSurvives(v: string)
    ensures Decoded(Quote(v)) == v <==> v == "" || (!IsSpace(v[0]) && !IsSpace(v[|v| - 1]))
  {
    assert Quote(v) + "" == Quote(v);
    DecodeUndoesQuote(v, "");
    StripShortens(v);
    if v != "" && !IsSpace(v[0]) && !IsSpace(v[|v| - 1]) {
      assert v + "" == v;
      StripPadded(v, "");
    }
  }

  lemma {:induction false} StripLeftShortens(v: string)
    ensures |StripLeft(v)| <= |v|
    ensures StripLeft(v) != v ==> |StripLeft(v)| < |v|
    ensures StripLeft(v) != "" ==> !IsSpace(StripLeft(v)[0])
  {
    if v != "" && IsSpace(v[0]) { StripLeftShortens(v[1..]); }
  }

  lemma {:induction false} StripRightShortens(v: string)
    ensures |StripRight(v)| <= |v|
    ensures StripRight(v) != "" ==> !IsSpace(StripRight(v)[|StripRight(v)| - 1])
  {
    if v != "" && IsSpace(v[|v| - 1]) { StripRightShortens(v[..|v| - 1]); }
  }

  lemma StripShortens(v: string)
    ensures Strip(v) == v && v != "" ==> !IsSpace(v[0]) && !IsSpace(v[|v| - 1])
  {
    StripLeftShortens(v);
    StripRightShortens(StripLeft(v));
  }

  // ----- What any raw value means -----

  /** A raw value, part by part: a character that stands for itself, a backslash with the
      character after it, or a double quote. */
  datatype Part = Plain(c: char) | Escape(c: char) | Mark

  function PartText(p: Part): string {
    match p case Plain(c) => [c] case Escape(c) => ['\\', c] case Mark => "\""
  }

  /** What a part gives: the three escapes give control characters, and a quote gives nothing. */
  function PartValue(p: Part): string {
    match p
    case Plain(c) => [c]
    case Mark => ""
    case Escape('n') => "\n"
    case Escape('t') => "\t"
    case Escape('b') => [8 as char]
    case Escape(c) => [c]
  }

  function Texts(parts: seq<Part>): string { if parts == [] then "" else PartText(parts[0]) + Texts(parts[1..]) }

  function Values(parts: seq<Part>): string { if parts == [] then "" else PartValue(parts[0]) + Values(parts[1..]) }

  /** An odd number of quotes stands among the parts. */
  function OddMarks(parts: seq<Part>): bool {
    if parts == [] then false else parts[0].Mark? != OddMarks(parts[1..])
  }

  /** A comment starts outside quotes; no other plain character means anything by itself. */
  ghost predicate Readable(parts: seq<Part>, quoted: bool) {
    forall i | 0 <= i < |parts| && parts[i].Plain? ::
      parts[i].c != '\\' && parts[i].c != '"' && (parts[i].c in "#;" ==> OddMarks(parts[..i]) != quoted)
  }

  /** What may follow: nothing, a backslash at the very end, or outside quotes a comment. */
  predicate IsRest(quoted: bool, rest: string) {
    rest == "" || rest == "\\" || (rest[0] in "#;" && !quoted)
  }

  function RestValue(rest: string): string { if rest == "\\" then rest else "" }

  lemma ReadableTail(parts: seq<Part>, quoted: bool)
    requires parts != [] && Readable(parts, quoted)
    ensures Readable(parts[1..], quoted != parts[0].Mark?)
    ensures parts[0].Plain? ==> parts[0].c != '\\' && parts[0].c != '"' && (parts[0].c in "#;" ==> quoted)
  {
    assert parts[..0] == [];
    forall i | 0 <= i < |parts| - 1 && parts[1..][i].Plain?
      ensures parts[1..][i].c != '\\' && parts[1..][i].c != '"'
      ensures parts[1..][i].c in "#;" ==> OddMarks(parts[1..][..i]) != (quoted != parts[0].Mark?)
    {
      assert parts[1..][i] == parts[i + 1] && parts[..i + 1][1..] == parts[1..][..i];
    }
  }

  lemma {:induction false} PartsAreRead(parts: seq<Part>, rest: string, quoted: bool)
    requires Readable(parts, quoted) && IsRest(OddMarks(parts) != quoted, rest)
    ensures Characters(Texts(parts) + rest, quoted) == Values(parts) + RestValue(rest)
  {
    if parts == [] {
      assert "" + rest == rest && "" + RestValue(rest) == RestValue(rest);
      assert rest == "\\" ==> rest[1..] == "";
      assert "\\" + "" == "\\";
    } else {
      ReadableTail(parts, quoted);
      hide Readable;
      var p, below := parts[0], Texts(parts[1..]) + rest;
      PartsAreRead(parts[1..], rest, quoted != p.Mark?);
      Associative(PartText(p), Texts(parts[1..]), rest);
      Associative(PartValue(p), Values(parts[1..]), RestValue(rest));
      OnePart(p, below, quoted);
    }
  }

  lemma OnePart(p: Part, below: string, quoted: bool)
    requires p.Plain? ==> p.c != '\\' && p.c != '"' && (p.c in "#;" ==> quoted)
    ensures Characters(PartText(p) + below, quoted) == PartValue(p) + Characters(below, quoted != p.Mark?)
  {
    var s := PartText(p) + below;
    match p
    case Plain(c) => assert s[0] == c && s[1..] == below;
    case Escape(c) => assert s[0] == '\\' && s[1] == c && s[2..] == below;
    case Mark =>
      assert s[0] == '"' && s[1..] == below;
      assert "" + Characters(below, !quoted) == Characters(below, !quoted);
  }

  /** Every text reads as parts and a rest, beginning outside quotes or inside. */
  lemma {:induction false} TakeApart(raw: string, quoted: bool) returns (parts: seq<Part>, rest: string)
    ensures raw == Texts(parts) + rest && Readable(parts, quoted) && IsRest(OddMarks(parts) != quoted, rest)
  {
    if raw == "" || raw == "\\" || (raw[0] in "#;" && !quoted) {
      parts, rest := [], raw;
      assert "" + raw == raw;
    } else {
      var p := if raw[0] == '\\' then Escape(raw[1]) else if raw[0] == '"' then Mark else Plain(raw[0]);
      var below := raw[|PartText(p)|..];
      assert raw == PartText(p) + below;
      var more, end := TakeApart(below, quoted != p.Mark?);
      parts, rest := [p] + more, end;
      ReadableCons(p, more, quoted);
      assert parts[1..] == more;
      Associative(PartText(p), Texts(more), rest);
    }
  }

  lemma ReadableCons(p: Part, more: seq<Part>, quoted: bool)
    requires p.Plain? ==> p.c != '\\' && p.c != '"' && (p.c in "#;" ==> quoted)
    requires Readable(more, quoted != p.Mark?)
    ensures Readable([p] + more, quoted)
  {
    var parts := [p] + more;
    assert parts[..0] == [];
    forall i | 1 <= i < |parts| && parts[i].Plain?
      ensures parts[i].c != '\\' && parts[i].c != '"' && (parts[i].c in "#;" ==> OddMarks(parts[..i]) != quoted)
    {
      assert parts[i] == more[i - 1] && parts[..i][1..] == more[..i - 1] && parts[..i][0] == p;
    }
  }

  /** What a value decodes to: its text reads as parts with a rest, and the value is what the
      parts give, with a backslash left over at the end kept, without white space around it. */
  lemma ValueMeans(raw: string, v: string)
    ensures Decoded(raw) == v <==>
      exists parts, rest ::
        raw == Texts(parts) + rest && Readable(parts, false) && IsRest(OddMarks(parts), rest) && v == Strip(Values(parts) + RestValue(rest))
  {
    hide Characters, Strip, Texts, Values, OddMarks;
    var parts, rest := TakeApart(raw, false);
    PartsAreRead(parts, rest, false);
    forall ps, r | raw == Texts(ps) + r && Readable(ps, false) && IsRest(OddMarks(ps), r) ensures Decoded(raw) == Strip(Values(ps) + RestValue(r)) {
      PartsAreRead(ps, r, false);
    }
    assert Readable(parts, false) && IsRest(OddMarks(parts), rest);
  }

  // ----- Continued lines -----

  predicate Continues(line: string) {
    line != "" && line[|line| - 1] == '\\' && (|line| < 2 || line[|line| - 2] != '\\')
  }

  /** The logical lines still to come, with the text pending from earlier lines. */
  function Logical(lines: seq<string>, pending: string): seq<string> {
    if lines == [] then if pending == "" then [] else [pending]
    else if Continues(lines[0]) then Logical(lines[1..], pending + lines[0][..|lines[0]| - 1])
    else [pending + lines[0]] + Logical(lines[1..], "")
  }

  /** `flistJoinContinuationLines`, on the physical lines. */
  method JoinContinuationLines(lines: seq<string>) returns (logical: seq<string>)
    ensures logical == Logical(lines, "")
  {
    logical := [];
    var pending := "";
    assert lines[0..] == lines && [] + Logical(lines, "") == Logical(lines, "");
    for i := 0 to |lines|
      invariant Logical(lines, "") == logical + Logical(lines[i..], pending)
    {
      var line := lines[i];
      assert lines[i..][0] == line && lines[i..][1..] == lines[i + 1..];
      if Continues(line) {
        pending := pending + line[..|line| - 1];
      } else {
        Associative(logical, [pending + line], Logical(lines[i + 1..], ""));
        logical := logical + [pending + line];
        pending := "";
      }
    }
    if pending != "" {
      logical := logical + [pending];
    } else {
      assert logical + [] == logical;
    }
  }

  /** One logical line written on several physical ones. */
  function Broken(pieces: seq<string>): seq<string> {
    if |pieces| <= 1 then pieces else [pieces[0] + "\\"] + Broken(pieces[1..])
  }

  function Whole(pieces: seq<string>): string { if pieces == [] then "" else pieces[0] + Whole(pieces[1..]) }

  /** The last piece ends the logical line. */
  predicate Complete(pieces: seq<string>) { pieces != [] && !Continues(pieces[|pieces| - 1]) }

  predicate EndsInBackslash(piece: string) { piece != "" && piece[|piece| - 1] == '\\' }

  /** How many breaks fall after a backslash. */
  function BadBreaks(pieces: seq<string>): nat {
    if |pieces| <= 1 then 0 else (if EndsInBackslash(pieces[0]) then 1 else 0) + BadBreaks(pieces[1..])
  }

  function AllBroken(lines: seq<seq<string>>): seq<string> {
    if lines == [] then [] else Broken(lines[0]) + AllBroken(lines[1..])
  }

  function AllBadBreaks(lines: seq<seq<string>>): nat {
    if lines == [] then 0 else BadBreaks(lines[0]) + AllBadBreaks(lines[1..])
  }

  lemma {:induction false} BadBreaksMeans(pieces: seq<string>)
    ensures BadBreaks(pieces) == 0 <==> forall i | 0 <= i < |pieces| - 1 :: !EndsInBackslash(pieces[i])
  {
    if |pieces| > 1 {
      BadBreaksMeans(pieces[1..]);
      assert forall i | 0 < i < |pieces| :: pieces[i] == pieces[1..][i - 1];
    }
  }

  lemma FirstBroken(pieces: seq<string>, rest: seq<string>)
    requires |pieces| > 1
    ensures var lines, first := Broken(pieces) + rest, pieces[0] + "\\";
      lines != [] && lines[0] == first && lines[1..] == Broken(pieces[1..]) + rest &&
      first[..|first| - 1] == pieces[0] && (Continues(first) <==> !EndsInBackslash(pieces[0]))
  {
    var first, below := pieces[0] + "\\", Broken(pieces[1..]);
    assert Broken(pieces) == [first] + below;
    hide Broken;
    Associative([first], below, rest);
    assert ([first] + (below + rest))[1..] == below + rest;
    assert pieces[0] != "" ==> first[|first| - 2] == pieces[0][|pieces[0]| - 1];
  }

  lemma {:induction false} JoinOne(pieces: seq<string>, rest: seq<string>, pending: string)
    requires Complete(pieces)
    ensures |Logical(Broken(pieces) + rest, pending)| == 1 + BadBreaks(pieces) + |Logical(rest, "")|
    ensures BadBreaks(pieces) == 0 ==> Logical(Broken(pieces) + rest, pending) == [pending + Whole(pieces)] + Logical(rest, "")
  {
    if |pieces| == 1 {
      var lines := Broken(pieces) + rest;
      assert lines[0] == pieces[0] && lines[1..] == rest;
      assert pieces[1..] == [] && pieces[0] + "" == pieces[0];
    } else {
      FirstBroken(pieces, rest);
      hide Continues, EndsInBackslash;
      if EndsInBackslash(pieces[0]) {
        JoinOne(pieces[1..], rest, "");
      } else {
        JoinOne(pieces[1..], rest, pending + pieces[0]);
        Associative(pending, pieces[0], Whole(pieces[1..]));
      }
    }
  }

  /** Each break after a backslash makes one logical line more. */
  lemma {:induction false} LinesCounted(lines: seq<seq<string>>)
    requires forall l | l in lines :: Complete(l)
    ensures |Logical(AllBroken(lines), "")| == |lines| + AllBadBreaks(lines)
  {
    if lines != [] {
      JoinOne(lines[0], AllBroken(lines[1..]), "");
      LinesCounted(lines[1..]);
    }
  }

  lemma {:induction false} CleanlyBroken(lines: seq<seq<string>>)
    requires (forall l | l in lines :: Complete(l)) && AllBadBreaks(lines) == 0
    ensures |Logical(AllBroken(lines), "")| == |lines|
    ensures forall i | 0 <= i < |lines| :: Logical(AllBroken(lines), "")[i] == Whole(lines[i])
  {
    if lines != [] {
      JoinOne(lines[0], AllBroken(lines[1..]), "");
      CleanlyBroken(lines[1..]);
      assert "" + Whole(lines[0]) == Whole(lines[0]);
      assert Logical(AllBroken(lines), "") == [Whole(lines[0])] + Logical(AllBroken(lines[1..]), "");
      hide Logical, AllBroken, Whole;
      assert forall i | 1 <= i < |lines| :: lines[i] == lines[1..][i - 1];
    }
  }

  lemma {:induction false} NoneBad(lines: seq<seq<string>>)
    ensures AllBadBreaks(lines) == 0 <==> forall l | l in lines :: BadBreaks(l) == 0
  {
    if lines != [] {
      NoneBad(lines[1..]);
      assert lines[0] in lines;
      forall l | l in lines[1..] ensures l in lines {}
      if BadBreaks(lines[0]) == 0 && AllBadBreaks(lines[1..]) == 0 {
        forall l | l in lines ensures BadBreaks(l) == 0 { assert l == lines[0] || l in lines[1..]; }
      }
    }
  }

  /** Joining undoes breaking, every logical line whole, in order, and nothing else, exactly
      when no line is broken after a backslash. */
  lemma JoinUndoesBreaking(lines: seq<seq<string>>)
    requires forall l | l in lines :: Complete(l)
    ensures var joined := Logical(AllBroken(lines), "");
      (|joined| == |lines| && forall i | 0 <= i < |lines| :: joined[i] == Whole(lines[i])) <==>
      (forall l, i | l in lines && 0 <= i < |l| - 1 :: !EndsInBackslash(l[i]))
  {
    hide Logical, AllBroken, Whole, Complete, EndsInBackslash;
    LinesCounted(lines);
    NoneBad(lines);
    forall l | l in lines ensures BadBreaks(l) == 0 <==> forall i | 0 <= i < |l| - 1 :: !EndsInBackslash(l[i]) { BadBreaksMeans(l); }
    if AllBadBreaks(lines) == 0 { CleanlyBroken(lines); }
  }

  /** A value that ends in an escaped backslash, broken there: the line then ends in three
      backslashes and is not continued. */
  lemma EscapedBackslashEndsTheLine()
    ensures Broken(["a\\\\", "b"]) == ["a\\\\\\", "b"]
    ensures Logical(["a\\\\\\", "b"], "") == ["a\\\\\\", "b"] && Whole(["a\\\\", "b"]) == "a\\\\b"
  {
    var pieces, lines, none: seq<string> := ["a\\\\", "b"], ["a\\\\\\", "b"], [];
    assert pieces[1..] == ["b"] && lines[1..] == ["b"] && ["b"][1..] == none;
    assert Broken(["b"]) == ["b"] && "a\\\\" + "\\" == "a\\\\\\";
    assert "b" + "" == "b" && "a\\\\" + "b" == "a\\\\b";
    assert Whole(["b"]) == "b";
    assert !Continues("b") && !Continues("a\\\\\\");
    assert "" + "b" == "b" && "" + "a\\\\\\" == "a\\\\\\";
    assert Logical(none, "") == none && Logical(["b"], "") == ["b"] + none;
  }
}
