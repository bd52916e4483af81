/** tools/checkToolchainPinDrift.py: reading the members of an ar archive. */
module Archive {
  import opened Numerals
  import opened Orders
  import opened Text

  /** Bytes are characters here; those above 127 do not decode as ASCII. */
  predicate Ascii(s: string) { forall i | 0 <= i < |s| :: s[i] < 128 as char }

  const SIGNATURE := "!<arch>\n"

  datatype Member = Member(name: string, data: string)

  datatype Failure = NotAnArchive | NotAscii | BadSize

  datatype Reading = Members(members: seq<Member>) | Raised(failure: Failure)

  function Clamp(i: int, n: nat): (r: nat)
    ensures r <= n
  {
    var j := if i < 0 then i + n else i;
    if j < 0 then 0 else if j > n then n else j
  }

  /** Python's `s[i:j]`. */
  function Slice(s: string, i: int, j: int): string {
    var a, b := Clamp(i, |s|), Clamp(j, |s|);
    if a <= b then s[a..b] else ""
  }

  datatype Header = Header(name: string, size: int) | BadHeader(failure: Failure)

  function HeaderAt(data: string, position: int): Header {
    var name, size := Slice(data, position, position + 16), Slice(data, position + 48, position + 58);
    if !Ascii(name) || !Ascii(size) then BadHeader(NotAscii)
    else if ParseInt(Strip(size)).None? then BadHeader(BadSize)
    else Header(Strip(name), ParseInt(Strip(size)).value)
  }

  function NextPosition(position: int, size: int): int { position + 60 + size + size % 2 }

  function MemberAt(data: string, position: int, h: Header): Member
    requires h.Header?
  {
    Member(h.name, Slice(data, position + 60, position + 60 + h.size))
  }

  /** The members from a position on; None when `fuel` steps are not enough. */
  function ReadFrom(data: string, position: int, fuel: nat): Option<Reading>
    decreases fuel
  {
    if position + 60 > |data| then Some(Members([]))
    else if fuel == 0 then None
    else
      var h := HeaderAt(data, position);
      if h.BadHeader? then Some(Raised(h.failure))
      else
        var rest := ReadFrom(data, NextPosition(position, h.size), fuel - 1);
        if rest.Some? && rest.value.Members? then Some(Members([MemberAt(data, position, h)] + rest.value.members)) else rest
  }

  function Read(data: string, fuel: nat): Option<Reading> {
    if Slice(data, 0, 8) != SIGNATURE then Some(Raised(NotAnArchive)) else ReadFrom(data, 8, fuel)
  }

  function Prepend(members: seq<Member>, rest: Option<Reading>): Option<Reading> {
    if rest.Some? && rest.value.Members? then Some(Members(members + rest.value.members)) else rest
  }

  /** `flistReadArchiveMembers`, cut off after `fuel` members: the original has no such bound. */
  method ReadArchiveMembers(data: string, fuel: nat) returns (r: Option<Reading>)
    ensures r == Read(data, fuel)
  {
    hide HeaderAt, Slice;
    if Slice(data, 0, 8) != SIGNATURE { return Some(Raised(NotAnArchive)); }
    var position, members, left := 8, [], fuel;
    PrependNothing(ReadFrom(data, 8, fuel));
    while position + 60 <= |data| && left > 0
      invariant Read(data, fuel) == Prepend(members, ReadFrom(data, position, left))
      decreases left
    {
      var h := HeaderAt(data, position);
      if h.BadHeader? { return Some(Raised(h.failure)); }
      PrependTwice(members, MemberAt(data, position, h), ReadFrom(data, NextPosition(position, h.size), left - 1));
      members := members + [MemberAt(data, position, h)];
      position, left := NextPosition(position, h.size), left - 1;
    }
    assert members + [] == members;
    return if position + 60 > |data| then Some(Members(members)) else None;
  }

  lemma PrependNothing(r: Option<Reading>)
    ensures Prepend([], r) == r
  {
    if r.Some? && r.value.Members? { assert [] + r.value.members == r.value.members; }
  }

  lemma PrependTwice(members: seq<Member>, m: Member, rest: Option<Reading>)
    ensures Prepend(members, Prepend([m], rest)) == Prepend(members + [m], rest)
  {
    if rest.Some? && rest.value.Members? { Associative(members, [m], rest.value.members); }
  }

  // ----- The layout -----

  /** A member on disk: the fields between name and size, the end marker and the padding byte may be anything. */
  datatype Stored = Stored(member: Member, middle: string, ending: string, filler: char)

  function Padded(s: string, width: nat): (r: string)
    ensures |s| <= width ==> |r| == width
  {
    s + Spaces(if |s| <= width then width - |s| else 0)
  }

  /** What an ar archive can hold: a trimmed ASCII name of at most 16 characters, a size of at most 10 digits. */
  predicate Storable(s: Stored) {
    && |s.member.name| <= 16 && Ascii(s.member.name)
    && (s.member.name != "" ==> !IsSpace(s.member.name[0]) && !IsSpace(s.member.name[|s.member.name| - 1]))
    && |s.member.data| < Power10(10) && |s.middle| == 32 && |s.ending| == 2
  }

  function HeaderText(s: Stored): string {
    Padded(s.member.name, 16) + s.middle + Padded(Decimal(|s.member.data|), 10) + s.ending
  }

  function Body(s: Stored): string { s.member.data + if |s.member.data| % 2 == 1 then [s.filler] else "" }

  function Layout(all: seq<Stored>): string {
    if all == [] then "" else HeaderText(all[0]) + Body(all[0]) + Layout(all[1..])
  }

  function Contents(all: seq<Stored>): seq<Member> {
    if all == [] then [] else [all[0].member] + Contents(all[1..])
  }

  lemma HeaderLength(s: Stored)
    requires Storable(s)
    ensures |HeaderText(s)| == 60
  {
    hide Power10, Decimal, Padded;
    DecimalLength(|s.member.data|, 10);
  }

  lemma HeaderParts(s: Stored)
    requires Storable(s)
    ensures |HeaderText(s)| == 60
    ensures HeaderText(s)[..16] == Padded(s.member.name, 16) && HeaderText(s)[48..58] == Padded(Decimal(|s.member.data|), 10)
  {
    hide Power10, Decimal, Padded;
    DecimalLength(|s.member.data|, 10);
    HeaderLength(s);
  }

  lemma SliceInside(a: string, x: string, b: string, i: nat, j: nat)
    requires i <= j <= |x|
    ensures Slice(a + x + b, |a| + i, |a| + j) == x[i..j]
  {
    var s := a + x + b;
    assert s[|a| + i..|a| + j] == x[i..j];
  }

  lemma StripField(s: string, width: nat)
    requires |s| <= width && (s != "" ==> !IsSpace(s[0]) && !IsSpace(s[|s| - 1]))
    ensures Strip(Padded(s, width)) == s
  {
    StripPadded(s, Spaces(width - |s|));
  }

  lemma DigitsAreAscii(n: nat, width: nat)
    ensures Ascii(Padded(Decimal(n), width))
  {
    var d := Decimal(n);
    assert forall i | 0 <= i < |d| :: IsDigit(d[i]);
  }

  lemma NumberField(n: nat, width: nat)
    requires |Decimal(n)| <= width
    ensures ParseInt(Strip(Padded(Decimal(n), width))) == Some(n) && Ascii(Padded(Decimal(n), width))
  {
    var d := Decimal(n);
    assert IsDigit(d[0]) && IsDigit(d[|d| - 1]);
    StripField(d, width);
    assert d + "" == d;
    ParsePaddedDecimal(n, "");
    DigitsAreAscii(n, width);
  }

  lemma HeaderIsRead(before: string, s: Stored, after: string)
    requires Storable(s)
    ensures HeaderAt(before + HeaderText(s) + after, |before|) == Header(s.member.name, |s.member.data|)
  {
    hide Power10, Decimal, Strip, ParseInt, HeaderText, Padded, Slice;
    HeaderParts(s);
    DecimalLength(|s.member.data|, 10);
    SliceInside(before, HeaderText(s), after, 0, 16);
    SliceInside(before, HeaderText(s), after, 48, 58);
    assert HeaderText(s)[0..16] == HeaderText(s)[..16];
    StripField(s.member.name, 16);
    NumberField(|s.member.data|, 10);
    PaddedAscii(s.member.name, 16);
  }

  lemma PaddedAscii(s: string, width: nat)
    requires Ascii(s)
    ensures Ascii(Padded(s, width))
  {
  }

  lemma BodyIsRead(before: string, s: Stored, after: string)
    ensures Slice(before + Body(s) + after, |before|, |before| + |s.member.data|) == s.member.data
    ensures |Body(s)| == |s.member.data| + |s.member.data| % 2
  {
    SliceInside(before, Body(s), after, 0, |s.member.data|);
  }

  lemma {:induction false} LayoutIsRead(before: string, all: seq<Stored>, fuel: nat)
    requires (forall s | s in all :: Storable(s)) && fuel >= |all|
    ensures ReadFrom(before + Layout(all), |before|, fuel) == Some(Members(Contents(all)))
    decreases |all|
  {
    hide Storable, HeaderText, HeaderAt, Slice, Body;
    if all == [] {
      assert before + Layout(all) == before;
    } else {
      var s, rest := all[0], Layout(all[1..]);
      var data := before + Layout(all);
      HeaderLength(s);
      assert data == before + HeaderText(s) + (Body(s) + rest);
      assert data == (before + HeaderText(s)) + Body(s) + rest;
      assert data == (before + HeaderText(s) + Body(s)) + rest;
      HeaderIsRead(before, s, Body(s) + rest);
      BodyIsRead(before + HeaderText(s), s, rest);
      LayoutIsRead(before + HeaderText(s) + Body(s), all[1..], fuel - 1);
    }
  }

  /** The reader inverts the layout. */
  lemma ReadUndoesLayout(all: seq<Stored>, fuel: nat)
    requires (forall s | s in all :: Storable(s)) && fuel >= |all|
    ensures Read(SIGNATURE + Layout(all), fuel) == Some(Members(Contents(all)))
  {
    hide Storable, Layout;
    assert (SIGNATURE + Layout(all))[0..8] == SIGNATURE;
    LayoutIsRead(SIGNATURE, all, fuel);
  }

  // ----- Termination -----

  /** The position of the `n`-th header, if the run gets that far. */
  function HeaderPosition(data: string, position: int, n: nat): Option<int>
    decreases n
  {
    if position + 60 > |data| then None
    else if n == 0 then Some(position)
    else
      var h := HeaderAt(data, position);
      if h.BadHeader? then None else HeaderPosition(data, NextPosition(position, h.size), n - 1)
  }

  /** Header `n` of the run claims a size that does not move the position forward. */
  ghost predicate Holds(data: string, position: int, n: nat) {
    var p := HeaderPosition(data, position, n);
    p.Some? && HeaderAt(data, p.value).Header? && HeaderAt(data, p.value).size < -59
  }

  /** The reader runs out of steps only where some header it reached claims a size below -59. */
  lemma {:induction false} OnlyNegativeSizesHold(data: string, position: int, fuel: nat)
    requires position + 60 + fuel > |data| && ReadFrom(data, position, fuel).None?
    ensures exists n: nat :: Holds(data, position, n)
    decreases fuel
  {
    hide HeaderAt;
    var h := HeaderAt(data, position);
    if h.size < -59 {
      assert HeaderPosition(data, position, 0) == Some(position);
      assert Holds(data, position, 0);
    } else {
      OnlyNegativeSizesHold(data, NextPosition(position, h.size), fuel - 1);
      var n: nat :| Holds(data, NextPosition(position, h.size), n);
      assert HeaderPosition(data, position, n + 1) == HeaderPosition(data, NextPosition(position, h.size), n);
      assert Holds(data, position, n + 1);
    }
  }

  /** With every size the run meets at least -59, one step per byte is enough. */
  lemma ReaderTerminates(data: string)
    requires forall n: nat :: !Holds(data, 8, n)
    ensures Read(data, |data|).Some?
  {
    hide Holds;
    if ReadFrom(data, 8, |data|).None? { OnlyNegativeSizesHold(data, 8, |data|); }
  }

  /** A claimed size of -60 or -61 leaves the position where it is: the loop never ends. */
  lemma {:induction false} NegativeSizeSticks(data: string, position: int, fuel: nat)
    requires position + 60 <= |data| && HeaderAt(data, position).Header?
    requires HeaderAt(data, position).size == -60 || HeaderAt(data, position).size == -61
    ensures ReadFrom(data, position, fuel).None?
    decreases fuel
  {
    hide HeaderAt;
    if fuel > 0 { NegativeSizeSticks(data, position, fuel - 1); }
  }
}
