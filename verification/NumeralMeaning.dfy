/** What stripping and reading a number mean, told by how the text is put together. */
module NumeralMeaning {
  import opened Numerals
  import opened Orders

  /** The ASCII characters that Python calls white space, by their codes. */
  const WHITE := {9, 10, 11, 12, 13, 28, 29, 30, 31, 32}

  predicate White(s: string) { forall c | c in s :: c as int in WHITE }

  /** White space at neither end. */
  predicate Trimmed(t: string) { t == "" || (t[0] as int !in WHITE && t[|t| - 1] as int !in WHITE) }

  lemma SpacesAreWhite()
    ensures forall c :: IsSpace(c) <==> c as int in WHITE
  {
    assert forall n: int :: n in WHITE <==> 9 <= n <= 13 || 28 <= n <= 32;
  }

  lemma {:induction false} LeftPart(s: string) returns (pre: string)
    ensures White(pre) && s == pre + StripLeft(s)
    ensures StripLeft(s) != "" ==> StripLeft(s)[0] as int !in WHITE
  {
    hide White, IsSpace;
    SpacesAreWhite();
    if s != "" && IsSpace(s[0]) {
      var more := LeftPart(s[1..]);
      pre := [s[0]] + more;
      WhiteCons(s[0], more);
      assert s == [s[0]] + s[1..];
    } else {
      pre := "";
      NoneWhite();
    }
  }

  lemma {:induction false} RightPart(s: string) returns (post: string)
    ensures White(post) && s == StripRight(s) + post
    ensures StripRight(s) != "" ==> StripRight(s)[|StripRight(s)| - 1] as int !in WHITE
  {
    hide White, IsSpace;
    SpacesAreWhite();
    if s != "" && IsSpace(s[|s| - 1]) {
      var more := RightPart(s[..|s| - 1]);
      post := more + [s[|s| - 1]];
      WhiteSnoc(more, s[|s| - 1]);
      assert s == s[..|s| - 1] + [s[|s| - 1]];
      Associative(StripRight(s), more, [s[|s| - 1]]);
    } else {
      post := "";
      NoneWhite();
    }
  }

  lemma WhiteCons(c: char, s: string)
    requires c as int in WHITE && White(s)
    ensures White([c] + s)
  {
  }

  lemma WhiteSnoc(s: string, c: char)
    requires c as int in WHITE && White(s)
    ensures White(s + [c])
  {
  }

  lemma NoneWhite()
    ensures White("")
  {
  }

  lemma {:induction false} LeftIsDropped(pre: string, t: string)
    requires White(pre)
    ensures StripLeft(pre + t) == StripLeft(t)
  {
    SpacesAreWhite();
    hide IsSpace;
    if pre == "" {
      assert pre + t == t;
    } else {
      assert pre[0] in pre && (pre + t)[0] == pre[0] && (pre + t)[1..] == pre[1..] + t;
      forall c | c in pre[1..] ensures c as int in WHITE { assert c in pre; }
      LeftIsDropped(pre[1..], t);
    }
  }

  lemma WhiteIsSpaces(s: string)
    requires White(s)
    ensures forall i | 0 <= i < |s| :: IsSpace(s[i])
  {
    SpacesAreWhite();
    forall i | 0 <= i < |s| ensures IsSpace(s[i]) { assert s[i] in s; }
  }

  /** The strip of a text is its middle: white space around it, and none at its own ends. */
  lemma StripMeans(s: string, t: string)
    ensures Strip(s) == t <==> Trimmed(t) && exists pre, post :: White(pre) && White(post) && s == pre + t + post
  {
    hide White, IsSpace, StripLeft, StripRight;
    SpacesAreWhite();
    if Strip(s) == t { StripGives(s); }
    forall pre, post | Trimmed(t) && White(pre) && White(post) && s == pre + t + post ensures Strip(s) == t {
      Associative(pre, t, post);
      LeftIsDropped(pre, t + post);
      WhiteIsSpaces(post);
      StripPadded(t, post);
    }
  }

  lemma StripGives(s: string)
    ensures Trimmed(Strip(s)) && exists pre, post :: White(pre) && White(post) && s == pre + Strip(s) + post
  {
    hide White, IsSpace, StripLeft, StripRight;
    var pre := LeftPart(s);
    var post := RightPart(StripLeft(s));
    Associative(pre, Strip(s), post);
    if Strip(s) != "" { assert StripLeft(s)[0] == Strip(s)[0]; }
  }

  // ----- Integers -----

  /** Groups of digits, none of them empty. */
  ghost predicate Groups(gs: seq<string>) { gs != [] && forall g | g in gs :: g != "" && AllDigits(g) }

  /** The groups with single underscores between them. */
  function Underscored(gs: seq<string>): string {
    if gs == [] then "" else if |gs| == 1 then gs[0] else gs[0] + "_" + Underscored(gs[1..])
  }

  function Digits(gs: seq<string>): string { if gs == [] then "" else gs[0] + Digits(gs[1..]) }

  lemma {:induction false} GroupsAreRead(gs: seq<string>)
    requires Groups(gs)
    ensures DigitGroups(Underscored(gs)) == Some(Digits(gs))
    decreases |Underscored(gs)|
  {
    var g, s := gs[0], Underscored(gs);
    assert g in gs;
    if |g| > 1 {
      var fewer := [g[1..]] + gs[1..];
      GroupsShrink(gs, fewer);
      FirstDigit(gs, fewer);
      hide Underscored, Digits;
      GroupsAreRead(fewer);
    } else if |gs| > 1 {
      assert Groups(gs[1..]) by { forall h | h in gs[1..] ensures h in gs {} }
      assert s[0] == g[0] && s[1] == '_' && s[2..] == Underscored(gs[1..]);
      assert gs[1] in gs && Underscored(gs[1..]) != "";
      GroupsAreRead(gs[1..]);
      assert g == [g[0]];
    } else {
      assert Digits(gs[1..]) == "" && g + "" == g;
    }
  }

  lemma FirstDigit(gs: seq<string>, fewer: seq<string>)
    requires Groups(gs) && |gs[0]| > 1 && fewer == [gs[0][1..]] + gs[1..]
    ensures Digits(gs) == [gs[0][0]] + Digits(fewer)
    ensures var s := Underscored(gs); |s| > 1 && IsDigit(s[0]) && IsDigit(s[1]) && s[0] == gs[0][0] && s[1..] == Underscored(fewer)
  {
    var g, more := gs[0], gs[1..];
    assert g in gs && IsDigit(g[0]) && IsDigit(g[1]) && fewer[1..] == more;
    var x := if more == [] then "" else "_" + Underscored(more);
    assert Underscored(gs) == g + x && Underscored(fewer) == g[1..] + x;
    var d := Digits(more);
    assert Digits(gs) == g + d && Digits(fewer) == g[1..] + d;
    hide *;
    assert g == [g[0]] + g[1..];
    assert (g + x)[1..] == g[1..] + x;
    assert g + d == [g[0]] + (g[1..] + d);
  }

  lemma GroupsShrink(gs: seq<string>, fewer: seq<string>)
    requires Groups(gs) && |gs[0]| > 1 && fewer == [gs[0][1..]] + gs[1..]
    ensures Groups(fewer)
  {
    forall h | h in fewer ensures h != "" && AllDigits(h) {
      if h == gs[0][1..] { assert gs[0] in gs; } else { assert h in gs; }
    }
  }

  lemma {:induction false} GroupsOf(s: string) returns (gs: seq<string>)
    requires DigitGroups(s).Some?
    ensures Groups(gs) && s == Underscored(gs)
  {
    if |s| == 1 {
      gs := [s];
    } else if s[1] == '_' {
      var more := GroupsOf(s[2..]);
      gs := [[s[0]]] + more;
      assert gs[1..] == more && s == [s[0]] + "_" + s[2..];
    } else {
      var more := GroupsOf(s[1..]);
      gs := [[s[0]] + more[0]] + more[1..];
      assert gs[1..] == more[1..] && s == [s[0]] + s[1..];
      assert more[0] in more;
      forall h | h in gs ensures h != "" && AllDigits(h) {
        if h != gs[0] { assert h in more; }
      }
      Associative([s[0]], more[0], "_" + Underscored(more[1..]));
      assert more[0] + "_" + Underscored(more[1..]) == more[0] + ("_" + Underscored(more[1..]));
    }
  }

  /** The texts `int` reads, and the number read: white space around an optional sign and
      groups of digits with single underscores between them. */
  lemma IntMeans(s: string, v: int)
    ensures ParseInt(s) == Some(v) <==>
      exists pre, sign, gs, post ::
        White(pre) && White(post) && Groups(gs) && IntText(pre, sign, gs, post) == s && IntValue(sign, gs) == v
  {
    hide White, Groups, StripLeft, StripRight, Strip, DigitGroups, Underscored, Digits;
    if ParseInt(s) == Some(v) { var pre, sign, gs, post := IntParts(s); }
    forall pre, sign, gs, post | White(pre) && White(post) && Groups(gs) && IntText(pre, sign, gs, post) == s && IntValue(sign, gs) == v
      ensures ParseInt(s) == Some(v)
    {
      IntIsRead(pre, sign, gs, post);
    }
  }

  datatype Sign = Unsigned | Plus | Minus

  function SignText(sign: Sign): string {
    match sign case Unsigned => "" case Plus => "+" case Minus => "-"
  }

  function IntText(pre: string, sign: Sign, gs: seq<string>, post: string): string {
    pre + (SignText(sign) + Underscored(gs)) + post
  }

  ghost function IntValue(sign: Sign, gs: seq<string>): int
    requires Groups(gs)
  {
    DigitsAreDigits(gs);
    var n: int := ValueOf(Digits(gs));
    if sign.Minus? then -n else n
  }

  lemma {:induction false} DigitsAreDigits(gs: seq<string>)
    requires forall g | g in gs :: AllDigits(g)
    ensures AllDigits(Digits(gs))
  {
    if gs != [] {
      assert gs[0] in gs;
      forall g | g in gs[1..] ensures g in gs {}
      DigitsAreDigits(gs[1..]);
    }
  }

  lemma {:induction false} EndsAreDigits(gs: seq<string>)
    requires Groups(gs)
    ensures var u := Underscored(gs); u != "" && IsDigit(u[0]) && IsDigit(u[|u| - 1])
  {
    assert gs[0] in gs;
    if |gs| > 1 {
      assert Groups(gs[1..]) by { forall h | h in gs[1..] ensures h in gs {} }
      EndsAreDigits(gs[1..]);
    }
  }

  lemma DigitsAreNotWhite(c: char)
    requires IsDigit(c) || c == '+' || c == '-'
    ensures c as int !in WHITE
  {
    SpacesAreWhite();
  }

  lemma IntIsRead(pre: string, sign: Sign, gs: seq<string>, post: string)
    requires White(pre) && White(post) && Groups(gs)
    ensures ParseInt(IntText(pre, sign, gs, post)) == Some(IntValue(sign, gs))
  {
    hide White, Groups, StripLeft, StripRight, DigitGroups, Underscored, Digits;
    var u := Underscored(gs);
    var t := SignText(sign) + u;
    EndsAreDigits(gs);
    DigitsAreNotWhite(t[0]);
    assert t[|t| - 1] == u[|u| - 1];
    DigitsAreNotWhite(t[|t| - 1]);
    StripMeans(IntText(pre, sign, gs, post), t);
    hide Strip;
    assert Strip(IntText(pre, sign, gs, post)) == t;
    assert t[|SignText(sign)|..] == u;
    if sign.Unsigned? { assert t == u && t[0] == u[0]; }
    GroupsAreRead(gs);
  }

  lemma IntParts(s: string) returns (pre: string, sign: Sign, gs: seq<string>, post: string)
    requires ParseInt(s).Some?
    ensures White(pre) && White(post) && Groups(gs) && IntText(pre, sign, gs, post) == s
    ensures IntValue(sign, gs) == ParseInt(s).value
  {
    hide White, Groups, StripLeft, StripRight, DigitGroups, Underscored, Digits;
    var t := Strip(s);
    StripGives(s);
    pre, post :| White(pre) && White(post) && s == pre + t + post;
    hide Strip;
    sign := if t == "" then Unsigned else if t[0] == '-' then Minus else if t[0] == '+' then Plus else Unsigned;
    gs := GroupsOf(t[|SignText(sign)|..]);
    assert t == SignText(sign) + t[|SignText(sign)|..];
    IntIsRead(pre, sign, gs, post);
  }
}
