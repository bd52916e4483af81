/** When the reader of tools/checkToolchainPinDrift.py ends: an ar header may claim a negative size. */
module ArchiveEnds {
  import opened Numerals
  import opened Text
  import opened Archive

  // ----- Steps and headers -----

  /** The reader runs out of steps exactly when it reaches one more header. */
  lemma {:induction false} OutOfSteps(data: string, position: int, fuel: nat)
    ensures ReadFrom(data, position, fuel).None? <==> HeaderPosition(data, position, fuel).Some?
    decreases fuel
  {
    hide HeaderAt;
    if position + 60 <= |data| && fuel > 0 && HeaderAt(data, position).Header? {
      OutOfSteps(data, NextPosition(position, HeaderAt(data, position).size), fuel - 1);
    }
  }

  lemma {:induction false} HeadersFrom(data: string, position: int, m: nat, n: nat)
    ensures HeaderPosition(data, position, m + n) ==
      var p := HeaderPosition(data, position, m); if p.None? then None else HeaderPosition(data, p.value, n)
    decreases m
  {
    hide HeaderAt;
    if position + 60 <= |data| && m > 0 && HeaderAt(data, position).Header? {
      HeadersFrom(data, NextPosition(position, HeaderAt(data, position).size), m - 1, n);
    }
  }

  /** The whole run ends: some number of steps is enough. */
  ghost predicate Ends(data: string) { exists fuel: nat :: Read(data, fuel).Some? }

  lemma EndsMeans(data: string)
    ensures Ends(data) <==> Slice(data, 0, 8) != SIGNATURE || exists n: nat :: HeaderPosition(data, 8, n).None?
  {
    hide ReadFrom, HeaderPosition;
    if Slice(data, 0, 8) != SIGNATURE {
      assert Read(data, 0).Some?;
    } else if exists n: nat :: HeaderPosition(data, 8, n).None? {
      var n: nat :| HeaderPosition(data, 8, n).None?;
      OutOfSteps(data, 8, n);
      assert Read(data, n).Some?;
    } else {
      forall fuel: nat ensures Read(data, fuel).None? { OutOfSteps(data, 8, fuel); }
    }
  }

  // ----- Positions that repeat -----

  /** Header `n` of the run stands where header `m` stood. */
  ghost predicate Repeats(data: string, m: nat, n: nat) {
    m < n && HeaderPosition(data, 8, m).Some? && HeaderPosition(data, 8, m) == HeaderPosition(data, 8, n)
  }

  lemma {:induction false} GoesRound(data: string, m: nat, n: nat, rounds: nat)
    requires Repeats(data, m, n)
    ensures HeaderPosition(data, 8, m + rounds * (n - m)) == HeaderPosition(data, 8, m)
    decreases rounds
  {
    hide HeaderPosition;
    if rounds > 0 {
      var p := HeaderPosition(data, 8, m).value;
      GoesRound(data, m, n, rounds - 1);
      assert rounds * (n - m) == (rounds - 1) * (n - m) + (n - m);
      HeadersFrom(data, 8, m + (rounds - 1) * (n - m), n - m);
      HeadersFrom(data, 8, m, n - m);
      assert m + (n - m) == n;
    }
  }

  lemma RepeatingNeverEnds(data: string, m: nat, n: nat, k: nat)
    requires Repeats(data, m, n)
    ensures HeaderPosition(data, 8, k).Some?
  {
    hide HeaderPosition;
    GoesRound(data, m, n, k);
    assert k <= k * (n - m) by { LongerRounds(k, n - m); }
    HeadersFrom(data, 8, k, m + k * (n - m) - k);
    assert k + (m + k * (n - m) - k) == m + k * (n - m);
  }

  lemma LongerRounds(k: nat, d: nat)
    requires d >= 1
    ensures k <= k * d
  {
  }

  /** Far before the data there is no size to read. */
  lemma FarHeaderIsBad(data: string, position: int)
    requires position <= -58 - |data|
    ensures HeaderAt(data, position).BadHeader?
  {
    assert Slice(data, position + 48, position + 58) == "";
    assert Strip("") == "" && ParseInt("").None?;
  }

  /** Where headers that are read can stand. */
  function Interval(low: int, high: int): (s: set<int>)
    ensures forall x :: x in s <==> low <= x < high
    ensures |s| == if low <= high then high - low else 0
    decreases high - low
  {
    if low >= high then {} else Interval(low, high - 1) + {high - 1}
  }

  function FirstPositions(data: string, n: nat): (s: set<int>)
    requires HeaderPosition(data, 8, n).Some?
  {
    if n == 0 then {}
    else
      HeadersFrom(data, 8, n - 1, 1);
      FirstPositions(data, n - 1) + {HeaderPosition(data, 8, n - 1).value}
  }

  ghost predicate MetBefore(data: string, n: nat, x: int) { exists i :: 0 <= i < n && HeaderPosition(data, 8, i) == Some(x) }

  ghost predicate Near(data: string, x: int) { -58 - |data| < x <= |data| - 60 }

  /** The first `n` headers, when no position repeats, stand at `n` places near the data. */
  lemma {:induction false} DifferentPlaces(data: string, n: nat)
    requires HeaderPosition(data, 8, n).Some? && forall i, j | 0 <= i < j < n :: !Repeats(data, i, j)
    ensures |FirstPositions(data, n)| == n
    ensures forall x | x in FirstPositions(data, n) :: Near(data, x) && MetBefore(data, n, x)
  {
    hide HeaderPosition;
    if n > 0 {
      HeadersFrom(data, 8, n - 1, 1);
      DifferentPlaces(data, n - 1);
      var y := HeaderPosition(data, 8, n - 1).value;
      ReadOn(data, y);
      forall i | 0 <= i < n - 1 ensures HeaderPosition(data, 8, i) != Some(y) { assert !Repeats(data, i, n - 1); }
      forall x | x in FirstPositions(data, n) ensures Near(data, x) && MetBefore(data, n, x) {
        assert x == y || (x in FirstPositions(data, n - 1) && MetBefore(data, n - 1, x));
      }
    }
  }

  /** A header with another one after it is inside the data and can be read. */
  lemma ReadOn(data: string, position: int)
    requires HeaderPosition(data, position, 1).Some?
    ensures Near(data, position)
  {
    hide HeaderAt;
    if position <= -58 - |data| { FarHeaderIsBad(data, position); }
  }

  /** The reader ends exactly when no header position is met twice. */
  lemma EndsExactly(data: string)
    requires Slice(data, 0, 8) == SIGNATURE
    ensures Ends(data) <==> forall m, n :: !Repeats(data, m, n)
  {
    hide HeaderPosition, Repeats, Ends;
    EndsMeans(data);
    if exists m, n :: Repeats(data, m, n) {
      var m, n :| Repeats(data, m, n);
      forall k: nat ensures HeaderPosition(data, 8, k).Some? { RepeatingNeverEnds(data, m, n, k); }
      assert !exists k: nat :: HeaderPosition(data, 8, k).None?;
    } else {
      RoomRunsOut(data);
      assert exists k: nat :: HeaderPosition(data, 8, k).None?;
    }
  }

  /** There is no room for more headers than places when no place repeats. */
  lemma RoomRunsOut(data: string)
    requires forall m, n :: !Repeats(data, m, n)
    ensures HeaderPosition(data, 8, 2 * |data| + 1).None?
  {
    hide HeaderPosition, Repeats;
    var n := 2 * |data| + 1;
    if HeaderPosition(data, 8, n).Some? {
      DifferentPlaces(data, n);
      Subset(FirstPositions(data, n), Interval(-57 - |data|, |data| - 59));
    }
  }

  lemma Subset(a: set<int>, b: set<int>)
    requires a <= b
    ensures |a| <= |b|
  {
    assert b == a + (b - a);
  }

  // ----- The sizes that stop it -----

  /** Header `n` of the run is read and claims this size. */
  ghost predicate Claims(data: string, n: nat, size: int) {
    var p := HeaderPosition(data, 8, n);
    p.Some? && HeaderAt(data, p.value).Header? && HeaderAt(data, p.value).size == size
  }

  lemma StuckRepeats(data: string, n: nat, size: int)
    requires Claims(data, n, size) && (size == -60 || size == -61)
    ensures Repeats(data, n, n + 1)
  {
    hide HeaderAt;
    var p := HeaderPosition(data, 8, n).value;
    HeadersFrom(data, 8, n, 1);
    HeadersFrom(data, 8, n, 0);
    assert HeaderPosition(data, p, 0) == HeaderPosition(data, NextPosition(p, size), 0);
  }

  lemma HoldingClaims(data: string, n: nat)
    ensures Holds(data, 8, n) ==> exists size :: size < -59 && Claims(data, n, size)
  {
    hide HeaderPosition, HeaderAt;
    if Holds(data, 8, n) { assert Claims(data, n, HeaderAt(data, HeaderPosition(data, 8, n).value).size); }
  }

  /** While every size met is at least -61, the reader ends exactly when none is -60 or -61. */
  lemma EndsUnlessStuck(data: string)
    requires Slice(data, 0, 8) == SIGNATURE && forall n, size | Claims(data, n, size) :: size >= -61
    ensures Ends(data) <==> forall n :: !Claims(data, n, -60) && !Claims(data, n, -61)
  {
    hide HeaderPosition, Repeats, HeaderAt, Slice, ReadFrom;
    EndsExactly(data);
    if n :| Claims(data, n, -60) || Claims(data, n, -61) {
      StuckRepeats(data, n, if Claims(data, n, -60) then -60 else -61);
    } else {
      forall n: nat ensures !Holds(data, 8, n) { HoldingClaims(data, n); }
      ReaderTerminates(data);
      assert Read(data, |data|).Some?;
    }
  }

  // ----- An archive that holds the reader -----

  const NAME_FIELD := "control         "
  const SIZE_FIELD := "-60       "

  /** One member whose header claims the size -60. */
  function Sticking(): string { SIGNATURE + (NAME_FIELD + Spaces(32) + SIZE_FIELD + "`\n") }

  lemma Fields(a: string, b: string, c: string, d: string)
    ensures (a + b + c + d)[0..|a|] == a && (a + b + c + d)[|a| + |b|..|a| + |b| + |c|] == c
  {
  }

  lemma StickingHeader()
    ensures |Sticking()| == 68 && Slice(Sticking(), 0, 8) == SIGNATURE
    ensures HeaderAt(Sticking(), 8).Header? && HeaderAt(Sticking(), 8).size == -60
  {
    hide ParseInt, Strip, Slice, Ascii;
    var h := NAME_FIELD + Spaces(32) + SIZE_FIELD + "`\n";
    assert |h| == 60 && "" + SIGNATURE + h == Sticking() && SIGNATURE + h + "" == Sticking();
    SliceInside("", SIGNATURE, h, 0, 8);
    SliceInside(SIGNATURE, h, "", 0, 16);
    SliceInside(SIGNATURE, h, "", 48, 58);
    Fields(NAME_FIELD, Spaces(32), SIZE_FIELD, "`\n");
    SixtyBelow();
    FieldsAreAscii();
  }

  lemma FieldsAreAscii()
    ensures Ascii(SIZE_FIELD) && Ascii(NAME_FIELD)
  {
  }

  lemma Sixty()
    ensures DigitGroups("60") == Some("60") && ValueOf("60") == 60
  {
    PlainDigitGroups("60");
    assert "60"[..1] == "6" && "6"[..0] == "";
    assert ValueOf("6") == 6;
  }

  lemma SixtyBelow()
    ensures ParseInt(Strip(SIZE_FIELD)) == Some(-60)
  {
    hide Strip, DigitGroups, ValueOf;
    StripPadded("-60", "       ");
    assert "-60" + "       " == SIZE_FIELD;
    StripPadded("-60", "");
    assert "-60" + "" == "-60" && "-60"[1..] == "60";
    Sixty();
  }

  /** The reader never ends on it. */
  lemma StickingHolds()
    ensures !Ends(Sticking())
  {
    hide Sticking, HeaderAt, Slice, Ends;
    StickingHeader();
    assert Claims(Sticking(), 0, -60);
    StuckRepeats(Sticking(), 0, -60);
    EndsExactly(Sticking());
  }
}
