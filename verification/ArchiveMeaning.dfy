/** What tools/checkToolchainPinDrift.py reads off an archive, told byte by byte. */
module ArchiveMeaning {
  import opened Numerals
  import opened NumeralMeaning
  import opened Archive

  /** Python's slice with no negative bound: the characters from `i` up to `j`, as far as there are any. */
  lemma SliceMeans(s: string, i: nat, j: nat)
    ensures var r := Slice(s, i, j);
      |r| == (if i >= j || i >= |s| then 0 else if j <= |s| then j - i else |s| - i) &&
      forall k | 0 <= k < |r| :: r[k] == s[i + k]
  {
  }

  /** A negative end counts from the end of the text. */
  lemma SliceFromEnd(s: string, i: nat, j: int)
    requires j < 0
    ensures Slice(s, i, j) == if i <= |s| + j then s[i..|s| + j] else ""
  {
  }

  /** The places of the two fields that are read. */
  predicate InFields(position: nat, k: int) { position <= k < position + 16 || position + 48 <= k < position + 58 }

  /** What a header holds: neither field has a byte above 127, the name is the first field
      without white space around it, and the second reads as the size. */
  ghost predicate Holds(data: string, position: nat, name: string, size: int)
    requires position + 60 <= |data|
  {
    (forall k | InFields(position, k) :: data[k] as int <= 127) &&
    Trimmed(name) && (exists pre, post :: White(pre) && White(post) && data[position..position + 16] == pre + name + post) &&
    exists pre, sign, gs, post ::
      White(pre) && White(post) && Groups(gs) && data[position + 48..position + 58] == IntText(pre, sign, gs, post) &&
      IntValue(sign, gs) == size
  }

  lemma FieldIsSlice(data: string, i: nat, j: nat)
    requires i <= j <= |data|
    ensures Slice(data, i, j) == data[i..j]
  {
  }

  lemma StrippedTwice(s: string)
    ensures ParseInt(Strip(s)) == ParseInt(s)
  {
    StripGives(s);
    StripMeans(Strip(s), Strip(s));
    NoneWhite();
    assert Strip(s) == "" + Strip(s) + "";
  }

  /** A header is read exactly when it holds a name and a size, and these are what is read. */
  lemma HeaderMeans(data: string, position: nat, name: string, size: int)
    requires position + 60 <= |data|
    ensures HeaderAt(data, position) == Header(name, size) <==> Holds(data, position, name, size)
  {
    hide Slice, Strip, ParseInt, White, Groups, Trimmed, IntText, IntValue;
    FieldIsSlice(data, position, position + 16);
    FieldIsSlice(data, position + 48, position + 58);
    BytesMean(data, position);
    StrippedTwice(data[position + 48..position + 58]);
    StripMeans(data[position..position + 16], name);
    IntMeans(data[position + 48..position + 58], size);
  }

  lemma BytesMean(data: string, position: nat)
    requires position + 60 <= |data|
    ensures Ascii(data[position..position + 16]) && Ascii(data[position + 48..position + 58]) <==>
      forall k | InFields(position, k) :: data[k] as int <= 127
  {
    var a, b := data[position..position + 16], data[position + 48..position + 58];
    if Ascii(a) && Ascii(b) {
      forall k | InFields(position, k) ensures data[k] as int <= 127 {
        if k < position + 16 { assert a[k - position] < 128 as char; } else { assert b[k - position - 48] < 128 as char; }
      }
    }
  }

  /** A header that is not read is refused for its bytes if one is above 127, else for its size. */
  lemma BadHeaderMeans(data: string, position: nat)
    requires position + 60 <= |data|
    ensures HeaderAt(data, position) == BadHeader(NotAscii) <==>
      exists k | InFields(position, k) :: data[k] as int > 127
    ensures HeaderAt(data, position) != BadHeader(NotAnArchive)
  {
    hide Strip, ParseInt, Slice;
    FieldIsSlice(data, position, position + 16);
    FieldIsSlice(data, position + 48, position + 58);
    BytesMean(data, position);
  }
}
