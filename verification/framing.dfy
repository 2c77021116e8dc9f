/**
 * HDLC-style framing of a bit string (written as a string of '0' and '1'),
 * after the opening and closing flag and the zero-bit insertion of
 * RFC 1662 sections 5.1 and 5.2, with a CRC-32 frame check sequence:
 *
 *   flag "01111110" | stuffed data | 32 CRC digits, most significant first | flag
 *
 * Python's `str.replace` (left to right, non-overlapping), slicing (negative
 * indices, clamping), `int(s, 2)` and `str.encode('utf-8')` are written out.
 */
module Framing {
  import opened Options
  import opened Crc32
  import opened Powers

  const Flag: string := "01111110"
  const FiveOnes: string := "11111"
  const StuffedFive: string := "111110"
  const SixOnes: string := "111111"
  /** Width of the CRC field: `f"{crc:032b}"`. */
  const CrcWidth: nat := 32
  /** Flag, CRC field and flag: the overhead a frame adds to its stuffed data. */
  const Overhead: nat := 48

  // ---------------------------------------------------------------------
  // Python string operations

  predicate StartsWith(s: string, p: string) {
    |p| <= |s| && s[..|p|] == p
  }

  predicate EndsWith(s: string, p: string) {
    |p| <= |s| && s[|s| - |p|..] == p
  }

  /** A Python slice bound: negative counts from the end, then clamped into 0..|s|. */
  function SliceBound(len: nat, x: int): (r: nat)
    ensures r <= len
    ensures 0 <= x <= len ==> r == x
    ensures x < 0 && 0 <= len + x ==> r == len + x
    ensures x > len ==> r == len
    ensures x + len < 0 ==> r == 0
  {
    if x < 0 then (if x + len < 0 then 0 else x + len)
    else if x > len then len else x
  }

  /** Python's `s[a:b]`. */
  function Slice(s: string, a: int, b: int): (r: string)
    ensures |r| <= |s|
    ensures var i, j := SliceBound(|s|, a), SliceBound(|s|, b);
      if i <= j then r == s[i..j] else r == []
  {
    var i, j := SliceBound(|s|, a), SliceBound(|s|, b);
    if i <= j then s[i..j] else []
  }

  /** `pat` occurs in `s` at position `i`. */
  predicate OccursAt(s: string, pat: string, i: int) {
    0 <= i && i + |pat| <= |s| && s[i..i + |pat|] == pat
  }

  ghost predicate Occurs(s: string, pat: string) {
    exists i :: OccursAt(s, pat, i)
  }

  lemma OccursInTail(s: string, pat: string)
    requires s != [] && Occurs(s[1..], pat)
    ensures Occurs(s, pat)
  {
    var i :| OccursAt(s[1..], pat, i);
    assert s[1..][i..i + |pat|] == s[i + 1..i + 1 + |pat|];
    assert OccursAt(s, pat, i + 1);
  }

  /**
   * Python's `s.replace(pat, rep)` for a non-empty `pat`: occurrences are
   * found from the left and replaced without overlapping.
   */
  function ReplaceAll(s: string, pat: string, rep: string): (r: string)
    requires pat != []
    ensures |pat| <= |rep| ==> |s| <= |r|
    ensures |rep| <= |pat| ==> |r| <= |s|
    ensures !Occurs(s, pat) ==> r == s
    decreases |s|
  {
    if |s| < |pat| then s
    else if s[..|pat|] == pat then
      assert OccursAt(s, pat, 0);
      rep + ReplaceAll(s[|pat|..], pat, rep)
    else
      var rest := ReplaceAll(s[1..], pat, rep);
      assert !Occurs(s, pat) ==> !Occurs(s[1..], pat) by {
        if Occurs(s[1..], pat) {
          OccursInTail(s, pat);
        }
      }
      [s[0]] + rest
  }

  // ---------------------------------------------------------------------
  // Zero-bit insertion

  /** `bit_stuffing`: a '0' after every (non-overlapping) run of five '1's. */
  function Stuff(s: string): (r: string)
    ensures |s| <= |r|
  {
    ReplaceAll(s, FiveOnes, StuffedFive)
  }

  /** `unbit_stuffing`: drop the '0' after every "11111" followed by '0'. */
  function Unstuff(s: string): (r: string)
    ensures |r| <= |s|
  {
    ReplaceAll(s, StuffedFive, FiveOnes)
  }

  predicate IsBinary(s: string) {
    forall i :: 0 <= i < |s| ==> s[i] == '0' || s[i] == '1'
  }

  /** The first `j` characters of `s` are '1'. */
  predicate LeadingOnes(s: string, j: nat) {
    j <= |s| && forall k :: 0 <= k < j ==> s[k] == '1'
  }

  lemma ConsLeadingOnes(s: string, j: nat)
    requires s != [] && s[0] == '1' && LeadingOnes(s[1..], j)
    ensures LeadingOnes(s, j + 1)
  {
    forall k | 0 < k < j + 1
      ensures s[k] == '1'
    {
      assert s[k] == s[1..][k - 1];
    }
  }

  lemma FiveOnesLeading(s: string)
    ensures StartsWith(s, FiveOnes) <==> LeadingOnes(s, 5)
  {
    if LeadingOnes(s, 5) {
      assert s[..5] == FiveOnes;
    }
  }

  /** `t` contains no six consecutive '1's, so it cannot contain the flag's body. */
  ghost predicate NoSixOnes(t: string) {
    !Occurs(t, SixOnes)
  }

  lemma StuffFive(s: string)
    requires StartsWith(s, FiveOnes)
    ensures Stuff(s) == StuffedFive + Stuff(s[5..])
  {
  }

  lemma StuffOther(s: string)
    requires s != [] && !StartsWith(s, FiveOnes)
    ensures Stuff(s) == [s[0]] + Stuff(s[1..])
  {
  }

  /** A run of up to five ones at the front of the stuffed string was already at the front of `s`. */
  lemma {:induction false} StuffedOnesPrefix(s: string, j: nat)
    requires j <= 5 && LeadingOnes(Stuff(s), j)
    ensures LeadingOnes(s, j)
    decreases |s|
  {
    FiveOnesLeading(s);
    if j == 0 || StartsWith(s, FiveOnes) {
    } else if s != [] {
      StuffOther(s);
      var t := Stuff(s[1..]);
      assert LeadingOnes(t, j - 1) by {
        forall k | 0 <= k < j - 1
          ensures t[k] == '1'
        {
          assert t[k] == Stuff(s)[k + 1];
        }
      }
      StuffedOnesPrefix(s[1..], j - 1);
      assert s[0] == Stuff(s)[0];
      ConsLeadingOnes(s, j - 1);
    }
  }

  /** A stuffed string that does not start with five ones gives no match for unstuffing at its front. */
  lemma NoStuffedFiveAfter(s: string)
    requires s != [] && !StartsWith(s, FiveOnes)
    ensures !StartsWith([s[0]] + Stuff(s[1..]), StuffedFive)
  {
    var t := Stuff(s[1..]);
    if StartsWith([s[0]] + t, StuffedFive) {
      assert LeadingOnes(t, 4) by {
        forall k | 0 <= k < 4
          ensures t[k] == '1'
        {
          assert t[k] == ([s[0]] + t)[..6][k + 1];
        }
      }
      StuffedOnesPrefix(s[1..], 4);
      assert s[0] == ([s[0]] + t)[..6][0];
      ConsLeadingOnes(s, 4);
      FiveOnesLeading(s);
    }
  }

  lemma UnstuffFive(t: string)
    ensures Unstuff(StuffedFive + t) == FiveOnes + Unstuff(t)
  {
    assert (StuffedFive + t)[..6] == StuffedFive;
    assert (StuffedFive + t)[6..] == t;
  }

  lemma UnstuffOther(c: char, t: string)
    requires !StartsWith([c] + t, StuffedFive)
    ensures Unstuff([c] + t) == [c] + Unstuff(t)
  {
    assert ([c] + t)[1..] == t;
  }

  /** Unstuffing undoes stuffing, on every string. */
  lemma {:induction false} StuffRoundTrip(s: string)
    ensures Unstuff(Stuff(s)) == s
    decreases |s|
  {
    if s == [] {
    } else if StartsWith(s, FiveOnes) {
      StuffFive(s);
      UnstuffFive(Stuff(s[5..]));
      StuffRoundTrip(s[5..]);
      assert s == FiveOnes + s[5..];
    } else {
      StuffOther(s);
      NoStuffedFiveAfter(s);
      UnstuffOther(s[0], Stuff(s[1..]));
      StuffRoundTrip(s[1..]);
    }
  }

  /** Six ones found in `pre + t` lie inside `t` or overlap the end of `pre`. */
  lemma SixOnesSplit(pre: string, t: string, i: int)
    requires OccursAt(pre + t, SixOnes, i)
    ensures i >= |pre| ==> OccursAt(t, SixOnes, i - |pre|)
    ensures i < |pre| ==> forall k :: i <= k < |pre| && k < i + 6 ==> pre[k] == '1'
    ensures i < |pre| && |pre| < i + 6 ==> forall k :: 0 <= k < i + 6 - |pre| ==> t[k] == '1'
    ensures i < |pre| <= i + 6 ==> pre[|pre| - 1] == '1'
  {
    if i >= |pre| {
      assert (pre + t)[i..i + 6] == t[i - |pre|..i - |pre| + 6];
    } else {
      forall k | i <= k < |pre| && k < i + 6
        ensures pre[k] == '1'
      {
        assert (pre + t)[i..i + 6][k - i] == SixOnes[k - i];
      }
      forall k | 0 <= k < i + 6 - |pre|
        ensures t[k] == '1'
      {
        assert (pre + t)[i..i + 6][k + |pre| - i] == SixOnes[k + |pre| - i];
      }
    }
  }

  /** After stuffing, no six consecutive '1's remain: the flag cannot appear inside the data. */
  lemma {:induction false} StuffNoSixOnes(s: string)
    ensures NoSixOnes(Stuff(s))
    decreases |s|
  {
    if s == [] {
    } else if StartsWith(s, FiveOnes) {
      StuffFive(s);
      StuffNoSixOnes(s[5..]);
      forall i | OccursAt(StuffedFive + Stuff(s[5..]), SixOnes, i)
        ensures false
      {
        SixOnesSplit(StuffedFive, Stuff(s[5..]), i);
      }
    } else {
      StuffOther(s);
      var t := Stuff(s[1..]);
      StuffNoSixOnes(s[1..]);
      forall i | OccursAt([s[0]] + t, SixOnes, i)
        ensures false
      {
        SixOnesSplit([s[0]], t, i);
        if i == 0 {
          StuffedOnesPrefix(s[1..], 5);
          assert [s[0]][0] == '1';
          ConsLeadingOnes(s, 4);
          FiveOnesLeading(s);
        }
      }
    }
  }

  /** Stuffing keeps a bit string a bit string. */
  lemma {:induction false} StuffBinary(s: string)
    requires IsBinary(s)
    ensures IsBinary(Stuff(s))
    decreases |s|
  {
    if s == [] {
    } else if StartsWith(s, FiveOnes) {
      StuffFive(s);
      StuffBinary(s[5..]);
    } else {
      StuffOther(s);
      StuffBinary(s[1..]);
    }
  }

  // ---------------------------------------------------------------------
  // Encoding and the CRC field

  function ToByte(n: nat): Byte
    requires n < 0x100
  {
    n as Byte
  }

  /** The UTF-8 encoding of one Unicode scalar value. */
  function Utf8(c: char): (r: seq<Byte>)
    ensures 1 <= |r| <= 4
    ensures c as int < 0x80 <==> |r| == 1
    ensures c as int < 0x80 ==> r == [ToByte(c as int)]
  {
    var n := c as int;
    if n < 0x80 then [ToByte(n)]
    else if n < 0x800 then [ToByte(0xC0 + n / 0x40), ToByte(0x80 + n % 0x40)]
    else if n < 0x1_0000 then
      [ToByte(0xE0 + n / 0x1000), ToByte(0x80 + n / 0x40 % 0x40), ToByte(0x80 + n % 0x40)]
    else
      [ToByte(0xF0 + n / 0x4_0000), ToByte(0x80 + n / 0x1000 % 0x40),
       ToByte(0x80 + n / 0x40 % 0x40), ToByte(0x80 + n % 0x40)]
  }

  /** `s.encode('utf-8')`. */
  function Encode(s: string): (r: seq<Byte>)
    ensures |s| <= |r| <= 4 * |s|
  {
    if s == [] then [] else Utf8(s[0]) + Encode(s[1..])
  }

  /** On a bit string the encoding is one ASCII byte per character: '0' is 0x30, '1' is 0x31. */
  lemma {:induction false} EncodeBinary(s: string)
    requires IsBinary(s)
    ensures |Encode(s)| == |s|
    ensures forall i :: 0 <= i < |s| ==> Encode(s)[i] == if s[i] == '1' then ToByte(0x31) else ToByte(0x30)
  {
    if s != [] {
      EncodeBinary(s[1..]);
      assert s[0] == '0' || s[0] == '1';
      forall i | 1 <= i < |s|
        ensures Encode(s)[i] == Encode(s[1..])[i - 1]
      {
      }
    }
  }

  /** `f"{n:0{w}b}"` for `n < 2^w`: `w` binary digits, most significant first. */
  function BinaryDigits(n: nat, w: nat): (r: string)
    ensures |r| == w && IsBinary(r)
  {
    if w == 0 then []
    else
      var r := BinaryDigits(n / 2, w - 1) + [if n % 2 == 1 then '1' else '0'];
      assert forall i :: 0 <= i < w - 1 ==> r[i] == BinaryDigits(n / 2, w - 1)[i];
      r
  }

  /** The number a string of binary digits denotes. */
  function BinaryValue(s: string): nat {
    if s == [] then 0
    else 2 * BinaryValue(s[..|s| - 1]) + (if s[|s| - 1] == '1' then 1 else 0)
  }

  /** `int(s, 2)`: `None` where Python raises `ValueError` (an empty string or a non-binary digit). */
  function ParseBinary(s: string): (r: Option<nat>)
    ensures r.Some? <==> s != [] && IsBinary(s)
    ensures r.Some? ==> r.value < Pow2(|s|)
  {
    if s != [] && IsBinary(s) then
      BinaryValueBound(s);
      Some(BinaryValue(s))
    else None
  }

  lemma {:induction false} BinaryValueBound(s: string)
    ensures BinaryValue(s) < Pow2(|s|)
  {
    if s != [] {
      BinaryValueBound(s[..|s| - 1]);
    }
  }

  /** Printing `n` in `w` binary digits and parsing it back gives `n`. */
  lemma {:induction false} DigitsRoundTrip(n: nat, w: nat)
    requires n < Pow2(w)
    ensures BinaryValue(BinaryDigits(n, w)) == n
  {
    if w != 0 {
      var r := BinaryDigits(n, w);
      assert r[..|r| - 1] == BinaryDigits(n / 2, w - 1);
      DigitsRoundTrip(n / 2, w - 1);
    }
  }

  lemma Pow2Byte(n: nat)
    ensures Pow2(n + 8) == 0x100 * Pow2(n)
  {
    assert Pow2(n + 8) == 2 * Pow2(n + 7);
    assert Pow2(n + 7) == 2 * Pow2(n + 6);
    assert Pow2(n + 6) == 2 * Pow2(n + 5);
    assert Pow2(n + 5) == 2 * Pow2(n + 4);
    assert Pow2(n + 4) == 2 * Pow2(n + 3);
    assert Pow2(n + 3) == 2 * Pow2(n + 2);
  }

  lemma Pow2CrcWidth()
    ensures Pow2(CrcWidth) == 0x1_0000_0000
  {
    Pow2Byte(0);
    Pow2Byte(8);
    Pow2Byte(16);
    Pow2Byte(24);
  }

  /** Every register value fits the 32-digit field. */
  lemma CrcFits(crc: bv32)
    ensures crc as int < Pow2(CrcWidth)
  {
    Pow2CrcWidth();
  }

  /** `f"{crc:032b}"`. */
  function CrcField(crc: bv32): (r: string)
    ensures |r| == CrcWidth && IsBinary(r)
  {
    BinaryDigits(crc as int, CrcWidth)
  }

  /** The CRC field parses back to the register it was printed from. */
  lemma CrcFieldRoundTrip(crc: bv32)
    ensures ParseBinary(CrcField(crc)) == Some(crc as int)
  {
    CrcFits(crc);
    DigitsRoundTrip(crc as int, CrcWidth);
  }

  // ---------------------------------------------------------------------
  // Frames

  /** One frame of `frame_data`: flag, stuffed chunk, CRC of the chunk's UTF-8 bytes, flag. */
  function FrameOf(chunk: string): (frame: string)
    ensures |frame| == Overhead + |Stuff(chunk)|
    ensures StartsWith(frame, Flag) && EndsWith(frame, Flag)
  {
    var frame := Flag + Stuff(chunk) + CrcField(Crc(Encode(chunk))) + Flag;
    assert frame[..8] == Flag;
    assert frame[|frame| - 8..] == Flag;
    frame
  }

  /** What `verify_frame` returns: whether the CRC matched, and the data it recovered. */
  datatype Verdict = Verdict(valid: bool, data: string)

  /**
   * `verify_frame`. `None` is the `ValueError` that `int(crc_part, 2)` raises
   * when the CRC field is empty or holds a character other than '0' and '1'.
   */
  function VerifyFrame(frame: string): (r: Option<Verdict>)
    ensures !(StartsWith(frame, Flag) && EndsWith(frame, Flag)) ==> r == Some(Verdict(false, frame))
    ensures r.Some? && r.value.valid ==>
      StartsWith(frame, Flag) && EndsWith(frame, Flag) &&
      r.value.data == Unstuff(Slice(frame, 8, -40)) &&
      ParseBinary(Slice(frame, -40, -8)) == Some(Crc(Encode(r.value.data)) as int)
  {
    if StartsWith(frame, Flag) && EndsWith(frame, Flag) then
      var dataPart := Slice(frame, 8, -40);
      var crcPart := Slice(frame, -40, -8);
      match ParseBinary(crcPart)
      case None => None
      case Some(expected) =>
        var unstuffed := Unstuff(dataPart);
        Some(Verdict(Crc(Encode(unstuffed)) as int == expected, unstuffed))
    else
      Some(Verdict(false, frame))
  }

  /** The parts of a frame built by `FrameOf`, as `verify_frame` slices them. */
  lemma FrameParts(chunk: string)
    ensures Slice(FrameOf(chunk), 8, -40) == Stuff(chunk)
    ensures Slice(FrameOf(chunk), -40, -8) == CrcField(Crc(Encode(chunk)))
  {
    var st, f := Stuff(chunk), CrcField(Crc(Encode(chunk)));
    var frame := FrameOf(chunk);
    assert frame == Flag + st + f + Flag;
    PartsOfFour(Flag, st, f, Flag);
  }

  /** The middle parts of a four-part concatenation. */
  lemma PartsOfFour(a: string, b: string, c: string, d: string)
    ensures (a + b + c + d)[|a|..|a| + |b|] == b
    ensures (a + b + c + d)[|a| + |b|..|a| + |b| + |c|] == c
  {
    var s := a + b + c + d;
    assert forall k :: 0 <= k < |b| ==> s[|a| + k] == b[k];
    assert forall k :: 0 <= k < |c| ==> s[|a| + |b| + k] == c[k];
  }

  /** An untouched frame passes verification and gives back exactly its chunk. */
  lemma FrameRoundTrip(chunk: string)
    ensures VerifyFrame(FrameOf(chunk)) == Some(Verdict(true, chunk))
  {
    FrameParts(chunk);
    CrcFieldRoundTrip(Crc(Encode(chunk)));
    StuffRoundTrip(chunk);
  }

  /** The character `corrupt_frame` writes in place of `c`. */
  function Flip(c: char): (d: char)
    ensures d != c && (d == '0' || d == '1')
  {
    if c == '1' then '0' else '1'
  }

  /**
   * `corrupt_frame`. `corrupt` is the outcome of `random.random() < corruption_probability`
   * and `pick` the draw of `random.randint(8, len(frame) - 41)`; `None` is the
   * `ValueError` that `randint` raises on an empty range (a frame shorter than 49).
   */
  function CorruptFrame(frame: string, corrupt: bool, pick: int): (r: Option<string>)
    requires corrupt && |frame| >= 49 ==> 8 <= pick <= |frame| - 41
    ensures r.Some? <==> !corrupt || |frame| >= 49
    ensures !corrupt ==> r == Some(frame)
    ensures corrupt && r.Some? ==>
      |r.value| == |frame| && r.value[pick] != frame[pick] &&
      forall k :: 0 <= k < |frame| && k != pick ==> r.value[k] == frame[k]
  {
    if !corrupt then Some(frame)
    else if |frame| < 49 then None
    else Some(frame[..pick] + [Flip(frame[pick])] + frame[pick + 1..])
  }

  /** Corruption never touches the flags or the CRC field, and keeps a bit string a bit string. */
  lemma CorruptKeepsFrame(frame: string, corrupt: bool, pick: int)
    requires corrupt && |frame| >= 49 ==> 8 <= pick <= |frame| - 41
    requires CorruptFrame(frame, corrupt, pick).Some?
    ensures var t := CorruptFrame(frame, corrupt, pick).value;
      |t| == |frame| &&
      (forall k :: (0 <= k < 8 || |frame| - 40 <= k) && 0 <= k < |frame| ==> t[k] == frame[k]) &&
      (StartsWith(frame, Flag) ==> StartsWith(t, Flag)) &&
      (EndsWith(frame, Flag) ==> EndsWith(t, Flag)) &&
      (IsBinary(frame) ==> IsBinary(t))
  {
    var t := CorruptFrame(frame, corrupt, pick).value;
    if corrupt {
      assert t[..8] == frame[..8];
      assert t[|t| - 8..] == frame[|frame| - 8..];
    }
  }

  // ---------------------------------------------------------------------
  // Splitting the data and tallying the verdicts

  /** `s[i:]` for `i >= 0`. */
  function Drop(s: string, i: nat): (r: string)
    ensures |r| == if i <= |s| then |s| - i else 0
  {
    if i <= |s| then s[i..] else []
  }

  function Concat(parts: seq<string>): string {
    if parts == [] then [] else parts[0] + Concat(parts[1..])
  }

  /** The chunks `data[i:i+size]` for `i` in `range(0, len(data), size)`. */
  function Chunks(data: string, size: nat): (r: seq<string>)
    requires size > 0
    decreases |data|
  {
    if data == [] then []
    else if |data| <= size then [data]
    else [data[..size]] + Chunks(data[size..], size)
  }

  /**
   * `range(0, n, size)` has ceil(n / size) elements, the least count whose
   * chunks of `size` cover the data; every chunk is non-empty and at most `size` long.
   */
  lemma {:induction false} ChunksShape(data: string, size: nat)
    requires size > 0
    ensures |data| <= |Chunks(data, size)| * size < |data| + size
    ensures forall k :: 0 <= k < |Chunks(data, size)| ==> 0 < |Chunks(data, size)[k]| <= size
    decreases |data|
  {
    if |data| > size {
      var rest := data[size..];
      ChunksShape(rest, size);
      assert |Chunks(data, size)| * size == size + |Chunks(rest, size)| * size;
      assert forall k :: 1 <= k < |Chunks(data, size)| ==> Chunks(data, size)[k] == Chunks(rest, size)[k - 1];
    }
  }

  /** Joining the chunks gives back the data. */
  lemma {:induction false} ChunksConcat(data: string, size: nat)
    requires size > 0
    ensures Concat(Chunks(data, size)) == data
    decreases |data|
  {
    if |data| > size {
      var first, rest := data[..size], data[size..];
      ChunksConcat(rest, size);
      var parts := [first] + Chunks(rest, size);
      assert Chunks(data, size) == parts;
      assert parts[0] == first && parts[1..] == Chunks(rest, size);
      assert first + rest == data;
    } else if data != [] {
      assert Chunks(data, size) == [data];
      assert [data][1..] == [];
    }
  }

  /** `f` applied to each element, in order. */
  function MapSeq(f: string -> string, xs: seq<string>): (ys: seq<string>)
    ensures |ys| == |xs|
    ensures forall k :: 0 <= k < |xs| ==> ys[k] == f(xs[k])
  {
    seq(|xs|, k requires 0 <= k < |xs| => f(xs[k]))
  }

  lemma MapSeqAppend(f: string -> string, a: seq<string>, b: seq<string>)
    ensures MapSeq(f, a + b) == MapSeq(f, a) + MapSeq(f, b)
  {
    assert forall k :: 0 <= k < |a| + |b| ==> MapSeq(f, a + b)[k] == (MapSeq(f, a) + MapSeq(f, b))[k];
  }

  /** The loop of `frame_data` at offset `i` takes the next chunk `data[i:i+size]`, then goes on at `next`, that is `i + size`. */
  lemma ChunksStep(data: string, size: nat, i: nat, next: nat)
    requires size > 0 && i < |data| && next == i + size
    ensures Chunks(Drop(data, i), size) == [Slice(data, i, next)] + Chunks(Drop(data, next), size)
  {
    var d := data[i..];
    if |d| <= size {
      assert Slice(data, i, next) == d;
      assert Drop(data, next) == [];
    } else {
      assert Slice(data, i, next) == d[..size];
      assert d[size..] == data[next..];
    }
  }

  /** frames are the images under f of the chunks before position i. */
  ghost predicate BuiltUpTo(f: string -> string, data: string, size: nat, i: nat, frames: seq<string>)
    requires size > 0
  {
    MapSeq(f, Chunks(data, size)) == frames + MapSeq(f, Chunks(Drop(data, i), size))
  }

  /** frames are the frames of the chunks before position i. */
  ghost predicate FramedUpTo(data: string, size: nat, i: nat, frames: seq<string>)
    requires size > 0
  {
    BuiltUpTo(FrameOf, data, size, i, frames)
  }

  /** Before the loop of `frame_data` nothing is built; after it, everything is. */
  lemma BuiltEnds(f: string -> string, data: string, size: nat, i: nat, frames: seq<string>)
    requires size > 0
    ensures BuiltUpTo(f, data, size, 0, [])
    ensures i >= |data| && BuiltUpTo(f, data, size, i, frames) ==> frames == MapSeq(f, Chunks(data, size))
  {
    assert Drop(data, 0) == data;
    if i >= |data| {
      assert Chunks(Drop(data, i), size) == [];
      assert frames + [] == frames;
    }
  }

  /** One turn of the loop of `frame_data` keeps the frames built so far a prefix of the whole result. */
  lemma FrameDataStep(f: string -> string, data: string, size: nat, i: nat, frames: seq<string>, built: string, next: nat, extended: seq<string>)
    requires size > 0 && i < |data|
    requires BuiltUpTo(f, data, size, i, frames)
    requires next == i + size && built == f(Slice(data, i, next))
    requires extended == frames + [built]
    ensures BuiltUpTo(f, data, size, next, extended)
  {
    ChunksStep(data, size, i, next);
    MappedStep(f, Chunks(data, size), frames, Chunks(Drop(data, i), size),
      Slice(data, i, next), Chunks(Drop(data, next), size), extended);
  }

  /** Mapping the first of the remaining elements moves its image to the mapped prefix. */
  lemma MappedStep(f: string -> string, whole: seq<string>, done: seq<string>, rest: seq<string>, next: string, later: seq<string>, extended: seq<string>)
    requires MapSeq(f, whole) == done + MapSeq(f, rest)
    requires rest == [next] + later
    requires extended == done + [f(next)]
    ensures MapSeq(f, whole) == extended + MapSeq(f, later)
  {
    MapSeqAppend(f, [next], later);
    assert MapSeq(f, [next]) == [f(next)];
  }

  /** The body of the loop of `frame_data`: CRC of the chunk's bytes, stuffing, flags. */
  method BuildFrame(calculator: Calculator, frame: string) returns (framed: string)
    requires IsCrcTable(calculator.crcTable)
    ensures framed == FrameOf(frame)
  {
    var crc := calculator.CalculateCrc(Encode(frame));
    var crcBits := CrcField(crc);
    var stuffedFrame := Stuff(frame);
    framed := Flag + stuffedFrame + crcBits + Flag;
  }

  /**
   * `frame_data`. `None` is the `ValueError` of `range` with step 0; a
   * negative step gives an empty range, so no frames.
   */
  method FrameData(data: string, frameSize: int) returns (framed: Option<seq<string>>)
    ensures frameSize == 0 ==> framed == None
    ensures frameSize < 0 ==> framed == Some([])
    ensures frameSize > 0 ==> framed == Some(MapSeq(FrameOf, Chunks(data, frameSize)))
  {
    if frameSize == 0 {
      return None;
    }
    if frameSize < 0 {
      return Some([]);
    }
    var calculator := new Calculator();
    var frames := FrameChunks(calculator, data, frameSize);
    return Some(frames);
  }

  /** The loop of `frame_data` over `range(0, len(data), frameSize)`. */
  method FrameChunks(calculator: Calculator, data: string, frameSize: nat) returns (framedData: seq<string>)
    requires frameSize > 0 && IsCrcTable(calculator.crcTable)
    ensures framedData == MapSeq(FrameOf, Chunks(data, frameSize))
  {
    framedData := [];
    var i: nat := 0;
    BuiltEnds(FrameOf, data, frameSize, 0, []);
    while i < |data|
      invariant FramedUpTo(data, frameSize, i, framedData)
      decreases |data| - i
    {
      framedData, i := AppendFrame(calculator, data, frameSize, i, framedData);
    }
    BuiltEnds(FrameOf, data, frameSize, i, framedData);
  }

  /** `FrameDataStep` for the frames of `frame_data`, with the new offset and frames named. */
  lemma FramedStep(data: string, size: nat, i: nat, frames: seq<string>, built: string, next: nat, extended: seq<string>)
    requires size > 0 && i < |data|
    requires FramedUpTo(data, size, i, frames)
    requires next == i + size && built == FrameOf(Slice(data, i, next))
    requires extended == frames + [built]
    ensures FramedUpTo(data, size, next, extended)
  {
    FrameDataStep(FrameOf, data, size, i, frames, built, next, extended);
  }

  /** One turn of the loop of `frame_data`: frame the chunk at i and append it. */
  method AppendFrame(calculator: Calculator, data: string, frameSize: nat, i: nat, framedData: seq<string>)
    returns (extended: seq<string>, next: nat)
    requires frameSize > 0 && i < |data| && IsCrcTable(calculator.crcTable)
    requires FramedUpTo(data, frameSize, i, framedData)
    ensures next == i + frameSize
    ensures FramedUpTo(data, frameSize, next, extended)
  {
    next := i + frameSize;
    var built := BuildFrame(calculator, Slice(data, i, next));
    extended := framedData + [built];
    FramedStep(data, frameSize, i, framedData, built, next, extended);
  }

  /** The result of `process_frames`: the recovered data of the valid frames and the count of the others. */
  datatype Tally = Tally(repaired: seq<string>, damaged: nat)

  /** `process_frames` as a fold; `None` when some frame makes `verify_frame` raise. */
  function TallyOf(frames: seq<string>): (r: Option<Tally>)
    ensures r.Some? ==> |r.value.repaired| + r.value.damaged == |frames|
  {
    if frames == [] then Some(Tally([], 0))
    else
      var init := frames[..|frames| - 1];
      match TallyOf(init)
      case None => None
      case Some(t) =>
        match VerifyFrame(frames[|frames| - 1])
        case None => None
        case Some(v) => Some(Counted(t, v))
  }

  /** The tally after one more verdict: a valid frame's data is kept, an invalid frame is counted. */
  function Counted(t: Tally, v: Verdict): (u: Tally)
    ensures |u.repaired| + u.damaged == |t.repaired| + t.damaged + 1
  {
    if v.valid then Tally(t.repaired + [v.data], t.damaged) else Tally(t.repaired, t.damaged + 1)
  }

  /** One turn of the loop of `process_frames` on a frame that verifies without error. */
  lemma TallyStep(frames: seq<string>, k: nat, t: Tally, v: Verdict)
    requires k < |frames| && TallyOf(frames[..k]) == Some(t) && VerifyFrame(frames[k]) == Some(v)
    ensures TallyOf(frames[..k + 1]) == Some(Counted(t, v))
  {
    var prefix := frames[..k + 1];
    assert prefix[..k] == frames[..k] && prefix[k] == frames[k];
  }

  /** `process_frames`. */
  method ProcessFrames(frames: seq<string>) returns (outcome: Option<Tally>)
    ensures outcome == TallyOf(frames)
  {
    var repairedData: seq<string> := [];
    var damagedFramesCount: nat := 0;
    for k := 0 to |frames|
      invariant TallyOf(frames[..k]) == Some(Tally(repairedData, damagedFramesCount))
    {
      var verdict := VerifyFrame(frames[k]);
      if verdict.None? {
        TallyStops(frames, k + 1);
        return None;
      }
      TallyStep(frames, k, Tally(repairedData, damagedFramesCount), verdict.value);
      if verdict.value.valid {
        repairedData := repairedData + [verdict.value.data];
      } else {
        damagedFramesCount := damagedFramesCount + 1;
      }
    }
    assert frames[..|frames|] == frames;
    return Some(Tally(repairedData, damagedFramesCount));
  }

  /** Once a prefix raises, so does the whole list. */
  lemma {:induction false} TallyStops(frames: seq<string>, k: nat)
    requires k <= |frames| && TallyOf(frames[..k]).None?
    ensures TallyOf(frames).None?
    decreases |frames| - k
  {
    if k < |frames| {
      assert frames[..k + 1][..k] == frames[..k];
      TallyStops(frames, k + 1);
    } else {
      assert frames[..k] == frames;
    }
  }

  /**
   * End to end: the frames `frame_data` builds all pass `process_frames`,
   * none is counted as damaged, and joining the recovered chunks gives back the data.
   */
  lemma {:induction false} FramesRecovered(chunks: seq<string>)
    ensures TallyOf(MapSeq(FrameOf, chunks)) == Some(Tally(chunks, 0))
  {
    if chunks != [] {
      var init := chunks[..|chunks| - 1];
      assert chunks == init + [chunks[|chunks| - 1]];
      MapSeqAppend(FrameOf, init, [chunks[|chunks| - 1]]);
      assert MapSeq(FrameOf, chunks)[..|chunks| - 1] == MapSeq(FrameOf, init);
      FramesRecovered(init);
      FrameRoundTrip(chunks[|chunks| - 1]);
    }
  }

  lemma DataRecovered(data: string, size: nat)
    requires size > 0
    ensures TallyOf(MapSeq(FrameOf, Chunks(data, size))) == Some(Tally(Chunks(data, size), 0))
    ensures Concat(Chunks(data, size)) == data
  {
    FramesRecovered(Chunks(data, size));
    ChunksConcat(data, size);
  }
}
